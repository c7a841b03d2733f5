/** Aggregations over parsed logs (app/src/analyzer.py): the per-level
    counts ordered as `Counter.most_common()` orders them, and the ERROR
    messages repeated at least `min_count` times. Python's insertion-ordered
    dictionaries are sequences of entries here. */
module Analyzer {
  import opened Records
  import opened Sorting

  /** One `key: count` item of a `Counter` or of a dictionary built from one. */
  datatype Entry = Entry(key: string, count: nat)

  const DefaultMinCount := 2

  // ----- list comprehensions over the logs -----

  /** `[field(log) for log in logs if keep(log)]`. */
  function Gather(logs: seq<Log>, field: Log -> string, keep: Log -> bool): seq<string>
    decreases |logs|
  {
    if logs == [] then []
    else
      var n := |logs| - 1;
      Gather(logs[..n], field, keep) + (if keep(logs[n]) then [field(logs[n])] else [])
  }

  /** The positions of the logs that are kept and whose field is `v`. */
  function Matching(logs: seq<Log>, field: Log -> string, keep: Log -> bool, v: string): set<nat> {
    set i: nat | i < |logs| && keep(logs[i]) && field(logs[i]) == v
  }

  /** The comprehension yields each value once per kept log that has it. */
  lemma {:induction false} GatherCount(logs: seq<Log>, field: Log -> string, keep: Log -> bool, v: string)
    ensures multiset(Gather(logs, field, keep))[v] == |Matching(logs, field, keep, v)|
    decreases |logs|
  {
    if logs != [] {
      var n := |logs| - 1;
      GatherCount(logs[..n], field, keep, v);
      MatchingStep(logs, field, keep, v);
    }
  }

  /** The last log adds its own position, or nothing. */
  lemma MatchingStep(logs: seq<Log>, field: Log -> string, keep: Log -> bool, v: string)
    requires logs != []
    ensures var n := |logs| - 1;
      Matching(logs, field, keep, v)
      == Matching(logs[..n], field, keep, v) + if keep(logs[n]) && field(logs[n]) == v then {n} else {}
  {
    var n := |logs| - 1;
    var p := logs[..n];
    assert forall i :: 0 <= i < n ==> p[i] == logs[i];
  }

  /** The comprehension has one item per kept log. */
  lemma {:induction false} GatherLength(logs: seq<Log>, field: Log -> string, keep: Log -> bool)
    ensures |Gather(logs, field, keep)| == |Kept(logs, keep)|
    decreases |logs|
  {
    if logs != [] {
      var n := |logs| - 1;
      GatherLength(logs[..n], field, keep);
      KeptStep(logs, keep);
    }
  }

  /** Every gathered value is the field of a kept log. */
  lemma {:induction false} GatherFrom(logs: seq<Log>, field: Log -> string, keep: Log -> bool, v: string)
    ensures v in Gather(logs, field, keep) <==> exists i :: 0 <= i < |logs| && keep(logs[i]) && field(logs[i]) == v
  {
    GatherCount(logs, field, keep, v);
    var m := Matching(logs, field, keep, v);
    if i :| 0 <= i < |logs| && keep(logs[i]) && field(logs[i]) == v {
      assert i in m;
    }
    if v in Gather(logs, field, keep) {
      var i :| i in m;
    }
  }

  function LevelOf(log: Log): string { Get(log, "level") }
  function MessageOf(log: Log): string { Get(log, "message") }

  /** `log.get("level")` is truthy. */
  predicate HasLevel(log: Log) { Get(log, "level") != "" }

  /** `log.get("level") == "ERROR" and log.get("message")`. */
  predicate IsErrorWithMessage(log: Log) { Get(log, "level") == "ERROR" && Get(log, "message") != "" }

  /** `[log.get("level") for log in logs if log.get("level")]` */
  function Levels(logs: seq<Log>): seq<string> { Gather(logs, LevelOf, HasLevel) }

  /** `[log.get("message") for log in logs if ...ERROR... and log.get("message")]` */
  function ErrorMessages(logs: seq<Log>): seq<string> { Gather(logs, MessageOf, IsErrorWithMessage) }

  // ----- collections.Counter -----

  function Keys(t: seq<Entry>): (ks: seq<string>)
    ensures |ks| == |t| && forall i :: 0 <= i < |t| ==> ks[i] == t[i].key
  {
    seq(|t|, i requires 0 <= i < |t| => t[i].key)
  }

  predicate DistinctKeys(t: seq<Entry>) {
    forall i, j :: 0 <= i < j < |t| ==> t[i].key != t[j].key
  }

  /** Count one more `x`: its entry goes up by one, or a new entry `x: 1`
      goes at the end. */
  function Bump(t: seq<Entry>, x: string): seq<Entry> {
    if t == [] then [Entry(x, 1)]
    else if t[0].key == x then [Entry(x, t[0].count + 1)] + t[1..]
    else [t[0]] + Bump(t[1..], x)
  }

  /** `Counter(s)`: the items counted one after another. */
  function Tally(s: seq<string>): seq<Entry>
    decreases |s|
  {
    if s == [] then [] else Bump(Tally(s[..|s| - 1]), s[|s| - 1])
  }

  /** Position of the first `x` in `s`, or `|s|` when there is none. */
  function FirstIndex(s: seq<string>, x: string): (i: nat)
    ensures i <= |s|
    ensures i < |s| <==> x in s
    ensures i < |s| ==> s[i] == x && x !in s[..i]
  {
    if s == [] then 0
    else if s[0] == x then 0
    else
      var j := FirstIndex(s[1..], x);
      assert s[1..][..j] == s[1..j + 1];
      assert s[..j + 1] == [s[0]] + s[1..j + 1];
      1 + j
  }

  /** Where the key of an entry first occurs in `s`. */
  function FirstSeen(s: seq<string>): Entry -> int {
    (e: Entry) => FirstIndex(s, e.key)
  }

  /** The entries run in strictly increasing rank. */
  predicate Increasing(t: seq<Entry>, rank: Entry -> int) {
    forall i, j :: 0 <= i < j < |t| ==> rank(t[i]) < rank(t[j])
  }

  lemma FirstIndexExtend(s: seq<string>, x: string, y: string)
    requires y in s
    ensures FirstIndex(s + [x], y) == FirstIndex(s, y)
  {
    var i := FirstIndex(s, y);
    var k := FirstIndex(s + [x], y);
    assert (s + [x])[i] == y;
    assert (s + [x])[..i] == s[..i];
  }

  lemma {:induction false} BumpKeys(t: seq<Entry>, x: string)
    ensures Keys(Bump(t, x)) == if x in Keys(t) then Keys(t) else Keys(t) + [x]
  {
    if t != [] {
      KeysCons(t[0], t[1..]);
      assert t == [t[0]] + t[1..];
      if t[0].key != x {
        BumpKeys(t[1..], x);
        KeysCons(t[0], Bump(t[1..], x));
      } else {
        KeysCons(Entry(x, t[0].count + 1), t[1..]);
      }
    }
  }

  lemma KeysCons(e: Entry, t: seq<Entry>)
    ensures Keys([e] + t) == [e.key] + Keys(t)
  {
  }

  lemma BumpDistinct(t: seq<Entry>, x: string)
    requires DistinctKeys(t)
    ensures DistinctKeys(Bump(t, x))
  {
    BumpKeys(t, x);
    var b := Bump(t, x);
    forall i, j | 0 <= i < j < |b| ensures b[i].key != b[j].key {
      assert Keys(b)[i] == b[i].key && Keys(b)[j] == b[j].key;
      if j < |t| {
        assert Keys(t)[i] == t[i].key && Keys(t)[j] == t[j].key;
      } else {
        assert Keys(t)[i] == t[i].key;
      }
    }
  }

  lemma {:induction false} BumpEntries(t: seq<Entry>, x: string, e: Entry)
    requires DistinctKeys(t)
    ensures e in Bump(t, x) <==>
      if e.key == x then (e.count == 1 && x !in Keys(t)) || (e.count >= 1 && Entry(x, e.count - 1) in t)
      else e in t
  {
    if t != [] {
      assert t == [t[0]] + t[1..];
      KeysCons(t[0], t[1..]);
      HeadKeyUnique(t);
      if t[0].key == x {
        assert Bump(t, x) == [Entry(x, t[0].count + 1)] + t[1..];
      } else {
        BumpEntries(t[1..], x, e);
        assert Bump(t, x) == [t[0]] + Bump(t[1..], x);
      }
    }
  }

  /** With distinct keys, the first key does not come back later. */
  lemma HeadKeyUnique(t: seq<Entry>)
    requires t != [] && DistinctKeys(t)
    ensures DistinctKeys(t[1..])
    ensures forall e :: e in t[1..] ==> e.key != t[0].key
  {
    forall e | e in t[1..] ensures e.key != t[0].key {
      var m :| 0 <= m < |t[1..]| && t[1..][m] == e;
      assert t[m + 1] == e;
    }
  }

  /** What `Counter(s)` holds: exactly one entry per distinct item, whose count
      is the number of times the item occurs. */
  lemma {:induction false} TallyEntries(s: seq<string>, e: Entry)
    ensures DistinctKeys(Tally(s))
    ensures e in Tally(s) <==> e.key in s && e.count == multiset(s)[e.key]
    decreases |s|
  {
    if s != [] {
      var p, x := s[..|s| - 1], s[|s| - 1];
      assert s == p + [x];
      TallyKeys(p);
      TallyEntries(p, e);
      if e.count >= 1 {
        TallyEntries(p, Entry(x, e.count - 1));
      }
      BumpDistinct(Tally(p), x);
      BumpEntries(Tally(p), x, e);
    }
  }

  /** The keys of `Counter(s)` are the distinct items of `s` in first-occurrence order. */
  lemma {:induction false} TallyKeys(s: seq<string>)
    ensures forall x :: x in Keys(Tally(s)) <==> x in s
    ensures Increasing(Tally(s), FirstSeen(s))
    decreases |s|
  {
    if s != [] {
      var p, x := s[..|s| - 1], s[|s| - 1];
      assert s == p + [x];
      TallyKeys(p);
      BumpKeys(Tally(p), x);
      var t, kp := Tally(s), Keys(Tally(p));
      forall a, b | 0 <= a < b < |kp| ensures FirstIndex(p, kp[a]) < FirstIndex(p, kp[b]) {
        assert FirstSeen(p)(Tally(p)[a]) < FirstSeen(p)(Tally(p)[b]);
      }
      forall i, j | 0 <= i < j < |t|
        ensures FirstSeen(s)(t[i]) < FirstSeen(s)(t[j])
      {
        KeysRank(p, x, kp, Keys(t), i, j);
      }
    }
  }

  /** Appending `x` keeps the first-occurrence ranks of the earlier keys and
      puts a new key last. */
  lemma KeysRank(p: seq<string>, x: string, kp: seq<string>, ks: seq<string>, i: nat, j: nat)
    requires ks == if x in kp then kp else kp + [x]
    requires forall y :: y in kp <==> y in p
    requires forall a, b :: 0 <= a < b < |kp| ==> FirstIndex(p, kp[a]) < FirstIndex(p, kp[b])
    requires i < j < |ks|
    ensures FirstIndex(p + [x], ks[i]) < FirstIndex(p + [x], ks[j])
  {
    assert ks[i] == kp[i] && kp[i] in kp;
    FirstIndexExtend(p, x, ks[i]);
    if j < |kp| {
      assert ks[j] == kp[j] && kp[j] in kp;
      FirstIndexExtend(p, x, ks[j]);
    } else {
      assert ks[j] == x && x !in p;
      assert (p + [x])[|p|] == x && (p + [x])[..|p|] == p;
    }
  }

  function Total(t: seq<Entry>): nat {
    if t == [] then 0 else t[0].count + Total(t[1..])
  }

  lemma {:induction false} BumpTotal(t: seq<Entry>, x: string)
    ensures Total(Bump(t, x)) == Total(t) + 1
  {
    if t != [] && t[0].key != x {
      BumpTotal(t[1..], x);
      assert Bump(t, x)[1..] == Bump(t[1..], x);
    }
  }

  /** The counts of `Counter(s)` add up to the number of items counted. */
  lemma {:induction false} TallyTotal(s: seq<string>)
    ensures Total(Tally(s)) == |s|
    decreases |s|
  {
    if s != [] {
      TallyTotal(s[..|s| - 1]);
      BumpTotal(Tally(s[..|s| - 1]), s[|s| - 1]);
    }
  }

  // ----- get_log_level_counts -----

  function CountOf(e: Entry): int { e.count }

  /** `dict(Counter(levels).most_common())`. */
  function LevelCounts(logs: seq<Log>): seq<Entry> {
    SortDesc(Tally(Levels(logs)), CountOf)
  }

  /** A rearrangement of entries with distinct keys still has distinct keys. */
  lemma PermutedKeysDistinct(a: seq<Entry>, b: seq<Entry>)
    requires multiset(a) == multiset(b) && DistinctKeys(a)
    ensures DistinctKeys(b)
  {
    forall i, j | 0 <= i < j < |b| ensures b[i].key != b[j].key {
      assert b[i] in multiset(a) && b[j] in multiset(a);
      var p :| 0 <= p < |a| && a[p] == b[i];
      var q :| 0 <= q < |a| && a[q] == b[j];
      if p == q {
        Twice(b, i, j);
        OnlyOnce(a, p);
      }
    }
  }

  lemma Twice(b: seq<Entry>, i: nat, j: nat)
    requires i < j < |b| && b[i] == b[j]
    ensures multiset(b)[b[i]] >= 2
  {
    assert b == b[..j] + b[j..];
    assert b[i] == b[..j][i] && b[j] == b[j..][0];
  }

  lemma OnlyOnce(a: seq<Entry>, p: nat)
    requires p < |a| && DistinctKeys(a)
    ensures multiset(a)[a[p]] == 1
  {
    assert a == a[..p] + [a[p]] + a[p + 1..];
    assert a[p] !in a[..p];
    assert a[p] !in a[p + 1..];
  }

  /** `get_log_level_counts`: one entry per non-empty level, whose count is the
      number of logs at that level; the counts add up to the number of logs
      with a level; the entries run from the largest count down. */
  lemma LevelCountsSpec(logs: seq<Log>, e: Entry)
    ensures e in LevelCounts(logs) <==>
      e.key != "" && e.count > 0 && e.count == |Matching(logs, LevelOf, HasLevel, e.key)|
    ensures DistinctKeys(LevelCounts(logs))
    ensures SortedDesc(LevelCounts(logs), CountOf)
    ensures Total(LevelCounts(logs)) == |Kept(logs, HasLevel)|
  {
    GatherLength(logs, LevelOf, HasLevel);
    var t := Tally(Levels(logs));
    SortDescSorted(t, CountOf);
    TallyEntries(Levels(logs), e);
    GatherCount(logs, LevelOf, HasLevel, e.key);
    GatherFrom(logs, LevelOf, HasLevel, e.key);
    assert e in LevelCounts(logs) <==> e in multiset(t);
    PermutedKeysDistinct(t, LevelCounts(logs));
    TallyTotal(Levels(logs));
    PermutedTotal(t, LevelCounts(logs));
  }

  lemma {:induction false} PermutedTotal(a: seq<Entry>, b: seq<Entry>)
    requires multiset(a) == multiset(b)
    ensures Total(a) == Total(b)
    decreases |a|
  {
    if a == [] {
      assert |b| == |multiset(b)| == 0;
    } else {
      var k := Locate(b, a[0]);
      RestPermuted(a, b, k);
      Without(b, k);
      PermutedTotal(a[1..], b[..k] + b[k + 1..]);
    }
  }

  /** Taking the first entry out of `a` and the same entry out of `b` leaves two rearrangements. */
  lemma RestPermuted(a: seq<Entry>, b: seq<Entry>, k: nat)
    requires multiset(a) == multiset(b) && a != [] && k < |b| && b[k] == a[0]
    ensures multiset(a[1..]) == multiset(b[..k] + b[k + 1..])
  {
    WithoutCounted(b, k);
    assert a == [a[0]] + a[1..];
    assert multiset(a) == multiset{a[0]} + multiset(a[1..]);
  }

  lemma Locate(b: seq<Entry>, x: Entry) returns (k: nat)
    requires x in multiset(b)
    ensures k < |b| && b[k] == x
  {
    k :| 0 <= k < |b| && b[k] == x;
  }

  /** Taking out the entry at `k` takes its count out of the total. */
  lemma Without(b: seq<Entry>, k: nat)
    requires k < |b|
    ensures Total(b) == b[k].count + Total(b[..k] + b[k + 1..])
  {
    var front, back := b[..k], b[k + 1..];
    var tail := [b[k]] + back;
    assert b == front + tail;
    TotalSplit(front, tail);
    TotalSplit(front, back);
    TotalCons(b[k], back);
  }

  lemma TotalCons(x: Entry, t: seq<Entry>)
    ensures Total([x] + t) == x.count + Total(t)
  {
    assert ([x] + t)[1..] == t;
  }

  lemma WithoutCounted(b: seq<Entry>, k: nat)
    requires k < |b|
    ensures multiset(b[..k] + b[k + 1..]) == multiset(b) - multiset{b[k]}
  {
    assert b == b[..k] + [b[k]] + b[k + 1..];
  }

  lemma {:induction false} TotalSplit(a: seq<Entry>, b: seq<Entry>)
    ensures Total(a + b) == Total(a) + Total(b)
  {
    if a == [] {
      assert a + b == b;
    } else {
      TotalSplit(a[1..], b);
      assert (a + b)[0] == a[0] && (a + b)[1..] == a[1..] + b;
    }
  }

  /** Levels with the same count keep the order in which they first appeared. */
  lemma LevelCountsTies(logs: seq<Log>, c: int)
    ensures Increasing(WithKey(LevelCounts(logs), CountOf, c), FirstSeen(Levels(logs)))
  {
    var t := Tally(Levels(logs));
    SortDescStable(t, CountOf, c);
    TallyKeys(Levels(logs));
    WithKeyIncreasing(t, c, FirstSeen(Levels(logs)));
  }

  /** Picking out the entries with one count keeps an increasing order. */
  lemma {:induction false} WithKeyIncreasing(t: seq<Entry>, c: int, rank: Entry -> int)
    requires Increasing(t, rank)
    ensures Increasing(WithKey(t, CountOf, c), rank)
  {
    if t != [] {
      WithKeyIncreasing(t[1..], c, rank);
      var w := WithKey(t[1..], CountOf, c);
      forall k | 0 <= k < |w| ensures rank(t[0]) < rank(w[k]) {
        WithKeyFrom(t[1..], c, k);
        var m :| 0 <= m < |t[1..]| && t[1..][m] == w[k];
        assert t[m + 1] == w[k];
      }
      if CountOf(t[0]) == c {
        PrependIncreasing(t[0], w, rank);
      } else {
        assert WithKey(t, CountOf, c) == w;
      }
    }
  }

  lemma PrependIncreasing(x: Entry, w: seq<Entry>, rank: Entry -> int)
    requires Increasing(w, rank)
    requires forall k :: 0 <= k < |w| ==> rank(x) < rank(w[k])
    ensures Increasing([x] + w, rank)
  {
    var all := [x] + w;
    forall i, j | 0 <= i < j < |all| ensures rank(all[i]) < rank(all[j]) {
      assert all[j] == w[j - 1];
      if i > 0 {
        assert all[i] == w[i - 1];
      }
    }
  }

  lemma {:induction false} WithKeyFrom(t: seq<Entry>, c: int, k: nat)
    requires k < |WithKey(t, CountOf, c)|
    ensures WithKey(t, CountOf, c)[k] in t
  {
    if t != [] {
      if CountOf(t[0]) == c && k == 0 {
      } else {
        var k' := if CountOf(t[0]) == c then k - 1 else k;
        WithKeyFrom(t[1..], c, k');
      }
    }
  }

  // ----- get_frequent_errors -----

  /** `{msg: count for msg, count in counter.items() if count >= min_count}` */
  function AtLeast(t: seq<Entry>, minCount: int): (r: seq<Entry>)
    ensures forall e :: e in r <==> e in t && e.count >= minCount
  {
    if t == [] then []
    else (if t[0].count >= minCount then [t[0]] else []) + AtLeast(t[1..], minCount)
  }

  lemma {:induction false} AtLeastIncreasing(t: seq<Entry>, minCount: int, rank: Entry -> int)
    requires Increasing(t, rank)
    ensures Increasing(AtLeast(t, minCount), rank)
  {
    if t != [] {
      AtLeastIncreasing(t[1..], minCount, rank);
      var r := AtLeast(t[1..], minCount);
      forall k | 0 <= k < |r| ensures rank(t[0]) < rank(r[k]) {
        assert r[k] in t[1..];
        var m :| 0 <= m < |t[1..]| && t[1..][m] == r[k];
        assert t[m + 1] == r[k];
      }
      if t[0].count >= minCount {
        PrependIncreasing(t[0], r, rank);
      } else {
        assert AtLeast(t, minCount) == r;
      }
    }
  }

  /** `get_frequent_errors(logs, min_count)`. */
  function FrequentErrors(logs: seq<Log>, minCount: int := DefaultMinCount): seq<Entry> {
    AtLeast(Tally(ErrorMessages(logs)), minCount)
  }

  /** A message is reported exactly when it is the non-empty message of ERROR
      logs at least `min_count` times (and at least once), with that number as
      its count. */
  lemma FrequentErrorsSpec(logs: seq<Log>, minCount: int, e: Entry)
    ensures e in FrequentErrors(logs, minCount) <==>
      var n := |Matching(logs, MessageOf, IsErrorWithMessage, e.key)|;
      e.count == n && n > 0 && n >= minCount
  {
    var s := ErrorMessages(logs);
    TallyEntries(s, e);
    GatherCount(logs, MessageOf, IsErrorWithMessage, e.key);
  }

  /** The reported messages come in the order they were first seen. */
  lemma FrequentErrorsOrder(logs: seq<Log>, minCount: int)
    ensures Increasing(FrequentErrors(logs, minCount), FirstSeen(ErrorMessages(logs)))
  {
    var s := ErrorMessages(logs);
    TallyKeys(s);
    AtLeastIncreasing(Tally(s), minCount, FirstSeen(s));
  }

  /** Only logs at level exactly `ERROR` with a non-empty message are counted. */
  lemma FrequentErrorsFrom(logs: seq<Log>, minCount: int, e: Entry)
    requires e in FrequentErrors(logs, minCount)
    ensures exists i :: 0 <= i < |logs| && Get(logs[i], "level") == "ERROR" && Get(logs[i], "message") == e.key != ""
  {
    FrequentErrorsSpec(logs, minCount, e);
    var m := Matching(logs, MessageOf, IsErrorWithMessage, e.key);
    var i :| i in m;
  }
}
