/** The response-time detector of app/src/detector.py: every log whose
    message holds `API response time: <digits>ms` (any letter case) with a
    value above the threshold becomes an anomaly, and the anomalies are
    sorted from the slowest down. */
module RegexDetector {
  import opened Wrappers
  import opened Text
  import opened Records
  import opened Sorting

  const DefaultThreshold := 1000

  // ----- the pattern `API response time: (\d+)ms` under IGNORECASE -----

  /** Case folding of ASCII letters; two characters match under IGNORECASE
      when their folds agree. */
  function Fold(c: char): char {
    if 'A' <= c <= 'Z' then (c as int + 32) as char else c
  }

  /** The literal parts of the pattern, folded. */
  const Label := "api response time: "
  const Unit := "ms"

  predicate LabelAt(m: string, i: nat) {
    i + |Label| <= |m| && forall k :: 0 <= k < |Label| ==> Fold(m[i + k]) == Label[k]
  }

  /** Length of the run of digits starting at `j`. */
  function DigitRun(m: string, j: nat): (n: nat)
    requires j <= |m|
    ensures j + n <= |m|
    ensures forall k :: j <= k < j + n ==> IsDigit(m[k])
    ensures j + n == |m| || !IsDigit(m[j + n])
    decreases |m| - j
  {
    if j < |m| && IsDigit(m[j]) then 1 + DigitRun(m, j + 1) else 0
  }

  /** The pattern matches at `i`. `(\d+)` can only end where the digits end:
      any shorter run is followed by a digit, which is not `m`. */
  predicate MatchAt(m: string, i: nat) {
    LabelAt(m, i) &&
    var j := i + |Label|;
    var d := DigitRun(m, j);
    d > 0 && UnitAt(m, j + d)
  }

  predicate UnitAt(m: string, p: nat) {
    p + |Unit| <= |m| && Fold(m[p]) == Unit[0] && Fold(m[p + 1]) == Unit[1]
  }

  /** The digits captured by a match at `i`. */
  function Captured(m: string, i: nat): (digits: string)
    requires MatchAt(m, i)
    ensures digits != [] && AllDigits(digits)
  {
    var j := i + |Label|;
    m[j..j + DigitRun(m, j)]
  }

  /** `int(match.group(1))`. */
  function ValueAt(m: string, i: nat): nat
    requires MatchAt(m, i)
  {
    DecimalValue(Captured(m, i))
  }

  // ----- `pattern.search`: the first start position where the pattern matches -----

  /** The first position from `i` to `n` at which `p` holds. */
  function FirstHit(p: nat -> bool, i: nat, n: nat): (r: Option<nat>)
    ensures r.Some? ==> i <= r.value <= n && p(r.value)
    decreases n - i
  {
    if i > n then None
    else if p(i) then Some(i)
    else FirstHit(p, i + 1, n)
  }

  /** No position before the first hit satisfies `p`. */
  lemma {:induction false} FirstHitIsFirst(p: nat -> bool, i: nat, n: nat)
    requires FirstHit(p, i, n).Some?
    ensures forall q :: i <= q < FirstHit(p, i, n).value ==> !p(q)
    decreases n - i
  {
    if !p(i) {
      FirstHitIsFirst(p, i + 1, n);
    }
  }

  /** A position that satisfies `p`, with none before it, is the first hit. */
  lemma {:induction false} FirstHitLeftmost(p: nat -> bool, i: nat, n: nat, k: nat)
    requires i <= k <= n && p(k)
    requires forall q :: i <= q < k ==> !p(q)
    ensures FirstHit(p, i, n) == Some(k)
    decreases k - i
  {
    if i < k {
      FirstHitLeftmost(p, i + 1, n, k);
    }
  }

  /** There is no hit exactly when no position in range satisfies `p`. */
  lemma {:induction false} FirstHitNone(p: nat -> bool, i: nat, n: nat)
    ensures FirstHit(p, i, n) == None <==> forall q :: i <= q <= n ==> !p(q)
    decreases n - i
  {
    if i <= n && !p(i) {
      FirstHitNone(p, i + 1, n);
      if FirstHit(p, i, n) == None {
        forall q | i <= q <= n ensures !p(q) {
          if q > i {
            assert i + 1 <= q;
          }
        }
      }
    }
  }

  /** Two predicates that agree on the range have the same first hit. */
  lemma {:induction false} FirstHitSame(p: nat -> bool, p': nat -> bool, i: nat, n: nat)
    requires forall q :: i <= q <= n ==> p(q) == p'(q)
    ensures FirstHit(p, i, n) == FirstHit(p', i, n)
    decreases n - i
  {
    if i <= n && !p(i) {
      FirstHitSame(p, p', i + 1, n);
    }
  }

  /** The start positions of a match in `m`. */
  function Matches(m: string): nat -> bool {
    (q: nat) => MatchAt(m, q)
  }

  /** `pattern.search(m)`, giving the captured value of the leftmost match;
      start positions run from 0 to `len(m)`. */
  function Search(m: string): Option<nat> {
    match FirstHit(Matches(m), 0, |m|)
    case Some(k) => Some(ValueAt(m, k))
    case None => None
  }

  /** A match lies inside the message. */
  lemma MatchInside(m: string, k: nat)
    requires MatchAt(m, k)
    ensures k + |Label| + |Unit| <= |m|
  {
  }

  /** The search reports the value captured by the leftmost match. */
  lemma SearchFindsLeftmost(m: string, k: nat)
    requires MatchAt(m, k)
    requires forall q :: 0 <= q < k ==> !MatchAt(m, q)
    ensures Search(m) == Some(ValueAt(m, k))
  {
    MatchInside(m, k);
    FirstHitLeftmost(Matches(m), 0, |m|, k);
  }

  /** When the search finds something, it is the value of a match with no
      match before it. */
  lemma LeftmostMatch(m: string) returns (k: nat)
    requires Search(m).Some?
    ensures MatchAt(m, k) && Search(m) == Some(ValueAt(m, k))
    ensures forall q :: 0 <= q < k ==> !MatchAt(m, q)
  {
    k := FirstHit(Matches(m), 0, |m|).value;
    FirstHitIsFirst(Matches(m), 0, |m|);
    forall q | 0 <= q < k ensures !MatchAt(m, q) {
      assert !Matches(m)(q);
    }
  }

  /** The search reports nothing exactly when the pattern matches nowhere. */
  lemma SearchFindsNothing(m: string)
    ensures Search(m) == None <==> forall k :: !MatchAt(m, k)
  {
    FirstHitNone(Matches(m), 0, |m|);
    if Search(m) == None {
      forall k: nat ensures !MatchAt(m, k) {
        if k <= |m| {
          assert !Matches(m)(k);
        } else if MatchAt(m, k) {
          MatchInside(m, k);
        }
      }
    }
  }

  /** Two texts that differ only in the case of their letters. */
  predicate EqualIgnoringCase(u: string, m: string) {
    |u| == |m| && forall i :: 0 <= i < |m| ==> Fold(u[i]) == Fold(m[i])
  }

  /** Matching ignores letter case: messages that differ only in the case of
      their letters give the same search result. */
  lemma SearchIgnoresCase(u: string, m: string)
    requires EqualIgnoringCase(u, m)
    ensures Search(u) == Search(m)
  {
    forall q: nat | q <= |m| ensures Matches(u)(q) == Matches(m)(q) {
      MatchIgnoresCase(u, m, q);
    }
    FirstHitSame(Matches(u), Matches(m), 0, |m|);
    var hit := FirstHit(Matches(m), 0, |m|);
    if hit.Some? {
      CapturedIgnoresCase(u, m, hit.value);
    }
  }

  /** In particular, upper-casing a message changes nothing. */
  lemma SearchOfUpper(m: string)
    ensures Search(Upper(m)) == Search(m)
  {
    UpperIgnoresCase(m);
    SearchIgnoresCase(Upper(m), m);
  }

  lemma UpperIgnoresCase(m: string)
    ensures EqualIgnoringCase(Upper(m), m)
  {
    var u := Upper(m);
    forall i | 0 <= i < |m| ensures Fold(u[i]) == Fold(m[i]) {
      FoldUpper(m[i]);
    }
  }

  lemma FoldUpper(c: char)
    ensures Fold(UpperChar(c)) == Fold(c)
  {
  }

  /** A digit agrees with nothing but itself, whatever the case. */
  lemma FoldDigit(c: char, d: char)
    requires Fold(c) == Fold(d)
    ensures IsDigit(c) <==> IsDigit(d)
    ensures IsDigit(c) ==> c == d
  {
  }

  lemma MatchIgnoresCase(u: string, m: string, k: nat)
    requires EqualIgnoringCase(u, m)
    ensures MatchAt(u, k) == MatchAt(m, k)
  {
    var j := k + |Label|;
    LabelIgnoresCase(u, m, k);
    if j <= |m| {
      DigitRunIgnoresCase(u, m, j);
      UnitIgnoresCase(u, m, j + DigitRun(m, j));
    }
  }

  lemma LabelIgnoresCase(u: string, m: string, k: nat)
    requires EqualIgnoringCase(u, m)
    ensures LabelAt(u, k) == LabelAt(m, k)
  {
    if k + |Label| <= |m| {
      forall q | 0 <= q < |Label| ensures Fold(u[k + q]) == Label[q] <==> Fold(m[k + q]) == Label[q] {
        assert Fold(u[k + q]) == Fold(m[k + q]);
      }
    }
  }

  lemma UnitIgnoresCase(u: string, m: string, p: nat)
    requires EqualIgnoringCase(u, m)
    ensures UnitAt(u, p) == UnitAt(m, p)
  {
  }

  lemma CapturedIgnoresCase(u: string, m: string, k: nat)
    requires EqualIgnoringCase(u, m) && MatchAt(m, k)
    ensures MatchAt(u, k) && Captured(u, k) == Captured(m, k)
  {
    MatchIgnoresCase(u, m, k);
    var j := k + |Label|;
    DigitRunIgnoresCase(u, m, j);
    var d := DigitRun(m, j);
    forall p | j <= p < j + d ensures u[p] == m[p] {
      FoldDigit(m[p], u[p]);
    }
    assert u[j..j + d] == m[j..j + d];
  }

  lemma {:induction false} DigitRunIgnoresCase(u: string, m: string, j: nat)
    requires EqualIgnoringCase(u, m) && j <= |m|
    ensures DigitRun(u, j) == DigitRun(m, j)
    decreases |m| - j
  {
    if j < |m| {
      DigitRunIgnoresCase(u, m, j + 1);
      FoldDigit(u[j], m[j]);
    }
  }

  /** `int()` of the captured digits always succeeds, so the `ValueError`
      handler is never reached. */
  lemma CapturedIsInt(m: string, i: nat)
    requires MatchAt(m, i)
    ensures ParseInt(Captured(m, i)) == Some(ValueAt(m, i))
  {
    var digits := Captured(m, i);
    ParseIntKeeps(digits);
    assert DropUnderscores(digits) == digits;
  }

  // ----- detect_high_response_times -----

  function ResponseTimeOf(a: Anomaly): int { a.responseTime }

  /** What one log contributes: an anomaly carrying its timestamp and message
      (missing ones read as empty) when the search finds a value above the
      threshold. */
  function Candidate(log: Log, thresholdMs: int): Option<Anomaly> {
    var message := Get(log, "message");
    match Search(message)
    case Some(v) => if v > thresholdMs then Some(Anomaly(Get(log, "timestamp"), v, message)) else None
    case None => None
  }

  /** An optional anomaly as a list of none or one. */
  function Listed(o: Option<Anomaly>): (r: seq<Anomaly>)
    ensures forall a :: multiset(r)[a] == if o == Some(a) then 1 else 0
  {
    match o case Some(a) => [a] case None => []
  }

  /** The anomalies in log order, before the sort. */
  function Candidates(logs: seq<Log>, thresholdMs: int): seq<Anomaly>
    decreases |logs|
  {
    if logs == [] then []
    else
      var n := |logs| - 1;
      Candidates(logs[..n], thresholdMs) + Listed(Candidate(logs[n], thresholdMs))
  }

  /** `detect_high_response_times(logs, threshold_ms)`. The in-place sort of
      the anomaly list is a stable sort on the response time, largest first. */
  method DetectHighResponseTimes(logs: seq<Log>, thresholdMs: int := DefaultThreshold) returns (anomalies: seq<Anomaly>)
    ensures anomalies == SortDesc(Candidates(logs, thresholdMs), ResponseTimeOf)
    ensures SortedDesc(anomalies, ResponseTimeOf)
    ensures multiset(anomalies) == multiset(Candidates(logs, thresholdMs))
    ensures forall a :: a in anomalies ==> a.responseTime > thresholdMs
  {
    anomalies := [];
    for i := 0 to |logs|
      invariant anomalies == Candidates(logs[..i], thresholdMs)
    {
      var message := Get(logs[i], "message");
      var timestamp := Get(logs[i], "timestamp");
      var found := Search(message);
      if found.Some? {
        var responseTime := found.value;
        if responseTime > thresholdMs {
          anomalies := anomalies + [Anomaly(timestamp, responseTime, message)];
        }
      }
      assert logs[..i + 1][..i] == logs[..i];
    }
    assert logs[..|logs|] == logs;
    CandidatesAbove(logs, thresholdMs);
    var unsorted := anomalies;
    anomalies := SortDesc(anomalies, ResponseTimeOf);
    SortDescSorted(unsorted, ResponseTimeOf);
    forall a | a in anomalies ensures a.responseTime > thresholdMs {
      assert a in multiset(unsorted);
    }
  }

  /** Every candidate is above the threshold. */
  lemma {:induction false} CandidatesAbove(logs: seq<Log>, thresholdMs: int)
    ensures forall a :: a in Candidates(logs, thresholdMs) ==> a.responseTime > thresholdMs
    decreases |logs|
  {
    if logs != [] {
      CandidatesAbove(logs[..|logs| - 1], thresholdMs);
    }
  }

  /** The positions of the logs that yield the anomaly `a`. */
  function Yielding(logs: seq<Log>, thresholdMs: int, a: Anomaly): set<nat> {
    Kept(logs, Yields(thresholdMs, a))
  }

  /** The log yields the anomaly `a`. */
  function Yields(thresholdMs: int, a: Anomaly): Log -> bool {
    (log: Log) => Candidate(log, thresholdMs) == Some(a)
  }

  /** Nothing extra, nothing lost: each anomaly occurs once per log that
      yields it. */
  lemma {:induction false} CandidatesCount(logs: seq<Log>, thresholdMs: int, a: Anomaly)
    ensures multiset(Candidates(logs, thresholdMs))[a] == |Yielding(logs, thresholdMs, a)|
    decreases |logs|
  {
    if logs != [] {
      var n := |logs| - 1;
      CandidatesCount(logs[..n], thresholdMs, a);
      var o := Candidate(logs[n], thresholdMs);
      assert multiset(Candidates(logs, thresholdMs))
             == multiset(Candidates(logs[..n], thresholdMs)) + multiset(Listed(o));
      KeptStep(logs, Yields(thresholdMs, a));
    }
  }

  /** Anomalies with equal response times stay in log order. */
  lemma DetectTies(logs: seq<Log>, thresholdMs: int, v: int)
    ensures WithKey(SortDesc(Candidates(logs, thresholdMs), ResponseTimeOf), ResponseTimeOf, v)
            == WithKey(Candidates(logs, thresholdMs), ResponseTimeOf, v)
  {
    SortDescStable(Candidates(logs, thresholdMs), ResponseTimeOf, v);
  }

  /** The pattern reads back any number written in the canonical form. */
  lemma CanonicalMessage(n: nat)
    ensures Search("API response time: " + Decimal(n) + "ms") == Some(n)
  {
    var digits := Decimal(n);
    var m := "API response time: " + digits + "ms";
    var j := |Label|;
    assert m[..j] == "API response time: ";
    assert LabelAt(m, 0);
    assert m[j..j + |digits|] == digits;
    assert m[j + |digits|] == 'm';
    DigitRunIs(m, j, |digits|);
    assert MatchAt(m, 0);
    DecimalRoundTrip(n);
    SearchFindsLeftmost(m, 0);
  }

  lemma {:induction false} DigitRunIs(m: string, j: nat, d: nat)
    requires j + d < |m|
    requires forall k :: j <= k < j + d ==> IsDigit(m[k])
    requires !IsDigit(m[j + d])
    ensures DigitRun(m, j) == d
    decreases d
  {
    if d > 0 {
      DigitRunIs(m, j + 1, d - 1);
    }
  }

  /** With the default threshold a 1500 ms response is reported; with a
      threshold of 2000 it is not. */
  lemma ThresholdExample(log: Log)
    requires Get(log, "message") == "API response time: 1500ms"
    ensures Candidate(log, DefaultThreshold) == Some(Anomaly(Get(log, "timestamp"), 1500, Get(log, "message")))
    ensures Candidate(log, 2000) == None
  {
    assert Decimal(1500) == "1500";
    assert "API response time: " + "1500" + "ms" == "API response time: 1500ms";
    CanonicalMessage(1500);
    assert Search(Get(log, "message")) == Some(1500);
  }
}
