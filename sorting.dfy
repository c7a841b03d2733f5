/** Python's stable descending sort by an integer key, as used by
    `Counter.most_common()` and by `list.sort(key=..., reverse=True)`:
    the result is ordered from the largest key down, and items with equal
    keys keep their original relative order. */
module Sorting {

  /** Ordered from the largest key down. */
  predicate SortedDesc<T>(r: seq<T>, key: T -> int) {
    forall i, j :: 0 <= i < j < |r| ==> key(r[i]) >= key(r[j])
  }

  /** The items of `s` whose key is `v`, in their order in `s`. */
  function WithKey<T>(s: seq<T>, key: T -> int, v: int): (r: seq<T>)
    ensures |r| <= |s|
    ensures forall i :: 0 <= i < |r| ==> key(r[i]) == v
  {
    if s == [] then []
    else (if key(s[0]) == v then [s[0]] else []) + WithKey(s[1..], key, v)
  }

  /** Puts `x` just before the first item whose key is not larger than its own. */
  function Insert<T>(x: T, s: seq<T>, key: T -> int): seq<T> {
    if s == [] || key(s[0]) <= key(x) then [x] + s
    else [s[0]] + Insert(x, s[1..], key)
  }

  /** The stable descending sort: each item is inserted, from the last to the
      first, ahead of the later items with the same key. */
  function SortDesc<T>(s: seq<T>, key: T -> int): seq<T>
    decreases |s|
  {
    if s == [] then [] else Insert(s[0], SortDesc(s[1..], key), key)
  }

  lemma {:induction false} InsertOrdered<T>(x: T, s: seq<T>, key: T -> int)
    requires SortedDesc(s, key)
    ensures SortedDesc(Insert(x, s, key), key)
    decreases |s|
  {
    if s != [] && key(s[0]) > key(x) {
      var t := Insert(x, s[1..], key);
      InsertOrdered(x, s[1..], key);
      InsertAtMost(x, s[1..], key, key(s[0]));
      PrependSorted(s[0], t, key);
    }
  }

  lemma {:induction false} InsertPerm<T>(x: T, s: seq<T>, key: T -> int)
    ensures multiset(Insert(x, s, key)) == multiset(s) + multiset{x}
    decreases |s|
  {
    if s != [] && key(s[0]) > key(x) {
      InsertPerm(x, s[1..], key);
      assert s == [s[0]] + s[1..];
    }
  }

  /** An item whose key is at least every key of a sorted sequence may go in front. */
  lemma PrependSorted<T>(y: T, t: seq<T>, key: T -> int)
    requires SortedDesc(t, key) && AtMost(t, key, key(y))
    ensures SortedDesc([y] + t, key)
  {
  }

  /** No key in `r` exceeds `b`. */
  predicate AtMost<T>(r: seq<T>, key: T -> int, b: int) {
    forall i :: 0 <= i < |r| ==> key(r[i]) <= b
  }

  lemma {:induction false} InsertAtMost<T>(x: T, s: seq<T>, key: T -> int, b: int)
    requires AtMost(s, key, b) && key(x) <= b
    ensures AtMost(Insert(x, s, key), key, b)
    decreases |s|
  {
    if s != [] && key(s[0]) > key(x) {
      InsertAtMost(x, s[1..], key, b);
    }
  }

  lemma {:induction false} InsertWithKey<T>(x: T, s: seq<T>, key: T -> int, v: int)
    ensures key(x) == v ==> WithKey(Insert(x, s, key), key, v) == [x] + WithKey(s, key, v)
    ensures key(x) != v ==> WithKey(Insert(x, s, key), key, v) == WithKey(s, key, v)
  {
    if s == [] || key(s[0]) <= key(x) {
      assert ([x] + s)[1..] == s;
    } else {
      InsertWithKey(x, s[1..], key, v);
      var t := Insert(x, s[1..], key);
      assert ([s[0]] + t)[1..] == t;
      if key(x) == v {
        assert key(s[0]) != v;
      }
    }
  }

  /** The sort orders by key and rearranges without adding or losing anything. */
  lemma SortDescSorted<T>(s: seq<T>, key: T -> int)
    ensures SortedDesc(SortDesc(s, key), key)
    ensures multiset(SortDesc(s, key)) == multiset(s)
    ensures |SortDesc(s, key)| == |s|
  {
    SortDescOrdered(s, key);
    SortDescPerm(s, key);
    assert |SortDesc(s, key)| == |multiset(SortDesc(s, key))|;
  }

  lemma {:induction false} SortDescOrdered<T>(s: seq<T>, key: T -> int)
    ensures SortedDesc(SortDesc(s, key), key)
    decreases |s|
  {
    if s != [] {
      SortDescOrdered(s[1..], key);
      InsertOrdered(s[0], SortDesc(s[1..], key), key);
    }
  }

  lemma {:induction false} SortDescPerm<T>(s: seq<T>, key: T -> int)
    ensures multiset(SortDesc(s, key)) == multiset(s)
    decreases |s|
  {
    if s != [] {
      var t := SortDesc(s[1..], key);
      SortDescPerm(s[1..], key);
      InsertPerm(s[0], t, key);
      assert SortDesc(s, key) == Insert(s[0], t, key);
      assert s == [s[0]] + s[1..];
      assert multiset(s) == multiset{s[0]} + multiset(s[1..]);
    }
  }

  /** Stability: the items of each key come out in their original order. */
  lemma {:induction false} SortDescStable<T>(s: seq<T>, key: T -> int, v: int)
    ensures WithKey(SortDesc(s, key), key, v) == WithKey(s, key, v)
    decreases |s|
  {
    if s != [] {
      SortDescStable(s[1..], key, v);
      InsertWithKey(s[0], SortDesc(s[1..], key), key, v);
    }
  }
}
