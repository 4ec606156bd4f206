/** Ordering sequences by a real-valued key.

    The k-nearest-neighbour code leans on two library sorts: Python's stable
    `sorted(..., key=...)` (kNearest.py:15) and numpy's `argsort` (kNearest.py:97).
    Both are modelled here by one insertion sort, `SortBy`, which is stable.
    `SortedBy` and `WithKey` give its independent specification: the result is
    ordered by key, and for every key value it keeps the elements carrying that
    key in their original order. `SortByCharacterized` shows that these two
    facts determine the result completely. `Take` is the slice `s[0:k]`. */
module Sorting {

  /** Keys never decrease from left to right. */
  predicate SortedBy<T>(s: seq<T>, key: T -> real) {
    forall i, j :: 0 <= i < j < |s| ==> key(s[i]) <= key(s[j])
  }

  /** The elements of `s` whose key is `d`, in the order they have in `s`. */
  function WithKey<T>(s: seq<T>, key: T -> real, d: real): (r: seq<T>)
    ensures |r| <= |s|
  {
    if s == [] then []
    else (if key(s[0]) == d then [s[0]] else []) + WithKey(s[1..], key, d)
  }

  /** `WithKey` selects exactly the elements with key `d`. */
  lemma {:induction false} WithKeyMembers<T>(s: seq<T>, key: T -> real, d: real)
    ensures forall x :: x in WithKey(s, key, d) ==> x in s && key(x) == d
    ensures forall i :: 0 <= i < |s| && key(s[i]) == d ==> s[i] in WithKey(s, key, d)
  {
    if s != [] {
      WithKeyMembers(s[1..], key, d);
      assert s == [s[0]] + s[1..];
      forall i | 0 <= i < |s| && key(s[i]) == d ensures s[i] in WithKey(s, key, d) {
        if i > 0 {
          assert s[i] == s[1..][i - 1];
        }
      }
    }
  }

  /** Python's slice `s[0:k]` for a positive `k`: never longer than `s`. */
  function Take<T>(s: seq<T>, k: int): (r: seq<T>)
    requires k >= 1
    ensures r <= s
    ensures |r| == if k < |s| then k else |s|
  {
    if k < |s| then s[..k] else s
  }

  /** Puts `x` in front of the first element whose key is not smaller. */
  function Insert<T>(x: T, s: seq<T>, key: T -> real): (r: seq<T>)
    ensures |r| == |s| + 1
    ensures multiset(r) == multiset(s) + multiset{x}
  {
    if s == [] || key(x) <= key(s[0]) then [x] + s
    else
      assert s == [s[0]] + s[1..];
      [s[0]] + Insert(x, s[1..], key)
  }

  /** Insertion sort by `key`; elements with equal keys keep their order. */
  function SortBy<T>(s: seq<T>, key: T -> real): (r: seq<T>)
    ensures |r| == |s|
    ensures multiset(r) == multiset(s)
  {
    if s == [] then []
    else
      assert s == [s[0]] + s[1..];
      Insert(s[0], SortBy(s[1..], key), key)
  }

  lemma {:induction false} WithKeyAppend<T>(a: seq<T>, b: seq<T>, key: T -> real, d: real)
    ensures WithKey(a + b, key, d) == WithKey(a, key, d) + WithKey(b, key, d)
  {
    if a == [] {
      assert a + b == b;
    } else {
      var p := if key(a[0]) == d then [a[0]] else [];
      assert (a + b)[0] == a[0];
      assert (a + b)[1..] == a[1..] + b;
      WithKeyAppend(a[1..], b, key, d);
      assert WithKey(a + b, key, d) == p + WithKey(a[1..] + b, key, d);
      assert p + (WithKey(a[1..], key, d) + WithKey(b, key, d))
          == (p + WithKey(a[1..], key, d)) + WithKey(b, key, d);
    }
  }

  /** No element has key `d`: nothing is selected. */
  lemma {:induction false} WithKeyNone<T>(s: seq<T>, key: T -> real, d: real)
    requires forall i :: 0 <= i < |s| ==> key(s[i]) != d
    ensures WithKey(s, key, d) == []
  {
    if s != [] {
      WithKeyNone(s[1..], key, d);
    }
  }

  /** Every element has key `d`: everything is selected. */
  lemma {:induction false} WithKeyAll<T>(s: seq<T>, key: T -> real, d: real)
    requires forall i :: 0 <= i < |s| ==> key(s[i]) == d
    ensures WithKey(s, key, d) == s
  {
    if s != [] {
      WithKeyAll(s[1..], key, d);
      assert s == [s[0]] + s[1..];
    }
  }

  /** A lower bound on the keys of `x` and of `s` bounds those of the insert. */
  lemma {:induction false} InsertKeysAbove<T>(x: T, s: seq<T>, key: T -> real, b: real)
    requires b <= key(x)
    requires forall i :: 0 <= i < |s| ==> b <= key(s[i])
    ensures forall j :: 0 <= j < |Insert(x, s, key)| ==> b <= key(Insert(x, s, key)[j])
  {
    if s != [] && key(x) > key(s[0]) {
      var t := s[1..];
      assert forall i :: 0 <= i < |t| ==> t[i] == s[i + 1];
      InsertKeysAbove(x, t, key, b);
      var r := [s[0]] + Insert(x, t, key);
      assert Insert(x, s, key) == r;
      forall j | 0 <= j < |r| ensures b <= key(r[j]) {
        if j > 0 {
          assert r[j] == Insert(x, t, key)[j - 1];
        }
      }
    }
  }

  /** A sorted sequence stays sorted behind a head no larger than its keys. */
  lemma SortedCons<T>(h: T, s: seq<T>, key: T -> real)
    requires SortedBy(s, key)
    requires forall j :: 0 <= j < |s| ==> key(h) <= key(s[j])
    ensures SortedBy([h] + s, key)
  {
    var r := [h] + s;
    forall i, j | 0 <= i < j < |r| ensures key(r[i]) <= key(r[j]) {
      assert r[j] == s[j - 1];
      if i > 0 {
        assert r[i] == s[i - 1];
      }
    }
  }

  lemma {:induction false} InsertSorted<T>(x: T, s: seq<T>, key: T -> real)
    requires SortedBy(s, key)
    ensures SortedBy(Insert(x, s, key), key)
  {
    if s == [] || key(x) <= key(s[0]) {
      forall j | 0 <= j < |s| ensures key(x) <= key(s[j]) {
        if j > 0 {
          assert key(s[0]) <= key(s[j]);
        }
      }
      SortedCons(x, s, key);
    } else {
      var t := s[1..];
      assert SortedBy(t, key) by {
        forall i, j | 0 <= i < j < |t| ensures key(t[i]) <= key(t[j]) {
          assert t[i] == s[i + 1] && t[j] == s[j + 1];
        }
      }
      assert forall i :: 0 <= i < |t| ==> key(s[0]) <= key(t[i]) by {
        forall i | 0 <= i < |t| ensures key(s[0]) <= key(t[i]) {
          assert t[i] == s[i + 1];
        }
      }
      InsertSorted(x, t, key);
      InsertKeysAbove(x, t, key, key(s[0]));
      SortedCons(s[0], Insert(x, t, key), key);
      assert Insert(x, s, key) == [s[0]] + Insert(x, t, key);
    }
  }

  lemma {:induction false} SortBySorted<T>(s: seq<T>, key: T -> real)
    ensures SortedBy(SortBy(s, key), key)
  {
    if s != [] {
      SortBySorted(s[1..], key);
      InsertSorted(s[0], SortBy(s[1..], key), key);
    }
  }

  /** Unfolding `WithKey` once at the front. */
  lemma WithKeyCons<T>(x: T, s: seq<T>, key: T -> real, d: real)
    ensures WithKey([x] + s, key, d) == (if key(x) == d then [x] else []) + WithKey(s, key, d)
  {
    assert ([x] + s)[0] == x && ([x] + s)[1..] == s;
  }

  lemma {:induction false} InsertWithKey<T>(x: T, s: seq<T>, key: T -> real, d: real)
    ensures WithKey(Insert(x, s, key), key, d) == (if key(x) == d then [x] else []) + WithKey(s, key, d)
  {
    if s == [] || key(x) <= key(s[0]) {
      WithKeyCons(x, s, key, d);
    } else {
      var t := s[1..];
      var i := Insert(x, t, key);
      var px := if key(x) == d then [x] else [];
      var p0 := if key(s[0]) == d then [s[0]] else [];
      var w := WithKey(t, key, d);
      assert Insert(x, s, key) == [s[0]] + i;
      InsertWithKey(x, t, key, d);
      assert WithKey(i, key, d) == px + w;
      WithKeyCons(s[0], i, key, d);
      assert WithKey([s[0]] + i, key, d) == p0 + (px + w);
      assert [s[0]] + t == s;
      WithKeyCons(s[0], t, key, d);
      assert WithKey(s, key, d) == p0 + w;
      SwapSingletons(p0, px, w);
    }
  }

  /** Two pieces of which at least one is empty commute in front of `w`. */
  lemma SwapSingletons<T>(p: seq<T>, q: seq<T>, w: seq<T>)
    requires p == [] || q == []
    ensures p + (q + w) == q + (p + w)
  {
    if p == [] {
      assert p + (q + w) == q + w;
      assert p + w == w;
    } else {
      assert q + w == w;
      assert q + (p + w) == p + w;
    }
  }

  /** Stability: sorting keeps, for every key value, the original order. */
  lemma {:induction false} SortByStable<T>(s: seq<T>, key: T -> real, d: real)
    ensures WithKey(SortBy(s, key), key, d) == WithKey(s, key, d)
  {
    if s != [] {
      SortByStable(s[1..], key, d);
      InsertWithKey(s[0], SortBy(s[1..], key), key, d);
    }
  }

  lemma EmptyTogether<T>(r: seq<T>, t: seq<T>, key: T -> real)
    requires forall d :: WithKey(r, key, d) == WithKey(t, key, d)
    ensures r == [] <==> t == []
  {
    if r != [] {
      assert r[0] in WithKey(r, key, key(r[0]));
    }
    if t != [] {
      assert t[0] in WithKey(t, key, key(t[0]));
    }
  }

  /** In a sorted sequence nothing lies before its first element. */
  lemma FirstIsLeast<T>(s: seq<T>, key: T -> real, x: T)
    requires SortedBy(s, key) && x in s
    ensures key(s[0]) <= key(x)
  {
    var j :| 0 <= j < |s| && s[j] == x;
    if j > 0 {
      assert key(s[0]) <= key(s[j]);
    }
  }

  /** Two sorted sequences that agree on every key's elements are equal. */
  lemma {:induction false} SortedStableUnique<T>(r: seq<T>, t: seq<T>, key: T -> real)
    requires SortedBy(r, key) && SortedBy(t, key)
    requires KeepsKeyOrder(r, t, key)
    ensures r == t
    decreases |r|
  {
    EmptyTogether(r, t, key);
    if r != [] && t != [] {
      var a, b := key(r[0]), key(t[0]);
      assert r[0] in WithKey(r, key, a);
      assert t[0] in WithKey(t, key, b);
      assert r[0] in WithKey(t, key, a);
      assert t[0] in WithKey(r, key, b);
      WithKeyMembers(t, key, a);
      WithKeyMembers(r, key, b);
      FirstIsLeast(t, key, r[0]);
      FirstIsLeast(r, key, t[0]);
      assert a == b;
      assert WithKey(r, key, a)[0] == r[0];
      assert WithKey(t, key, a)[0] == t[0];
      forall d ensures WithKey(r[1..], key, d) == WithKey(t[1..], key, d) {
        var hr := WithKey(r, key, d);
        var ht := WithKey(t, key, d);
        var p := if key(r[0]) == d then [r[0]] else [];
        assert hr == p + WithKey(r[1..], key, d);
        assert ht == p + WithKey(t[1..], key, d);
        assert hr[|p|..] == WithKey(r[1..], key, d);
        assert ht[|p|..] == WithKey(t[1..], key, d);
      }
      SortedStableUnique(r[1..], t[1..], key);
      assert r == [r[0]] + r[1..];
      assert t == [t[0]] + t[1..];
    }
  }

  /** `r` keeps, for every key value, the elements of `s` with that key in
      the order they have in `s`. */
  ghost predicate KeepsKeyOrder<T>(r: seq<T>, s: seq<T>, key: T -> real) {
    forall d :: WithKey(r, key, d) == WithKey(s, key, d)
  }

  /** `SortBy` is the one and only stable sort: `r` is `SortBy(s, key)`
      exactly when `r` is sorted and keeps, per key, the order of `s`. */
  lemma SortByCharacterized<T>(s: seq<T>, r: seq<T>, key: T -> real)
    ensures r == SortBy(s, key) <==> SortedBy(r, key) && KeepsKeyOrder(r, s, key)
  {
    var sorted := SortBy(s, key);
    SortBySorted(s, key);
    forall d ensures WithKey(sorted, key, d) == WithKey(s, key, d) {
      SortByStable(s, key, d);
    }
    assert KeepsKeyOrder(sorted, s, key);
    if SortedBy(r, key) && KeepsKeyOrder(r, s, key) {
      forall d ensures WithKey(r, key, d) == WithKey(sorted, key, d) {
        assert WithKey(r, key, d) == WithKey(s, key, d);
      }
      SortedStableUnique(r, sorted, key);
    }
  }

  /** Cutting a sequence in two splits its multiset. */
  lemma SplitMultiset<T>(s: seq<T>, n: int)
    requires 0 <= n <= |s|
    ensures multiset(s) == multiset(s[..n]) + multiset(s[n..])
  {
    assert s == s[..n] + s[n..];
  }

  /** The first `k` of a sort: sorted, as long as `min(k, |s|)`, and a
      sub-multiset of the input. */
  lemma TakeSorted<T>(s: seq<T>, k: int, key: T -> real)
    requires k >= 1
    ensures |Take(SortBy(s, key), k)| == if k < |s| then k else |s|
    ensures SortedBy(Take(SortBy(s, key), k), key)
    ensures multiset(Take(SortBy(s, key), k)) <= multiset(s)
  {
    var sorted := SortBy(s, key);
    var r := Take(sorted, k);
    var n := |r|;
    assert r == sorted[..n];
    SplitMultiset(sorted, n);
    assert SortedBy(r, key) by {
      SortBySorted(s, key);
      forall i, j | 0 <= i < j < n ensures key(r[i]) <= key(r[j]) {
        assert r[i] == sorted[i] && r[j] == sorted[j];
      }
    }
  }

  /** What the cut leaves out is never closer than anything it keeps. */
  lemma TakeLeftOut<T>(s: seq<T>, k: int, key: T -> real, e: T)
    requires k >= 1
    requires e in multiset(s) - multiset(Take(SortBy(s, key), k))
    ensures forall x :: x in Take(SortBy(s, key), k) ==> key(x) <= key(e)
  {
    var sorted := SortBy(s, key);
    var r := Take(sorted, k);
    var n := |r|;
    assert r == sorted[..n];
    SplitMultiset(sorted, n);
    assert e in multiset(sorted[n..]);
    var j :| 0 <= j < |sorted[n..]| && sorted[n..][j] == e;
    assert sorted[n + j] == e;
    SortBySorted(s, key);
    forall x | x in r ensures key(x) <= key(e) {
      var i :| 0 <= i < n && r[i] == x;
      assert sorted[i] == x;
    }
  }

  /** Among equal keys the cut keeps the earliest ones, in input order. */
  lemma TakeStable<T>(s: seq<T>, k: int, key: T -> real, d: real)
    requires k >= 1
    ensures WithKey(Take(SortBy(s, key), k), key, d) <= WithKey(s, key, d)
  {
    var sorted := SortBy(s, key);
    var r := Take(sorted, k);
    assert sorted == r + sorted[|r|..];
    WithKeyAppend(r, sorted[|r|..], key, d);
    SortByStable(s, key, d);
  }

  /** In a sorted sequence whose keys are all at least `d0`, the elements
      with key `d0` form a prefix. */
  lemma {:induction false} LeastKeysInFront<T>(s: seq<T>, key: T -> real, d0: real)
    requires SortedBy(s, key)
    requires forall i :: 0 <= i < |s| ==> d0 <= key(s[i])
    ensures |WithKey(s, key, d0)| <= |s|
    ensures WithKey(s, key, d0) == s[..|WithKey(s, key, d0)|]
  {
    if s != [] {
      assert SortedBy(s[1..], key) by {
        forall i, j | 0 <= i < j < |s[1..]| ensures key(s[1..][i]) <= key(s[1..][j]) {
          assert s[1..][i] == s[i + 1] && s[1..][j] == s[j + 1];
        }
      }
      if key(s[0]) == d0 {
        LeastKeysInFront(s[1..], key, d0);
        var m := |WithKey(s[1..], key, d0)|;
        assert WithKey(s, key, d0) == [s[0]] + s[1..][..m];
        assert [s[0]] + s[1..][..m] == s[..m + 1];
      } else {
        forall i | 0 <= i < |s| ensures key(s[i]) != d0 {
          if i > 0 {
            assert key(s[0]) <= key(s[i]);
          }
        }
        WithKeyNone(s, key, d0);
      }
    }
  }

  /** Sorting only rearranges: a lower bound on every key still holds. */
  lemma SortByKeysAbove<T>(s: seq<T>, key: T -> real, d0: real)
    requires forall i :: 0 <= i < |s| ==> d0 <= key(s[i])
    ensures forall i :: 0 <= i < |SortBy(s, key)| ==> d0 <= key(SortBy(s, key)[i])
  {
    var sorted := SortBy(s, key);
    forall i | 0 <= i < |sorted| ensures d0 <= key(sorted[i]) {
      assert sorted[i] in multiset(s);
      var j :| 0 <= j < |s| && s[j] == sorted[i];
    }
  }

  /** In a sorted sequence with no key below `d0`, the first `k` elements
      are the first `k` with key `d0`, when there are that many. */
  lemma TakeOfLeast<T>(s: seq<T>, k: int, key: T -> real, d0: real)
    requires k >= 1
    requires SortedBy(s, key)
    requires forall i :: 0 <= i < |s| ==> d0 <= key(s[i])
    requires k <= |WithKey(s, key, d0)|
    ensures Take(s, k) == WithKey(s, key, d0)[..k]
  {
    LeastKeysInFront(s, key, d0);
    var least := WithKey(s, key, d0);
    assert s[..|least|][..k] == s[..k];
  }

  /** When no key is below `d0` and at least `k` elements have key `d0`, the
      first `k` of the sort are the first `k` of those, in input order. */
  lemma TakeLeastKeys<T>(s: seq<T>, k: int, key: T -> real, d0: real)
    requires k >= 1
    requires forall i :: 0 <= i < |s| ==> d0 <= key(s[i])
    requires k <= |WithKey(s, key, d0)|
    ensures Take(SortBy(s, key), k) == WithKey(s, key, d0)[..k]
  {
    var sorted := SortBy(s, key);
    SortByStable(s, key, d0);
    assert Take(sorted, k) == WithKey(sorted, key, d0)[..k] by {
      SortBySorted(s, key);
      SortByKeysAbove(s, key, d0);
      TakeOfLeast(sorted, k, key, d0);
    }
  }
}
