/**
 * Python's stable sort with `reverse=True`, for keys that are integer
 * tuples compared lexicographically (a one-element tuple stands for a plain
 * integer key). The sort is written as an insertion sort; what matters is
 * its specification: the output is ordered by key, non-increasing, it is a
 * permutation of the input, and elements with equal keys keep their input
 * order.
 */
module Sorting {

  // ---------------------------------------------------------------------------
  // Tuple order
  // ---------------------------------------------------------------------------

  /** `a <= b` for Python tuples of integers. */
  predicate LexLe(a: seq<int>, b: seq<int>)
    decreases |a|
  {
    if a == [] then true
    else if b == [] then false
    else a[0] < b[0] || (a[0] == b[0] && LexLe(a[1..], b[1..]))
  }

  lemma {:induction false} LexLeReflexive(a: seq<int>)
    ensures LexLe(a, a)
  {
    if a != [] {
      LexLeReflexive(a[1..]);
    }
  }

  lemma {:induction false} LexLeTotal(a: seq<int>, b: seq<int>)
    ensures LexLe(a, b) || LexLe(b, a)
    decreases |a|
  {
    if a != [] && b != [] && a[0] == b[0] {
      LexLeTotal(a[1..], b[1..]);
    }
  }

  lemma {:induction false} LexLeTransitive(a: seq<int>, b: seq<int>, c: seq<int>)
    requires LexLe(a, b) && LexLe(b, c)
    ensures LexLe(a, c)
    decreases |a|
  {
    if a != [] && b != [] && c != [] && a[0] == b[0] == c[0] {
      LexLeTransitive(a[1..], b[1..], c[1..]);
    }
  }

  lemma LexLeSingleton(x: int, y: int)
    ensures LexLe([x], [y]) <==> x <= y
  {
    assert [x][1..] == [];
  }

  // ---------------------------------------------------------------------------
  // The sort
  // ---------------------------------------------------------------------------

  /** Inserts `x` before the first element whose key is not greater than its own. */
  function InsertDesc<T>(x: T, s: seq<T>, key: T -> seq<int>): (r: seq<T>)
    ensures multiset(r) == multiset(s) + multiset{x}
  {
    if s == [] then [x]
    else if LexLe(key(s[0]), key(x)) then [x] + s
    else
      assert s == [s[0]] + s[1..];
      [s[0]] + InsertDesc(x, s[1..], key)
  }

  /** `sorted(s, key=key, reverse=True)`. */
  function SortDesc<T>(s: seq<T>, key: T -> seq<int>): (r: seq<T>)
    ensures multiset(r) == multiset(s)
    ensures |r| == |s|
  {
    if s == [] then []
    else
      assert s == [s[0]] + s[1..];
      InsertDesc(s[0], SortDesc(s[1..], key), key)
  }

  /** Keys never increase from left to right. */
  ghost predicate SortedDesc<T>(s: seq<T>, key: T -> seq<int>)
  {
    forall i, j :: 0 <= i < j < |s| ==> LexLe(key(s[j]), key(s[i]))
  }

  /** The elements of `s` whose key is `k`, in their order in `s`. */
  function WithKey<T>(s: seq<T>, key: T -> seq<int>, k: seq<int>): seq<T>
  {
    if s == [] then []
    else (if key(s[0]) == k then [s[0]] else []) + WithKey(s[1..], key, k)
  }

  /** A sorted sequence stays sorted after a head that bounds every element. */
  lemma SortedCons<T>(h: T, t: seq<T>, key: T -> seq<int>)
    requires SortedDesc(t, key)
    requires forall y :: y in t ==> LexLe(key(y), key(h))
    ensures SortedDesc([h] + t, key)
  {
    var r := [h] + t;
    forall i, j | 0 <= i < j < |r|
      ensures LexLe(key(r[j]), key(r[i]))
    {
      assert r[j] == t[j - 1];
      if i > 0 {
        assert r[i] == t[i - 1];
      }
    }
  }

  lemma SortedTail<T>(s: seq<T>, key: T -> seq<int>)
    requires s != [] && SortedDesc(s, key)
    ensures SortedDesc(s[1..], key)
    ensures forall y :: y in s[1..] ==> LexLe(key(y), key(s[0]))
  {
    forall i, j | 0 <= i < j < |s[1..]|
      ensures LexLe(key(s[1..][j]), key(s[1..][i]))
    {
      assert s[1..][j] == s[j + 1] && s[1..][i] == s[i + 1];
    }
  }

  lemma {:induction false} InsertDescSorted<T>(x: T, s: seq<T>, key: T -> seq<int>)
    requires SortedDesc(s, key)
    ensures SortedDesc(InsertDesc(x, s, key), key)
  {
    if s == [] {
    } else if LexLe(key(s[0]), key(x)) {
      forall y | y in s
        ensures LexLe(key(y), key(x))
      {
        var j :| 0 <= j < |s| && s[j] == y;
        if j > 0 {
          LexLeTransitive(key(y), key(s[0]), key(x));
        }
      }
      SortedCons(x, s, key);
    } else {
      var t := InsertDesc(x, s[1..], key);
      SortedTail(s, key);
      InsertDescSorted(x, s[1..], key);
      LexLeTotal(key(s[0]), key(x));
      forall y | y in t
        ensures LexLe(key(y), key(s[0]))
      {
        assert y in multiset(t);
        if y != x {
          assert y in multiset(s[1..]);
        }
      }
      SortedCons(s[0], t, key);
    }
  }

  /** The sort orders its output by key, largest first. */
  lemma {:induction false} SortDescSorted<T>(s: seq<T>, key: T -> seq<int>)
    ensures SortedDesc(SortDesc(s, key), key)
  {
    if s != [] {
      SortDescSorted(s[1..], key);
      InsertDescSorted(s[0], SortDesc(s[1..], key), key);
    }
  }

  lemma {:induction false} WithKeyCons<T>(x: T, s: seq<T>, key: T -> seq<int>, k: seq<int>)
    ensures WithKey([x] + s, key, k) == (if key(x) == k then [x] else []) + WithKey(s, key, k)
  {
    assert ([x] + s)[0] == x && ([x] + s)[1..] == s;
  }

  lemma {:induction false} WithKeyInsertDesc<T>(x: T, s: seq<T>, key: T -> seq<int>, k: seq<int>)
    ensures WithKey(InsertDesc(x, s, key), key, k)
         == (if key(x) == k then [x] else []) + WithKey(s, key, k)
  {
    if s == [] {
      WithKeyCons(x, [], key, k);
    } else if LexLe(key(s[0]), key(x)) {
      WithKeyCons(x, s, key, k);
    } else {
      var t := InsertDesc(x, s[1..], key);
      assert InsertDesc(x, s, key) == [s[0]] + t;
      WithKeyCons(s[0], t, key, k);
      WithKeyInsertDesc(x, s[1..], key, k);
      assert s == [s[0]] + s[1..];
      WithKeyCons(s[0], s[1..], key, k);
      var rest := WithKey(s[1..], key, k);
      if key(x) == k {
        // s[0] has a key strictly greater than x's, so it does not carry key k.
        LexLeReflexive(key(x));
        assert WithKey(t, key, k) == [x] + rest;
        assert WithKey(s, key, k) == rest;
      } else {
        assert WithKey(t, key, k) == rest;
      }
    }
  }

  /** Stability: for every key, the elements carrying it keep their relative order. */
  lemma {:induction false} SortDescStable<T>(s: seq<T>, key: T -> seq<int>, k: seq<int>)
    ensures WithKey(SortDesc(s, key), key, k) == WithKey(s, key, k)
  {
    if s != [] {
      SortDescStable(s[1..], key, k);
      WithKeyInsertDesc(s[0], SortDesc(s[1..], key), key, k);
    }
  }

  /** When every key is the same, the sort leaves the sequence as it is. */
  lemma {:induction false} SortDescEqualKeys<T>(s: seq<T>, key: T -> seq<int>)
    requires forall i :: 0 <= i < |s| ==> key(s[i]) == key(s[0])
    ensures SortDesc(s, key) == s
  {
    if |s| > 1 {
      SortDescEqualKeys(s[1..], key);
      LexLeReflexive(key(s[0]));
      assert [s[0]] + s[1..] == s;
    }
  }

  /** The first element of `s` with key `k` is the first element of `WithKey(s, key, k)`. */
  lemma {:induction false} WithKeyHead<T>(s: seq<T>, key: T -> seq<int>, k: seq<int>, i: nat)
    requires i < |s| && key(s[i]) == k
    requires forall j :: 0 <= j < i ==> key(s[j]) != k
    ensures WithKey(s, key, k) != [] && WithKey(s, key, k)[0] == s[i]
  {
    if i > 0 {
      WithKeyHead(s[1..], key, k, i - 1);
    }
  }

  /** Some element with the largest key exists, and there is an earliest one. */
  lemma FirstMaximum<T>(s: seq<T>, key: T -> seq<int>, m: T) returns (i: nat)
    requires m in s
    requires forall j :: 0 <= j < |s| ==> LexLe(key(s[j]), key(m))
    ensures i < |s| && key(s[i]) == key(m)
    ensures forall j :: 0 <= j < i ==> key(s[j]) != key(m)
  {
    i := 0;
    while key(s[i]) != key(m)
      invariant i < |s|
      invariant forall j :: 0 <= j < i ==> key(s[j]) != key(m)
      decreases |s| - i
    {
      if i + 1 == |s| {
        var p :| 0 <= p < |s| && s[p] == m;
        assert false;
      }
      i := i + 1;
    }
  }

  /**
   * `sorted(s, key=key, reverse=True)[0]` is the earliest element of `s`
   * carrying the largest key.
   */
  lemma SortDescHead<T>(s: seq<T>, key: T -> seq<int>) returns (i: nat)
    requires s != []
    ensures i < |s| && SortDesc(s, key)[0] == s[i]
    ensures forall j :: 0 <= j < |s| ==> LexLe(key(s[j]), key(s[i]))
    ensures forall j :: 0 <= j < i ==> key(s[j]) != key(s[i])
  {
    var r := SortDesc(s, key);
    SortDescSorted(s, key);
    var h := r[0];
    assert h in multiset(s) by {
      assert h in multiset(r);
    }
    forall j | 0 <= j < |s|
      ensures LexLe(key(s[j]), key(h))
    {
      assert s[j] in multiset(r);
      var p :| 0 <= p < |r| && r[p] == s[j];
      if p == 0 {
        LexLeReflexive(key(h));
      }
    }
    i := FirstMaximum(s, key, h);
    WithKeyHead(s, key, key(h), i);
    LexLeReflexive(key(h));
    WithKeyHead(r, key, key(h), 0);
    SortDescStable(s, key, key(h));
  }
}
