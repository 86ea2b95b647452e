/**
 Ranking primitives used by the pairwise rank pseudo-labeller and by the
 evaluator: a descending argsort of one feature row, Python's `[:k]`
 prefix, an ascending sort of integer indices, and the arg-max of a row.

 Feature values are modelled as exact reals. The argsort breaks ties by
 putting the lower index first, and the arg-max picks the first maximal
 index; the tensor library leaves both tie-breaks unspecified.
 */
module Ranking {

  /** `a` is ranked ahead of `b` in a descending argsort of `feat`:
      the larger value first, the lower index on equal values. */
  predicate Ahead(feat: seq<real>, a: nat, b: nat)
    requires a < |feat| && b < |feat|
  {
    feat[a] > feat[b] || (feat[a] == feat[b] && a < b)
  }

  /** `r` lists indices of `feat` in strictly descending rank order. */
  predicate RankedDesc(feat: seq<real>, r: seq<nat>)
  {
    && (forall i :: 0 <= i < |r| ==> r[i] < |feat|)
    && (forall i, j :: 0 <= i < j < |r| ==> Ahead(feat, r[i], r[j]))
  }

  /** `r` is an ordering of exactly the indices 0 .. n-1. */
  predicate IsPermutationOfRange(r: seq<nat>, n: nat)
  {
    && |r| == n
    && (forall i :: 0 <= i < |r| ==> r[i] < n)
    && (forall j :: 0 <= j < n ==> j in r)
  }

  predicate Distinct<T(==)>(s: seq<T>)
  {
    forall i, j :: 0 <= i < j < |s| ==> s[i] != s[j]
  }

  /** Inserts index `x` into a descending ranking at its place. */
  function Insert(feat: seq<real>, x: nat, r: seq<nat>): (res: seq<nat>)
    requires x < |feat|
    requires RankedDesc(feat, r)
    requires x !in r
    ensures |res| == |r| + 1
    ensures forall y :: y in res <==> y == x || y in r
    ensures RankedDesc(feat, res)
  {
    if |r| == 0 then [x]
    else if Ahead(feat, x, r[0]) then [x] + r
    else
      var tail := Insert(feat, x, r[1..]);
      assert forall y :: y in tail ==> Ahead(feat, r[0], y) by {
        forall y | y in tail
          ensures Ahead(feat, r[0], y)
        {
          if y != x {
            var j :| 0 <= j < |r[1..]| && r[1..][j] == y;
            assert r[j + 1] == y;
          }
        }
      }
      [r[0]] + tail
  }

  /** Descending argsort of the first `n` entries of `feat`. */
  function ArgsortPrefix(feat: seq<real>, n: nat): (r: seq<nat>)
    requires n <= |feat|
    ensures RankedDesc(feat, r)
    ensures IsPermutationOfRange(r, n)
  {
    if n == 0 then []
    else
      var prev := ArgsortPrefix(feat, n - 1);
      assert n - 1 !in prev;
      var r := Insert(feat, n - 1, prev);
      assert forall i :: 0 <= i < |r| ==> r[i] < n by {
        forall i | 0 <= i < |r|
          ensures r[i] < n
        {
          assert r[i] in r;
        }
      }
      r
  }

  /** `torch.argsort(row, descending=True)`: every index of the row, the
      largest value first. */
  function ArgsortDesc(feat: seq<real>): (r: seq<nat>)
    ensures RankedDesc(feat, r)
    ensures IsPermutationOfRange(r, |feat|)
  {
    ArgsortPrefix(feat, |feat|)
  }

  /** Python's `s[:k]`: the first `k` items, all of them when `k` exceeds
      the length, and all but the last `-k` when `k` is negative. */
  function SliceTo<T>(s: seq<T>, k: int): (r: seq<T>)
    ensures |r| <= |s|
    ensures r == s[..|r|]
    ensures 0 <= k <= |s| ==> |r| == k
    ensures k > |s| ==> r == s
    ensures k < 0 ==> |r| == if |s| + k >= 0 then |s| + k else 0
  {
    if k >= |s| then s
    else if k >= 0 then s[..k]
    else if |s| + k >= 0 then s[..|s| + k]
    else []
  }

  /** The top-k indices of a row, in rank order: `argsort(...)[:k]`. */
  function TopK(feat: seq<real>, k: int): (r: seq<nat>)
    ensures |r| <= |ArgsortDesc(feat)| && r == ArgsortDesc(feat)[..|r|]
    ensures 0 <= k <= |feat| ==> |r| == k
    ensures k > |feat| ==> |r| == |feat|
    ensures k < 0 ==> |r| == if |feat| + k >= 0 then |feat| + k else 0
    ensures |r| <= |feat|
    ensures Distinct(r)
    ensures forall i :: 0 <= i < |r| ==> r[i] < |feat|
  {
    var ranked := ArgsortDesc(feat);
    var r := SliceTo(ranked, k);
    assert forall i :: 0 <= i < |r| ==> r[i] == ranked[i];
    r
  }

  /** Every index kept by `TopK` has a value at least as large as every
      index it leaves out: the prefix is chosen by value, not by magnitude. */
  lemma TopKDominates(feat: seq<real>, k: int, a: nat, b: nat)
    requires a in TopK(feat, k)
    requires b < |feat| && b !in TopK(feat, k)
    ensures feat[a] >= feat[b]
  {
    var ranked := ArgsortDesc(feat);
    var top := TopK(feat, k);
    assert top == ranked[..|top|];
    var i :| 0 <= i < |top| && top[i] == a;
    assert b in ranked;
    var j :| 0 <= j < |ranked| && ranked[j] == b;
    assert Ahead(feat, ranked[i], ranked[j]);
  }

  predicate SortedAsc(s: seq<int>)
  {
    forall i, j :: 0 <= i < j < |s| ==> s[i] <= s[j]
  }

  lemma SortedCons(h: int, t: seq<int>)
    requires SortedAsc(t)
    requires forall i :: 0 <= i < |t| ==> h <= t[i]
    ensures SortedAsc([h] + t)
  {
    var r := [h] + t;
    forall i, j | 0 <= i < j < |r|
      ensures r[i] <= r[j]
    {
      if i > 0 {
        assert r[i] == t[i - 1] && r[j] == t[j - 1];
      } else {
        assert r[j] == t[j - 1];
      }
    }
  }

  function InsertAsc(x: int, s: seq<int>): (r: seq<int>)
    requires SortedAsc(s)
    ensures SortedAsc(r)
    ensures multiset(r) == multiset(s) + multiset{x}
  {
    if |s| == 0 then [x]
    else if x <= s[0] then
      SortedCons(x, s);
      [x] + s
    else
      var rest := s[1..];
      assert s == [s[0]] + rest;
      assert SortedAsc(rest);
      var tail := InsertAsc(x, rest);
      LowerBoundKept(s[0], rest, x, tail);
      SortedCons(s[0], tail);
      [s[0]] + tail
  }

  /** A lower bound of `rest` and of `x` is a lower bound of any sequence
      holding the items of `rest` and `x`. */
  lemma LowerBoundKept(lo: int, rest: seq<int>, x: int, tail: seq<int>)
    requires forall i :: 0 <= i < |rest| ==> lo <= rest[i]
    requires lo <= x
    requires multiset(tail) == multiset(rest) + multiset{x}
    ensures forall i :: 0 <= i < |tail| ==> lo <= tail[i]
  {
    forall i | 0 <= i < |tail|
      ensures lo <= tail[i]
    {
      assert tail[i] in multiset(tail);
      if tail[i] != x {
        assert tail[i] in multiset(rest);
        assert tail[i] in rest;
      }
    }
  }

  /** `torch.sort` of a row of integer indices, ascending. */
  function SortAsc(s: seq<int>): (r: seq<int>)
    ensures SortedAsc(r)
    ensures multiset(r) == multiset(s)
    ensures |r| == |s|
  {
    if |s| == 0 then []
    else
      var init, x := s[..|s| - 1], s[|s| - 1];
      assert s == init + [x];
      assert multiset(s) == multiset(init) + multiset{x};
      var r := InsertAsc(x, SortAsc(init));
      assert |r| == |multiset(r)| == |multiset(s)| == |s|;
      r
  }

  /** The head of an ascending sequence is its least item. */
  lemma SortedHeadIsLeast(a: seq<int>, y: int)
    requires SortedAsc(a) && y in a
    ensures a[0] <= y
  {
    var i :| 0 <= i < |a| && a[i] == y;
  }

  /** Two ascending sequences holding the same items are equal: the
      ascending sort of a collection does not depend on its input order. */
  lemma {:induction false} SortedUnique(a: seq<int>, b: seq<int>)
    requires SortedAsc(a) && SortedAsc(b)
    requires multiset(a) == multiset(b)
    ensures a == b
  {
    if |a| == 0 {
      assert |multiset(b)| == 0;
    } else {
      assert |b| == |a| by {
        assert |b| == |multiset(b)| && |a| == |multiset(a)|;
      }
      assert a[0] in multiset(b) && b[0] in multiset(a);
      SortedHeadIsLeast(a, b[0]);
      SortedHeadIsLeast(b, a[0]);
      assert a[0] == b[0];
      var ta, tb := a[1..], b[1..];
      SameTailItems(a, b);
      SortedUnique(ta, tb);
      assert a == [a[0]] + ta && b == [b[0]] + tb;
    }
  }

  /** Dropping the same first item from two sequences with the same items
      leaves two sequences with the same items. */
  lemma SameTailItems(a: seq<int>, b: seq<int>)
    requires |a| > 0 && |b| > 0 && a[0] == b[0]
    requires multiset(a) == multiset(b)
    ensures multiset(a[1..]) == multiset(b[1..])
  {
    assert a == [a[0]] + a[1..] && b == [b[0]] + b[1..];
    assert multiset(a) == multiset{a[0]} + multiset(a[1..]);
    assert multiset(b) == multiset{b[0]} + multiset(b[1..]);
    assert multiset(a[1..]) == multiset(a) - multiset{a[0]};
    assert multiset(b[1..]) == multiset(b) - multiset{b[0]};
  }

  /** The ascending sort of two rows agrees exactly when the rows hold
      the same items, whatever their order. */
  lemma SortAscEqualIff(a: seq<int>, b: seq<int>)
    ensures SortAsc(a) == SortAsc(b) <==> multiset(a) == multiset(b)
  {
    if multiset(a) == multiset(b) {
      SortedUnique(SortAsc(a), SortAsc(b));
    }
  }

  /** In a sequence without repeats every item occurs exactly once. */
  lemma {:induction false} DistinctMultiplicity<T>(s: seq<T>, x: T)
    requires Distinct(s)
    ensures multiset(s)[x] == if x in s then 1 else 0
  {
    if |s| > 0 {
      assert s == [s[0]] + s[1..];
      assert Distinct(s[1..]);
      DistinctMultiplicity(s[1..], x);
      if x == s[0] {
        assert x !in s[1..];
      }
    }
  }

  /** For sequences without repeats, holding the same items as a multiset
      and as a set coincide. */
  lemma DistinctMultisetIff<T>(a: seq<T>, b: seq<T>)
    requires Distinct(a) && Distinct(b)
    ensures multiset(a) == multiset(b) <==> (forall x :: x in a <==> x in b)
  {
    if multiset(a) == multiset(b) {
      forall x
        ensures x in a <==> x in b
      {
        assert x in a <==> x in multiset(a);
        assert x in b <==> x in multiset(b);
      }
    }
    if forall x :: x in a <==> x in b {
      forall x
        ensures multiset(a)[x] == multiset(b)[x]
      {
        DistinctMultiplicity(a, x);
        DistinctMultiplicity(b, x);
      }
      assert multiset(a) == multiset(b);
    }
  }

  /** `max(1)[1]` of one row: the index of its largest value, the first
      such index on ties. */
  function ArgMax(row: seq<real>): (i: nat)
    requires |row| > 0
    ensures i < |row|
    ensures forall j :: 0 <= j < |row| ==> row[j] <= row[i]
    ensures forall j :: 0 <= j < i ==> row[j] < row[i]
  {
    if |row| == 1 then 0
    else
      var rest := ArgMax(row[1..]);
      assert forall j :: 1 <= j < |row| ==> row[j] == row[1..][j - 1];
      if row[0] >= row[1 + rest] then 0 else 1 + rest
  }
}
