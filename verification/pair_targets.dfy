/**
 The pairwise rank pseudo-labeller. Each unlabelled sample's feature row
 is reduced to a signature, the ascending list of the indices of its
 top-k largest values; every enumerated pair of samples gets target +1
 when the two signatures coincide (their summed absolute difference is 0)
 and -1 otherwise. The pair enumeration (`PairEnum`) is a parameter: it
 lists, for a subset of n rows, pairs of row indices below n, and the
 same enumeration pairs up the probability rows fed to the loss.
 */
module PairTargets {
  import Ranking
  import Labels

  /** One enumerated pair: the row taken from the first output of the
      enumeration and the row taken from the second. */
  datatype Pair = Pair(left: nat, right: nat)

  predicate PairsWithin(pairs: seq<Pair>, n: nat)
  {
    forall m :: 0 <= m < |pairs| ==> pairs[m].left < n && pairs[m].right < n
  }

  /** A pair enumeration: for every subset size n, pairs of indices below n. */
  ghost predicate ValidEnum(enumerate: nat -> seq<Pair>)
  {
    forall n: nat :: PairsWithin(enumerate(n), n)
  }

  /** All rows of a feature matrix have the same width. */
  predicate Rectangular(rows: seq<seq<real>>)
  {
    forall i, j :: 0 <= i < |rows| && 0 <= j < |rows| ==> |rows[i]| == |rows[j]|
  }

  /** Pairs (i, j) for every j below n, in order of j. */
  function PairsWithFirst(i: nat, n: nat): (ps: seq<Pair>)
    ensures |ps| == n
    ensures forall p :: p in ps <==> p.left == i && p.right < n
  {
    var ps := seq(n, j requires 0 <= j < n => Pair(i, j));
    assert forall p: Pair | p.left == i && p.right < n :: ps[p.right] == p;
    ps
  }

  /** All ordered pairs whose first index is below `rows` and whose second
      is below `n`, the first index varying slowest. */
  function PairsBelow(rows: nat, n: nat): (ps: seq<Pair>)
    ensures |ps| == rows * n
    ensures forall p :: p in ps <==> p.left < rows && p.right < n
  {
    if rows == 0 then []
    else PairsBelow(rows - 1, n) + PairsWithFirst(rows - 1, n)
  }

  /** One concrete enumeration: all n * n ordered pairs, self-pairs
      included. */
  function AllPairs(n: nat): (ps: seq<Pair>)
    ensures |ps| == n * n
    ensures PairsWithin(ps, n)
    ensures forall p :: p in ps <==> p.left < n && p.right < n
  {
    var ps := PairsBelow(n, n);
    assert forall m :: 0 <= m < |ps| ==> ps[m] in ps;
    ps
  }

  /** The exhaustive enumeration is a valid pair enumeration. */
  lemma AllPairsValid()
    ensures ValidEnum(AllPairs)
  {
  }

  /** The rank signature of one row: its top-k indices sorted ascending. */
  function Signature(row: seq<real>, k: int): (s: seq<int>)
    ensures |s| == |Ranking.TopK(row, k)|
    ensures Ranking.SortedAsc(s)
    ensures multiset(s) == multiset(Ranking.TopK(row, k))
  {
    Ranking.SortAsc(Ranking.TopK(row, k))
  }

  function Abs(x: int): (r: nat)
    ensures r == x || r == -x
  {
    if x < 0 then -x else x
  }

  /** `torch.sum(torch.abs(a - b))` over two integer rows of equal width. */
  function RankDiff(a: seq<int>, b: seq<int>): (d: int)
    requires |a| == |b|
    ensures d >= 0
    ensures d == 0 <==> a == b
  {
    if |a| == 0 then 0
    else
      assert a == [a[0]] + a[1..] && b == [b[0]] + b[1..];
      Abs(a[0] - b[0]) + RankDiff(a[1..], b[1..])
  }

  /** The two rows share the same set of top-k indices. */
  ghost predicate SameTopK(x: seq<real>, y: seq<real>, k: int)
  {
    forall i :: i in Ranking.TopK(x, k) <==> i in Ranking.TopK(y, k)
  }

  /** The target of one pair of rows: -1 when the summed absolute
      difference of their signatures is positive, +1 otherwise. It is +1
      exactly when the signatures agree element-wise, which is exactly
      when the two rows have the same set of top-k indices, whatever the
      rank order inside the top-k. */
  function PairTarget(x: seq<real>, y: seq<real>, k: int): (t: int)
    requires |x| == |y|
    ensures t == 1 || t == -1
    ensures t == 1 <==> Signature(x, k) == Signature(y, k)
    ensures t == 1 <==> SameTopK(x, y, k)
  {
    var sx, sy := Signature(x, k), Signature(y, k);
    Ranking.SortAscEqualIff(Ranking.TopK(x, k), Ranking.TopK(y, k));
    Ranking.DistinctMultisetIff(Ranking.TopK(x, k), Ranking.TopK(y, k));
    if RankDiff(sx, sy) > 0 then -1 else 1
  }

  /** Pair targets are symmetric, and a row paired with itself gets +1. */
  lemma PairTargetSymmetricReflexive(x: seq<real>, y: seq<real>, k: int)
    requires |x| == |y|
    ensures PairTarget(x, y, k) == PairTarget(y, x, k)
    ensures PairTarget(x, x, k) == 1
  {
  }

  /** Same-top-k is an equivalence on rows of one width, so the +1 pairs
      group the rows into clusters: two rows that each agree with a third
      agree with each other. */
  lemma PairTargetTransitive(x: seq<real>, y: seq<real>, z: seq<real>, k: int)
    requires |x| == |y| == |z|
    requires PairTarget(x, y, k) == 1 && PairTarget(y, z, k) == 1
    ensures PairTarget(x, z, k) == 1
  {
  }

  /** `target_ulb`: one target per enumerated pair of rows. */
  function Targets(rows: seq<seq<real>>, k: int, pairs: seq<Pair>): (ts: seq<int>)
    requires Rectangular(rows)
    requires PairsWithin(pairs, |rows|)
    ensures |ts| == |pairs|
    ensures forall m :: 0 <= m < |ts| ==> ts[m] == 1 || ts[m] == -1
    ensures forall m :: 0 <= m < |ts| ==>
      (ts[m] == 1 <==> SameTopK(rows[pairs[m].left], rows[pairs[m].right], k))
  {
    seq(|pairs|, m requires 0 <= m < |pairs| => PairTarget(rows[pairs[m].left], rows[pairs[m].right], k))
  }

  /** The loss inputs built from one unlabelled subset: the left and right
      probability rows of every enumerated pair and its target. */
  datatype BceInputs = BceInputs(prob1: seq<seq<real>>, prob2: seq<seq<real>>, target: seq<int>)

  /** `PairEnum(p)[0]` and `PairEnum(q)[1]` for probability rows `p` and
      `q` of one subset, under the given enumeration. */
  function PairRows(p: seq<seq<real>>, q: seq<seq<real>>, pairs: seq<Pair>): (r: (seq<seq<real>>, seq<seq<real>>))
    requires |p| == |q|
    requires PairsWithin(pairs, |p|)
    ensures |r.0| == |r.1| == |pairs|
    ensures forall m :: 0 <= m < |pairs| ==> r.0[m] == p[pairs[m].left] && r.1[m] == q[pairs[m].right]
  {
    (seq(|pairs|, m requires 0 <= m < |pairs| => p[pairs[m].left]),
     seq(|pairs|, m requires 0 <= m < |pairs| => q[pairs[m].right]))
  }

  lemma SelectKeepsRectangular(rows: seq<seq<real>>, m: seq<bool>)
    requires |rows| == |m|
    requires Rectangular(rows)
    ensures Rectangular(Labels.Select(rows, m))
  {
    var r := Labels.Select(rows, m);
    forall i, j | 0 <= i < |r| && 0 <= j < |r|
      ensures |r[i]| == |r[j]|
    {
      assert r[i] in rows && r[j] in rows;
    }
  }

  /** `rank_bce` up to the criterion call: restrict features and both
      probability views to the unlabelled side of the mask, build the
      pair targets from the features, and pair up the probability rows
      with the same enumeration. Every pair target lines up with the
      probability rows of the same pair. */
  function RankBceInputs(feat: seq<seq<real>>, labels: seq<int>, numLabeled: int,
                         prob2: seq<seq<real>>, prob2Bar: seq<seq<real>>,
                         k: int, enumerate: nat -> seq<Pair>): (b: BceInputs)
    requires |feat| == |labels| == |prob2| == |prob2Bar|
    requires Rectangular(feat)
    requires ValidEnum(enumerate)
    ensures var n := |Labels.UnlabeledRows(feat, labels, numLabeled)|;
      && |b.target| == |b.prob1| == |b.prob2| == |enumerate(n)|
      && forall m :: 0 <= m < |b.target| ==> b.target[m] == 1 || b.target[m] == -1
    ensures var u := Labels.UnlabeledRows(feat, labels, numLabeled);
      var p := Labels.UnlabeledRows(prob2, labels, numLabeled);
      var q := Labels.UnlabeledRows(prob2Bar, labels, numLabeled);
      var ps := enumerate(|u|);
      |p| == |q| == |u| &&
      forall m :: 0 <= m < |ps| ==>
        && (b.target[m] == 1 <==> SameTopK(u[ps[m].left], u[ps[m].right], k))
        && b.prob1[m] == p[ps[m].left]
        && b.prob2[m] == q[ps[m].right]
  {
    var mask := Labels.Negate(Labels.LabeledMask(labels, numLabeled));
    var u := Labels.Select(feat, mask);
    SelectKeepsRectangular(feat, mask);
    var ps := enumerate(|u|);
    assert PairsWithin(ps, |u|);
    var p := Labels.Select(prob2, mask);
    var q := Labels.Select(prob2Bar, mask);
    var pr := PairRows(p, q, ps);
    BceInputs(pr.0, pr.1, Targets(u, k, ps))
  }

  /** Traced back to the batch: entry m of every list built by
      `RankBceInputs` refers to the same two unlabelled samples of the
      batch, at positions `pos[left]` and `pos[right]` of the pair. */
  lemma RankBceInputsAtPositions(feat: seq<seq<real>>, labels: seq<int>, numLabeled: int,
                                 prob2: seq<seq<real>>, prob2Bar: seq<seq<real>>,
                                 k: int, enumerate: nat -> seq<Pair>)
    requires |feat| == |labels| == |prob2| == |prob2Bar|
    requires Rectangular(feat)
    requires ValidEnum(enumerate)
    ensures var b := RankBceInputs(feat, labels, numLabeled, prob2, prob2Bar, k, enumerate);
      var pos := Labels.UnlabeledPositions(labels, numLabeled);
      var ps := enumerate(|pos|);
      forall m :: 0 <= m < |ps| ==>
        && ps[m].left < |pos| && ps[m].right < |pos|
        && pos[ps[m].left] < |labels| && pos[ps[m].right] < |labels|
        && labels[pos[ps[m].left]] >= numLabeled && labels[pos[ps[m].right]] >= numLabeled
        && (b.target[m] == 1 <==> SameTopK(feat[pos[ps[m].left]], feat[pos[ps[m].right]], k))
        && b.prob1[m] == prob2[pos[ps[m].left]]
        && b.prob2[m] == prob2Bar[pos[ps[m].right]]
  {
    var b := RankBceInputs(feat, labels, numLabeled, prob2, prob2Bar, k, enumerate);
    var pos := Labels.UnlabeledPositions(labels, numLabeled);
    var u := Labels.UnlabeledRows(feat, labels, numLabeled);
    var p := Labels.UnlabeledRows(prob2, labels, numLabeled);
    var q := Labels.UnlabeledRows(prob2Bar, labels, numLabeled);
    var ps := enumerate(|pos|);
    assert PairsWithin(ps, |pos|);
    forall m | 0 <= m < |ps|
      ensures && ps[m].left < |pos| && ps[m].right < |pos|
              && pos[ps[m].left] < |labels| && pos[ps[m].right] < |labels|
              && labels[pos[ps[m].left]] >= numLabeled && labels[pos[ps[m].right]] >= numLabeled
              && (b.target[m] == 1 <==> SameTopK(feat[pos[ps[m].left]], feat[pos[ps[m].right]], k))
              && b.prob1[m] == prob2[pos[ps[m].left]]
              && b.prob2[m] == prob2Bar[pos[ps[m].right]]
    {
      var l, r := ps[m].left, ps[m].right;
      assert pos[l] in pos && pos[r] in pos;
      assert u[l] == feat[pos[l]] && u[r] == feat[pos[r]];
      assert p[l] == prob2[pos[l]] && q[r] == prob2Bar[pos[r]];
    }
  }

  /** A valid enumeration of an empty subset lists no pair. */
  lemma EmptySubsetNoPairs(enumerate: nat -> seq<Pair>)
    requires ValidEnum(enumerate)
    ensures enumerate(0) == []
  {
    var ps := enumerate(0);
    assert PairsWithin(ps, 0);
    assert |ps| > 0 ==> ps[0].left < 0;
  }

  /** With no unlabelled sample in the batch, a valid enumeration yields
      no pair, so the pairwise term has nothing to score. */
  lemma NoUnlabeledNoPairs(feat: seq<seq<real>>, labels: seq<int>, numLabeled: int,
                           prob2: seq<seq<real>>, prob2Bar: seq<seq<real>>, k: int,
                           enumerate: nat -> seq<Pair>)
    requires |feat| == |labels| == |prob2| == |prob2Bar|
    requires Rectangular(feat)
    requires ValidEnum(enumerate)
    requires forall i :: 0 <= i < |labels| ==> labels[i] < numLabeled
    ensures var b := RankBceInputs(feat, labels, numLabeled, prob2, prob2Bar, k, enumerate);
      b.target == [] && b.prob1 == [] && b.prob2 == []
  {
    Labels.AllLabeledLeavesNoRows(feat, labels, numLabeled);
    EmptySubsetNoPairs(enumerate);
  }
}
