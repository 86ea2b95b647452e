/**
 The labelled/unlabelled mask of a batch and the label rewrites built on
 it: selecting the rows on one side of the mask (`x[mask]`, `x[~mask]`),
 writing values back into the masked positions (`label[~mask] = v`),
 the incremental-mode pseudo-label injection, and the offset that turns
 k-means cluster indices into class labels.
 */
module Labels {
  import Ranking

  /** A sample is on the labelled side when its label is below the number
      of labelled classes. */
  predicate IsLabeled(cls: int, numLabeled: int)
  {
    cls < numLabeled
  }

  /** `label < num_labeled_classes`, element-wise. */
  function LabeledMask(labels: seq<int>, numLabeled: int): (m: seq<bool>)
    ensures |m| == |labels|
    ensures forall i :: 0 <= i < |m| ==> (m[i] <==> labels[i] < numLabeled)
  {
    seq(|labels|, i requires 0 <= i < |labels| => IsLabeled(labels[i], numLabeled))
  }

  /** `~mask`. */
  function Negate(m: seq<bool>): (n: seq<bool>)
    ensures |n| == |m|
    ensures forall i :: 0 <= i < |n| ==> n[i] == !m[i]
  {
    seq(|m|, i requires 0 <= i < |m| => !m[i])
  }

  /** Number of positions a mask selects. */
  function CountTrue(m: seq<bool>): (c: nat)
    ensures c <= |m|
  {
    if |m| == 0 then 0 else (if m[0] then 1 else 0) + CountTrue(m[1..])
  }

  /** Every position moved one step to the right. */
  function Shift(ps: seq<nat>): (r: seq<nat>)
    ensures |r| == |ps|
    ensures forall i :: 0 <= i < |r| ==> r[i] == ps[i] + 1
  {
    seq(|ps|, i requires 0 <= i < |ps| => ps[i] + 1)
  }

  /** Positions increase strictly from left to right. */
  predicate StrictlyIncreasing(ps: seq<nat>)
  {
    forall i, j :: 0 <= i < j < |ps| ==> ps[i] < ps[j]
  }

  /** The positions a mask selects, in increasing order. */
  function SelectedPositions(m: seq<bool>): (ps: seq<nat>)
    ensures |ps| == CountTrue(m)
    ensures StrictlyIncreasing(ps)
    ensures forall i :: 0 <= i < |ps| ==> ps[i] < |m| && m[ps[i]]
  {
    if |m| == 0 then []
    else
      var rest := SelectedPositions(m[1..]);
      InMaskStep(m, rest);
      (if m[0] then [0] else []) + Shift(rest)
  }

  lemma InMaskStep(m: seq<bool>, rest: seq<nat>)
    requires |m| > 0
    requires StrictlyIncreasing(rest)
    requires forall i :: 0 <= i < |rest| ==> rest[i] < |m| - 1 && m[1..][rest[i]]
    ensures var r := (if m[0] then [0] else []) + Shift(rest);
      && StrictlyIncreasing(r)
      && forall i :: 0 <= i < |r| ==> r[i] < |m| && m[r[i]]
  {
    var r := (if m[0] then [0] else []) + Shift(rest);
    var d := if m[0] then 1 else 0;
    PrefixShift(m[0], rest);
    forall i | 0 <= i < |r|
      ensures r[i] < |m| && m[r[i]]
    {
      if i >= d {
        assert r[i] == rest[i - d] + 1;
        assert m[1..][rest[i - d]];
      }
    }
  }

  /** Every position the mask sets is among the selected positions. */
  lemma {:induction false} SelectedPositionsCover(m: seq<bool>)
    ensures forall p: nat :: p < |m| && m[p] ==> p in SelectedPositions(m)
  {
    if |m| > 0 {
      SelectedPositionsCover(m[1..]);
      CoverStep(m, SelectedPositions(m[1..]));
    }
  }

  lemma CoverStep(m: seq<bool>, rest: seq<nat>)
    requires |m| > 0
    requires forall p: nat :: p < |m| - 1 && m[1..][p] ==> p in rest
    ensures forall p: nat :: p < |m| && m[p] ==> p in (if m[0] then [0] else []) + Shift(rest)
  {
    var sh := Shift(rest);
    var r := (if m[0] then [0] else []) + sh;
    var d := if m[0] then 1 else 0;
    forall p: nat | p < |m| && m[p]
      ensures p in r
    {
      if p > 0 {
        assert m[1..][p - 1];
        assert p - 1 in rest;
        var i :| 0 <= i < |rest| && rest[i] == p - 1;
        assert sh[i] == p;
        assert r[i + d] == sh[i];
      }
    }
  }

  lemma PrefixShift(b: bool, rest: seq<nat>)
    requires StrictlyIncreasing(rest)
    ensures var d := if b then 1 else 0;
      var r := (if b then [0] else []) + Shift(rest);
      && |r| == |rest| + d
      && (forall i :: d <= i < |r| ==> r[i] == rest[i - d] + 1)
      && StrictlyIncreasing(r)
  {
  }

  /** `xs[m]`: the items at the positions the mask selects, in order. */
  function Select<T>(xs: seq<T>, m: seq<bool>): (r: seq<T>)
    requires |xs| == |m|
    ensures |r| == CountTrue(m)
    ensures forall i :: 0 <= i < |r| ==> r[i] == xs[SelectedPositions(m)[i]]
    ensures forall y :: y in r ==> y in xs
  {
    if |xs| == 0 then []
    else
      var rest := Select(xs[1..], m[1..]);
      var tail := SelectedPositions(m[1..]);
      assert SelectedPositions(m) == (if m[0] then [0] else []) + Shift(tail);
      SelectStep(xs, m[0], rest, tail);
      (if m[0] then [xs[0]] else []) + rest
  }

  /** One step of `Select`'s recursion, in terms of the positions the tail
      of the mask selects. */
  lemma SelectStep<T>(xs: seq<T>, head: bool, rest: seq<T>, tail: seq<nat>)
    requires |xs| > 0 && |rest| == |tail|
    requires forall k :: 0 <= k < |tail| ==> tail[k] < |xs| - 1 && rest[k] == xs[1..][tail[k]]
    ensures var r := (if head then [xs[0]] else []) + rest;
      var ps := (if head then [0] else []) + Shift(tail);
      && |r| == |ps|
      && (forall i :: 0 <= i < |r| ==> ps[i] < |xs| && r[i] == xs[ps[i]])
      && (forall y :: y in r ==> y in xs)
  {
    var r := (if head then [xs[0]] else []) + rest;
    var ps := (if head then [0] else []) + Shift(tail);
    var d := if head then 1 else 0;
    forall i | 0 <= i < |r|
      ensures ps[i] < |xs| && r[i] == xs[ps[i]]
    {
      if i >= d {
        assert r[i] == rest[i - d];
        assert ps[i] == tail[i - d] + 1;
      }
    }
    forall y | y in r
      ensures y in xs
    {
      var i :| 0 <= i < |r| && r[i] == y;
      assert xs[ps[i]] == y;
    }
  }

  /** `xs[m] = vals`: the masked positions receive `vals` in order (see
      `ScatterPlacesValues`), every other position keeps its item. */
  function Scatter<T>(xs: seq<T>, m: seq<bool>, vals: seq<T>): (r: seq<T>)
    requires |xs| == |m|
    requires |vals| == CountTrue(m)
    ensures |r| == |xs|
    ensures forall i :: 0 <= i < |r| && !m[i] ==> r[i] == xs[i]
  {
    if |xs| == 0 then []
    else
      var vs := if m[0] then vals[1..] else vals;
      var rest := Scatter(xs[1..], m[1..], vs);
      var r := [if m[0] then vals[0] else xs[0]] + rest;
      assert forall i :: 1 <= i < |xs| && !m[i] ==> r[i] == xs[i] by {
        forall i | 1 <= i < |xs| && !m[i]
          ensures r[i] == xs[i]
        {
          assert !m[1..][i - 1];
        }
      }
      r
  }

  /** The k-th value written by `Scatter` lands on the k-th position the
      mask selects. */
  lemma {:induction false} ScatterPlacesValues<T>(xs: seq<T>, m: seq<bool>, vals: seq<T>)
    requires |xs| == |m|
    requires |vals| == CountTrue(m)
    ensures forall k :: 0 <= k < |vals| ==> Scatter(xs, m, vals)[SelectedPositions(m)[k]] == vals[k]
  {
    if |xs| > 0 {
      var vs := if m[0] then vals[1..] else vals;
      ScatterPlacesValues(xs[1..], m[1..], vs);
      var rest := Scatter(xs[1..], m[1..], vs);
      var tail := SelectedPositions(m[1..]);
      assert SelectedPositions(m) == (if m[0] then [0] else []) + Shift(tail);
      assert Scatter(xs, m, vals) == [if m[0] then vals[0] else xs[0]] + rest;
      ScatterStep(m[0], vals, rest, tail, xs[0]);
    }
  }

  /** One step of `Scatter`'s recursion, in terms of the positions the
      tail of the mask selects. */
  lemma ScatterStep<T>(head: bool, vals: seq<T>, rest: seq<T>, tail: seq<nat>, x: T)
    requires |vals| == |tail| + (if head then 1 else 0)
    requires forall k :: 0 <= k < |tail| ==> tail[k] < |rest|
    requires forall k :: 0 <= k < |tail| ==> rest[tail[k]] == (if head then vals[1..] else vals)[k]
    ensures var ps := (if head then [0] else []) + Shift(tail);
      var r := [if head then vals[0] else x] + rest;
      forall k :: 0 <= k < |vals| ==> r[ps[k]] == vals[k]
  {
    var ps := (if head then [0] else []) + Shift(tail);
    var r := [if head then vals[0] else x] + rest;
    var d := if head then 1 else 0;
    forall k | 0 <= k < |vals|
      ensures r[ps[k]] == vals[k]
    {
      if k >= d {
        assert ps[k] == tail[k - d] + 1;
        assert r[ps[k]] == rest[tail[k - d]];
      }
    }
  }

  /** Writing back the masked items of an aligned sequence `ys` is the
      same as rewriting each masked position on its own: the k-th selected
      value lands on the k-th selected position. */
  lemma ScatterSelected<T>(xs: seq<T>, ys: seq<T>, m: seq<bool>)
    requires |xs| == |ys| == |m|
    ensures |Select(ys, m)| == CountTrue(m)
    ensures forall i :: 0 <= i < |xs| ==>
      Scatter(xs, m, Select(ys, m))[i] == if m[i] then ys[i] else xs[i]
  {
    var ps := SelectedPositions(m);
    var r := Scatter(xs, m, Select(ys, m));
    SelectedPositionsCover(m);
    ScatterPlacesValues(xs, m, Select(ys, m));
    forall i | 0 <= i < |xs| && m[i]
      ensures r[i] == ys[i]
    {
      var k :| 0 <= k < |ps| && ps[k] == i;
      assert r[ps[k]] == Select(ys, m)[k];
    }
  }

  /** Selecting with a mask and with its negation splits a sequence into
      two parts that together hold every item exactly once. */
  lemma {:induction false} SelectPartition<T>(xs: seq<T>, m: seq<bool>)
    requires |xs| == |m|
    ensures |Select(xs, m)| + |Select(xs, Negate(m))| == |xs|
    ensures multiset(Select(xs, m)) + multiset(Select(xs, Negate(m))) == multiset(xs)
  {
    if |xs| > 0 {
      var n := Negate(m);
      assert n[1..] == Negate(m[1..]);
      SelectPartition(xs[1..], m[1..]);
      var a, b := Select(xs[1..], m[1..]), Select(xs[1..], n[1..]);
      assert Select(xs, m) == (if m[0] then [xs[0]] else []) + a;
      assert Select(xs, n) == (if !m[0] then [xs[0]] else []) + b;
      assert xs == [xs[0]] + xs[1..];
      PartitionStep(xs[0], m[0], a, b, xs[1..]);
    }
  }

  lemma PartitionStep<T>(x: T, toFirst: bool, a: seq<T>, b: seq<T>, rest: seq<T>)
    requires |a| + |b| == |rest|
    requires multiset(a) + multiset(b) == multiset(rest)
    ensures |(if toFirst then [x] else []) + a| + |(if !toFirst then [x] else []) + b| == |[x] + rest|
    ensures multiset((if toFirst then [x] else []) + a) + multiset((if !toFirst then [x] else []) + b)
         == multiset([x] + rest)
  {
  }

  /** Positions of the labelled samples of a batch, in order. */
  function LabeledPositions(labels: seq<int>, numLabeled: int): (ps: seq<nat>)
    ensures StrictlyIncreasing(ps)
    ensures forall p: nat :: p in ps <==> p < |labels| && labels[p] < numLabeled
  {
    SelectedPositionsCover(LabeledMask(labels, numLabeled));
    SelectedPositions(LabeledMask(labels, numLabeled))
  }

  /** Positions of the unlabelled samples of a batch, in order. */
  function UnlabeledPositions(labels: seq<int>, numLabeled: int): (ps: seq<nat>)
    ensures StrictlyIncreasing(ps)
    ensures forall p: nat :: p in ps <==> p < |labels| && labels[p] >= numLabeled
  {
    SelectedPositionsCover(Negate(LabeledMask(labels, numLabeled)));
    SelectedPositions(Negate(LabeledMask(labels, numLabeled)))
  }

  /** The positions `mask_lb` and `~mask_lb` select partition the batch:
      every sample position is selected by exactly one of the two, and
      together they select as many positions as there are samples. */
  lemma MaskPartitions(labels: seq<int>, numLabeled: int)
    ensures forall p: nat :: p < |labels| ==>
      (p in LabeledPositions(labels, numLabeled) <==> p !in UnlabeledPositions(labels, numLabeled))
    ensures forall p: nat ::
      (p in LabeledPositions(labels, numLabeled) || p in UnlabeledPositions(labels, numLabeled)) ==> p < |labels|
    ensures |LabeledPositions(labels, numLabeled)| + |UnlabeledPositions(labels, numLabeled)| == |labels|
  {
    SelectPartition(labels, LabeledMask(labels, numLabeled));
  }

  /** The rows of the labelled side of a batch, `x[mask_lb]`. */
  function LabeledRows<T>(xs: seq<T>, labels: seq<int>, numLabeled: int): (r: seq<T>)
    requires |xs| == |labels|
    ensures |r| <= |xs|
    ensures |r| == |LabeledPositions(labels, numLabeled)|
    ensures forall i :: 0 <= i < |r| ==> r[i] == xs[LabeledPositions(labels, numLabeled)[i]]
  {
    Select(xs, LabeledMask(labels, numLabeled))
  }

  /** The rows of the unlabelled side of a batch, `x[~mask_lb]`. */
  function UnlabeledRows<T>(xs: seq<T>, labels: seq<int>, numLabeled: int): (r: seq<T>)
    requires |xs| == |labels|
    ensures |r| <= |xs|
    ensures |r| == |UnlabeledPositions(labels, numLabeled)|
    ensures forall i :: 0 <= i < |r| ==> r[i] == xs[UnlabeledPositions(labels, numLabeled)[i]]
  {
    Select(xs, Negate(LabeledMask(labels, numLabeled)))
  }

  /** The two sides of the mask hold every row of the batch exactly once. */
  lemma RowsPartition<T>(xs: seq<T>, labels: seq<int>, numLabeled: int)
    requires |xs| == |labels|
    ensures |LabeledRows(xs, labels, numLabeled)| + |UnlabeledRows(xs, labels, numLabeled)| == |xs|
    ensures multiset(LabeledRows(xs, labels, numLabeled)) + multiset(UnlabeledRows(xs, labels, numLabeled))
         == multiset(xs)
  {
    SelectPartition(xs, LabeledMask(labels, numLabeled));
  }

  /** A batch whose labels are all below `numLabeled` has no unlabelled row. */
  lemma {:induction false} AllLabeledLeavesNoRows<T>(xs: seq<T>, labels: seq<int>, numLabeled: int)
    requires |xs| == |labels|
    requires forall i :: 0 <= i < |labels| ==> labels[i] < numLabeled
    ensures UnlabeledRows(xs, labels, numLabeled) == []
  {
    if |xs| > 0 {
      AllLabeledLeavesNoRows(xs[1..], labels[1..], numLabeled);
      assert Negate(LabeledMask(labels, numLabeled))[1..] == Negate(LabeledMask(labels[1..], numLabeled));
    }
  }

  /** The labels on each side of the mask are the ones the mask promises:
      below `numLabeled` on the labelled side, at or above it on the other. */
  lemma {:induction false} SidesRespectMask(labels: seq<int>, numLabeled: int)
    ensures forall y :: y in LabeledRows(labels, labels, numLabeled) ==> y < numLabeled
    ensures forall y :: y in UnlabeledRows(labels, labels, numLabeled) ==> y >= numLabeled
  {
    if |labels| > 0 {
      SidesRespectMask(labels[1..], numLabeled);
      var m := LabeledMask(labels, numLabeled);
      var n := Negate(m);
      assert m[1..] == LabeledMask(labels[1..], numLabeled);
      assert n[1..] == Negate(LabeledMask(labels[1..], numLabeled));
      assert Select(labels, m) == (if m[0] then [labels[0]] else []) + LabeledRows(labels[1..], labels[1..], numLabeled);
      assert Select(labels, n) == (if n[0] then [labels[0]] else []) + UnlabeledRows(labels[1..], labels[1..], numLabeled);
    }
  }

  /** Incremental-mode pseudo-labels: each unlabelled sample's label becomes
      the arg-max of its head-2 output plus the number of labelled classes,
      written back through the mask; labelled samples keep their label. */
  function InjectPseudoLabels(labels: seq<int>, head2: seq<seq<real>>, numLabeled: int): (r: seq<int>)
    requires |head2| == |labels|
    requires forall i :: 0 <= i < |head2| ==> |head2[i]| > 0
    ensures |r| == |labels|
    ensures forall i :: 0 <= i < |r| && labels[i] < numLabeled ==> r[i] == labels[i]
    ensures forall i :: 0 <= i < |r| && labels[i] >= numLabeled ==>
      r[i] == Ranking.ArgMax(head2[i]) + numLabeled
    ensures LabeledMask(r, numLabeled) == LabeledMask(labels, numLabeled)
  {
    var unl := Negate(LabeledMask(labels, numLabeled));
    var pseudo := seq(|labels|, i requires 0 <= i < |labels| => Ranking.ArgMax(head2[i]) + numLabeled);
    ScatterSelected(labels, pseudo, unl);
    Scatter(labels, unl, Select(pseudo, unl))
  }

  /** When every unlabelled row's head-2 arg-max is the same class `c`,
      every injected label is `c + numLabeled`. */
  lemma InjectUniformArgMax(labels: seq<int>, head2: seq<seq<real>>, numLabeled: int, c: nat)
    requires |head2| == |labels|
    requires forall i :: 0 <= i < |head2| ==> |head2[i]| > 0
    requires forall i :: 0 <= i < |head2| && labels[i] >= numLabeled ==> Ranking.ArgMax(head2[i]) == c
    ensures forall i :: 0 <= i < |labels| && labels[i] >= numLabeled ==>
      InjectPseudoLabels(labels, head2, numLabeled)[i] == c + numLabeled
  {
  }

  /** Number of k-means clusters and the offset added to a cluster index;
      both are fixed at 5 rather than taken from the configuration. */
  const NumClusters: nat := 5
  const ClusterOffset: nat := 5

  /** `labels + 5` over the k-means assignment of each unlabelled sample. */
  function ClusterLabels(assign: seq<int>): (r: seq<int>)
    ensures |r| == |assign|
    ensures forall i :: 0 <= i < |r| ==> r[i] - assign[i] == ClusterOffset
    ensures forall i :: 0 <= i < |r| && 0 <= assign[i] < NumClusters ==>
      ClusterOffset <= r[i] < ClusterOffset + NumClusters
    ensures forall i, j :: 0 <= i < |r| && 0 <= j < |r| ==> (r[i] == r[j] <==> assign[i] == assign[j])
  {
    seq(|assign|, i requires 0 <= i < |assign| => assign[i] + ClusterOffset)
  }

  /** Every possible cluster label falls on the unlabelled side of the
      mask exactly when there are at most 5 labelled classes. */
  lemma ClusterLabelsUnlabeledIff(numLabeled: int)
    ensures (forall cl :: 0 <= cl < NumClusters ==>
              !IsLabeled(ClusterLabels([cl])[0], numLabeled))
        <==> numLabeled <= ClusterOffset
  {
    if forall cl :: 0 <= cl < NumClusters ==> !IsLabeled(ClusterLabels([cl])[0], numLabeled) {
      assert ClusterLabels([0])[0] == ClusterOffset;
    }
  }

  /** Every possible cluster label is a head-2 class reserved for the
      unlabelled classes, [numLabeled, numLabeled + numUnlabeled), exactly
      when numLabeled <= 5 and the two counts add up to at least 10. With
      five unlabelled classes this means five labelled ones. */
  lemma ClusterLabelsInUnlabeledSlots(numLabeled: int, numUnlabeled: int)
    ensures (forall cl :: 0 <= cl < NumClusters ==>
              numLabeled <= ClusterLabels([cl])[0] < numLabeled + numUnlabeled)
        <==> (numLabeled <= ClusterOffset && ClusterOffset + NumClusters <= numLabeled + numUnlabeled)
    ensures numUnlabeled == NumClusters ==>
      ((forall cl :: 0 <= cl < NumClusters ==>
         numLabeled <= ClusterLabels([cl])[0] < numLabeled + numUnlabeled)
       <==> numLabeled == ClusterOffset)
  {
    var inSlots := forall cl :: 0 <= cl < NumClusters ==>
      numLabeled <= ClusterLabels([cl])[0] < numLabeled + numUnlabeled;
    if inSlots {
      assert ClusterLabels([0])[0] == ClusterOffset;
      assert ClusterLabels([NumClusters - 1])[0] == ClusterOffset + NumClusters - 1;
    }
  }

  /** A joint batch concatenates a labelled part whose labels are all below
      `numLabeled` and an unlabelled part whose labels are all at or above
      it; the mask then selects exactly the second part as unlabelled. */
  lemma {:induction false} JointBatchSplit<T>(xl: seq<T>, ll: seq<int>, xu: seq<T>, lu: seq<int>, numLabeled: int)
    requires |xl| == |ll| && |xu| == |lu|
    requires forall i :: 0 <= i < |ll| ==> ll[i] < numLabeled
    requires forall i :: 0 <= i < |lu| ==> lu[i] >= numLabeled
    ensures UnlabeledRows(xl + xu, ll + lu, numLabeled) == xu
  {
    var m := Negate(LabeledMask(ll + lu, numLabeled));
    SelectSkipsThenKeeps(xl, xu, m);
  }

  lemma {:induction false} SelectSkipsThenKeeps<T>(xl: seq<T>, xu: seq<T>, m: seq<bool>)
    requires |m| == |xl| + |xu|
    requires forall i :: 0 <= i < |xl| ==> !m[i]
    requires forall i :: |xl| <= i < |m| ==> m[i]
    ensures Select(xl + xu, m) == xu
  {
    if |xl| > 0 {
      assert (xl + xu)[1..] == xl[1..] + xu;
      SelectSkipsThenKeeps(xl[1..], xu, m[1..]);
    } else if |xu| > 0 {
      assert xl + xu == xu;
      assert (xu)[1..] == [] + xu[1..];
      SelectSkipsThenKeeps([], xu[1..], m[1..]);
    }
  }
}
