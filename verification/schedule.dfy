/**
 The training loop's step counter, `epoch * iters + batch_idx` with
 `iters` fixed at 400, which drives the teacher's decay schedule, and the
 lockstep pairing of the labelled and unlabelled batch streams.
 */
module Schedule {
  import Ema

  /** Batches per epoch the step counter assumes. */
  const ItersPerEpoch: nat := 400

  /** The global step of batch `batch` of epoch `epoch`. For a batch index
      below 400 the step decodes back to its epoch and batch index. */
  function GlobalStep(epoch: nat, batch: nat): (t: nat)
    ensures batch < ItersPerEpoch ==> t / ItersPerEpoch == epoch && t % ItersPerEpoch == batch
  {
    epoch * ItersPerEpoch + batch
  }

  /** (e1, b1) comes strictly before (e2, b2) in training order. */
  predicate EarlierBatch(e1: nat, b1: nat, e2: nat, b2: nat)
  {
    e1 < e2 || (e1 == e2 && b1 < b2)
  }

  /** While batch indices stay below 400, steps follow training order in
      both directions. */
  lemma StepOrderIff(e1: nat, b1: nat, e2: nat, b2: nat)
    requires b1 < ItersPerEpoch && b2 < ItersPerEpoch
    ensures GlobalStep(e1, b1) < GlobalStep(e2, b2) <==> EarlierBatch(e1, b1, e2, b2)
  {
    if e1 < e2 {
      assert e1 * ItersPerEpoch + ItersPerEpoch <= e2 * ItersPerEpoch;
    } else if e2 < e1 {
      assert e2 * ItersPerEpoch + ItersPerEpoch <= e1 * ItersPerEpoch;
    }
  }

  /** Every batch of a run with `perEpoch` batches per epoch gets its own
      step exactly when an epoch has at most 400 batches; with more, the
      batch at index 400 of one epoch shares its step with the first batch
      of the next. */
  lemma StepsDistinctIff(perEpoch: nat)
    ensures (forall e1: nat, b1: nat, e2: nat, b2: nat ::
               b1 < perEpoch && b2 < perEpoch && (e1 != e2 || b1 != b2) ==>
               GlobalStep(e1, b1) != GlobalStep(e2, b2))
        <==> perEpoch <= ItersPerEpoch
  {
    if perEpoch <= ItersPerEpoch {
      forall e1: nat, b1: nat, e2: nat, b2: nat |
        b1 < perEpoch && b2 < perEpoch && (e1 != e2 || b1 != b2)
        ensures GlobalStep(e1, b1) != GlobalStep(e2, b2)
      {
        StepOrderIff(e1, b1, e2, b2);
        StepOrderIff(e2, b2, e1, b1);
      }
    } else {
      assert GlobalStep(0, ItersPerEpoch) == GlobalStep(1, 0);
    }
  }

  /** Along a run whose epochs have at most 400 batches, the teacher's
      decay never decreases from one batch to a later one. */
  lemma DecayFollowsTrainingOrder(e1: nat, b1: nat, e2: nat, b2: nat, maxDecay: real)
    requires b1 < ItersPerEpoch && b2 < ItersPerEpoch
    requires EarlierBatch(e1, b1, e2, b2)
    ensures Ema.Decay(GlobalStep(e1, b1), maxDecay) <= Ema.Decay(GlobalStep(e2, b2), maxDecay)
  {
    StepOrderIff(e1, b1, e2, b2);
    Ema.DecayMonotone(GlobalStep(e1, b1), GlobalStep(e2, b2), maxDecay);
  }

  /** The steps of one epoch's `perEpoch` batches, in order. */
  function EpochSteps(epoch: nat, perEpoch: nat): (r: seq<nat>)
    ensures |r| == perEpoch
    ensures forall b :: 0 <= b < perEpoch ==> r[b] == GlobalStep(epoch, b)
  {
    seq(perEpoch, b requires 0 <= b < perEpoch => GlobalStep(epoch, b))
  }

  /** The steps handed to the teacher update over `epochs` epochs of
      `perEpoch` batches each. With at most 400 batches per epoch they
      start at 0 and strictly increase, also across the gap the counter
      leaves at the end of a short epoch. */
  function RunSteps(epochs: nat, perEpoch: nat): (r: seq<nat>)
    ensures |r| == epochs * perEpoch
    ensures perEpoch <= ItersPerEpoch ==> forall n :: 0 <= n < |r| ==> r[n] < epochs * ItersPerEpoch
    ensures perEpoch <= ItersPerEpoch ==> forall m, n :: 0 <= m < n < |r| ==> r[m] < r[n]
    ensures epochs > 0 && perEpoch > 0 ==> r[0] == 0
  {
    if epochs == 0 then []
    else
      var prev := RunSteps(epochs - 1, perEpoch);
      var cur := EpochSteps(epochs - 1, perEpoch);
      assert (epochs - 1) * perEpoch + perEpoch == epochs * perEpoch;
      if perEpoch <= ItersPerEpoch then
        AppendEpoch(prev, cur, epochs - 1);
        prev + cur
      else
        prev + cur
  }

  /** Appending the steps of epoch `e` to the steps of the epochs before
      it keeps them increasing and below the next epoch's first step. */
  lemma AppendEpoch(prev: seq<nat>, cur: seq<nat>, e: nat)
    requires forall n :: 0 <= n < |prev| ==> prev[n] < e * ItersPerEpoch
    requires forall m, n :: 0 <= m < n < |prev| ==> prev[m] < prev[n]
    requires |cur| <= ItersPerEpoch
    requires forall b :: 0 <= b < |cur| ==> cur[b] == GlobalStep(e, b)
    ensures forall n :: 0 <= n < |prev + cur| ==> (prev + cur)[n] < (e + 1) * ItersPerEpoch
    ensures forall m, n :: 0 <= m < n < |prev + cur| ==> (prev + cur)[m] < (prev + cur)[n]
    ensures e == 0 && |cur| > 0 ==> (prev + cur)[0] == 0
  {
    var r := prev + cur;
    assert (e + 1) * ItersPerEpoch == e * ItersPerEpoch + ItersPerEpoch;
    forall n | 0 <= n < |r|
      ensures r[n] < (e + 1) * ItersPerEpoch
    {
      if n >= |prev| {
        assert r[n] == cur[n - |prev|];
      }
    }
    forall m, n | 0 <= m < n < |r|
      ensures r[m] < r[n]
    {
      if n >= |prev| {
        assert r[n] == cur[n - |prev|];
        if m >= |prev| {
          assert r[m] == cur[m - |prev|];
        } else {
          assert r[m] == prev[m];
        }
      }
    }
    assert |prev| > 0 ==> prev[0] < e * ItersPerEpoch;
    if e == 0 && |cur| > 0 {
      assert r[0] == cur[0];
    }
  }

  /** Step `e * perEpoch + b` of a run is the global step of batch `b` of
      epoch `e`: the run restarts the batch index at 0 in every epoch and
      jumps to `e * 400`, whatever the epoch's length. */
  lemma {:induction false} RunStepsValue(epochs: nat, perEpoch: nat, e: nat, b: nat)
    requires e < epochs && b < perEpoch
    ensures e * perEpoch + b < |RunSteps(epochs, perEpoch)|
    ensures RunSteps(epochs, perEpoch)[e * perEpoch + b] == GlobalStep(e, b)
  {
    var prev := RunSteps(epochs - 1, perEpoch);
    var cur := EpochSteps(epochs - 1, perEpoch);
    assert RunSteps(epochs, perEpoch) == prev + cur;
    var n := e * perEpoch + b;
    BlockIndex(e, b, epochs - 1, perEpoch);
    if e < epochs - 1 {
      RunStepsValue(epochs - 1, perEpoch, e, b);
      ConcatAt(prev, cur, n);
    } else {
      ConcatAt(prev, cur, n);
      assert n - |prev| == b;
    }
  }

  /** Indexing a concatenation reads the left part, then the right. */
  lemma ConcatAt(prev: seq<nat>, cur: seq<nat>, n: nat)
    requires n < |prev| + |cur|
    ensures n < |prev| ==> (prev + cur)[n] == prev[n]
    ensures n >= |prev| ==> (prev + cur)[n] == cur[n - |prev|]
  {
  }

  /** Index `e * B + b` lies in the first `E` blocks of length `B` when
      `e < E`, and at offset `b` of block `E` when `e == E`. */
  lemma BlockIndex(e: nat, b: nat, blocks: nat, len: nat)
    requires e <= blocks && b < len
    ensures e < blocks ==> e * len + b < blocks * len
    ensures e == blocks ==> e * len + b == blocks * len + b
  {
    if e < blocks {
      assert (e + 1) * len == e * len + len;
      MulMonotone(e + 1, blocks, len);
    }
  }

  lemma MulMonotone(x: nat, y: nat, c: nat)
    requires x <= y
    ensures x * c <= y * c
  {
    assert y * c == x * c + (y - x) * c;
  }

  /** Over the steps of a run with at most 400 batches per epoch, the
      teacher's decay never decreases from one update to a later one. */
  lemma {:induction false} RunDecayNonDecreasing(epochs: nat, perEpoch: nat, maxDecay: real)
    requires perEpoch <= ItersPerEpoch
    ensures forall m, n :: 0 <= m < n < |RunSteps(epochs, perEpoch)| ==>
      Ema.Decay(RunSteps(epochs, perEpoch)[m], maxDecay) <= Ema.Decay(RunSteps(epochs, perEpoch)[n], maxDecay)
  {
    var r := RunSteps(epochs, perEpoch);
    forall m, n | 0 <= m < n < |r|
      ensures Ema.Decay(r[m], maxDecay) <= Ema.Decay(r[n], maxDecay)
    {
      Ema.DecayMonotone(r[m], r[n], maxDecay);
    }
  }

  /** A whole training run forgets the teacher's initial parameters: two
      teachers of the same shapes that follow the same student snapshots
      over the steps of a run end with the same value at every position
      the student snapshots pair up. */
  lemma RunForgetsInitialTeacher(t1: seq<seq<real>>, t2: seq<seq<real>>, students: seq<seq<seq<real>>>,
                                 maxDecay: real, epochs: nat, perEpoch: nat, i: nat, j: nat)
    requires 0.0 <= maxDecay
    requires epochs > 0 && perEpoch > 0
    requires |students| == |RunSteps(epochs, perEpoch)|
    requires |t1| == |t2| && forall p :: 0 <= p < |t1| ==> |t1[p]| == |t2[p]|
    requires forall k :: 0 <= k < |students| ==> Ema.ZipShapesMatch(t1, students[k])
    requires i < |t1| && j < |t1[i]|
    requires forall k :: 0 <= k < |students| ==> i < |students[k]|
    ensures Ema.Train(t1, students, maxDecay, RunSteps(epochs, perEpoch))[i][j]
         == Ema.Train(t2, students, maxDecay, RunSteps(epochs, perEpoch))[i][j]
  {
    var steps := RunSteps(epochs, perEpoch);
    forall k | 0 <= k < |students|
      ensures Ema.ZipShapesMatch(t2, students[k])
    {
      assert Ema.ZipShapesMatch(t1, students[k]);
    }
    Ema.TrainFollowsEachValue(t1, students, maxDecay, steps, i, j);
    Ema.TrainFollowsEachValue(t2, students, maxDecay, steps, i, j);
    Ema.FirstUpdateForgetsTeacher(t1[i][j], t2[i][j], Ema.Column(students, i, j), maxDecay, steps);
  }

  /** `zip(labeled_loader, unlabeled_loader)`: batches are drawn in
      lockstep and the shorter stream decides how many there are. */
  function Lockstep<A, B>(ls: seq<A>, us: seq<B>): (r: seq<(A, B)>)
    ensures |r| <= |ls| && |r| <= |us|
    ensures |r| == |ls| || |r| == |us|
    ensures forall i :: 0 <= i < |r| ==> r[i].0 == ls[i] && r[i].1 == us[i]
  {
    if |ls| == 0 || |us| == 0 then []
    else [(ls[0], us[0])] + Lockstep(ls[1..], us[1..])
  }
}
