/**
 The evaluator's accumulation loop: for every batch of a loader, take the
 arg-max class of the active head for each sample and append predictions,
 true labels and the batch's embeddings to running collections. The
 forward pass is not modelled: each batch carries the model's outputs for
 its samples. The clustering metrics computed from the collections are
 not part of this model.
 */
module Evaluate {
  import Ranking

  /** Which head's output is read. */
  datatype Head = Head1 | Head2

  /** The head named by the run's head setting: "head1" selects head 1 and
      every other name selects head 2. */
  function HeadNamed(name: string): (h: Head)
    ensures h == Head1 <==> name == "head1"
  {
    if name == "head1" then Head1 else Head2
  }

  /** The model's three outputs for one sample. */
  datatype SampleOutput = SampleOutput(out1: seq<real>, out2: seq<real>, feat: seq<real>)

  /** One batch of a loader: outputs and true label of every sample. */
  datatype EvalBatch = EvalBatch(outputs: seq<SampleOutput>, labels: seq<int>)

  predicate WellFormedBatch(b: EvalBatch)
  {
    && |b.outputs| == |b.labels|
    && forall i :: 0 <= i < |b.outputs| ==> |b.outputs[i].out1| > 0 && |b.outputs[i].out2| > 0
  }

  predicate WellFormed(bs: seq<EvalBatch>)
  {
    forall i :: 0 <= i < |bs| ==> WellFormedBatch(bs[i])
  }

  /** The predicted class of one sample under the active head. */
  function Predict(o: SampleOutput, h: Head): (c: nat)
    requires |o.out1| > 0 && |o.out2| > 0
    ensures h == Head1 ==> c < |o.out1| && forall j :: 0 <= j < |o.out1| ==> o.out1[j] <= o.out1[c]
    ensures h == Head2 ==> c < |o.out2| && forall j :: 0 <= j < |o.out2| ==> o.out2[j] <= o.out2[c]
  {
    match h
    case Head1 => Ranking.ArgMax(o.out1)
    case Head2 => Ranking.ArgMax(o.out2)
  }

  /** What the loop has accumulated: predictions, true labels, and the
      embeddings of each batch. */
  datatype Collected = Collected(preds: seq<nat>, targets: seq<int>, feats: seq<seq<seq<real>>>)

  /** All true labels of a loader, batch after batch. */
  function FlatLabels(bs: seq<EvalBatch>): (r: seq<int>)
  {
    if |bs| == 0 then [] else FlatLabels(bs[..|bs| - 1]) + bs[|bs| - 1].labels
  }

  /** All outputs of a loader, batch after batch; for well-formed batches
      they line up with the labels and every head output is non-empty. */
  function FlatOutputs(bs: seq<EvalBatch>): (r: seq<SampleOutput>)
    ensures WellFormed(bs) ==> |r| == |FlatLabels(bs)|
    ensures WellFormed(bs) ==>
      forall m :: 0 <= m < |r| ==> |r[m].out1| > 0 && |r[m].out2| > 0
  {
    if |bs| == 0 then []
    else
      var init := FlatOutputs(bs[..|bs| - 1]);
      var last := bs[|bs| - 1].outputs;
      assert WellFormed(bs) ==> WellFormed(bs[..|bs| - 1]) && WellFormedBatch(bs[|bs| - 1]);
      assert forall m :: |init| <= m < |init| + |last| ==> (init + last)[m] == last[m - |init|];
      init + last
  }

  /** The loop of `test`: per batch, the predictions of the active head and
      the true labels are appended, and the batch's embeddings are added as
      one more entry. */
  function Collect(bs: seq<EvalBatch>, h: Head): (c: Collected)
    requires WellFormed(bs)
    ensures |c.preds| == |c.targets| == |FlatOutputs(bs)|
    ensures |c.feats| == |bs|
    ensures forall i :: 0 <= i < |bs| ==> |c.feats[i]| == |bs[i].outputs|
  {
    if |bs| == 0 then Collected([], [], [])
    else
      var prev := Collect(bs[..|bs| - 1], h);
      var last := bs[|bs| - 1];
      assert WellFormedBatch(last);
      var preds := seq(|last.outputs|, i requires 0 <= i < |last.outputs| => Predict(last.outputs[i], h));
      var feats := seq(|last.outputs|, i requires 0 <= i < |last.outputs| => last.outputs[i].feat);
      Collected(prev.preds + preds, prev.targets + last.labels, prev.feats + [feats])
  }

  /** The embeddings the loop collects are the samples' own embeddings:
      entry j of batch i's collection is sample j's embedding. */
  lemma {:induction false} CollectFeats(bs: seq<EvalBatch>, h: Head, i: nat, j: nat)
    requires WellFormed(bs)
    requires i < |bs| && j < |bs[i].outputs|
    ensures Collect(bs, h).feats[i][j] == bs[i].outputs[j].feat
  {
    var init := bs[..|bs| - 1];
    assert WellFormed(init);
    if i < |bs| - 1 {
      assert init[i] == bs[i];
      CollectFeats(init, h, i, j);
    }
  }

  /** The accumulated predictions and labels are exactly the per-sample
      predictions and labels of the whole loader in order: the m-th entry
      of each belongs to the m-th sample, whatever the batch boundaries. */
  lemma {:induction false} CollectMatchesFlat(bs: seq<EvalBatch>, h: Head)
    requires WellFormed(bs)
    ensures Collect(bs, h).targets == FlatLabels(bs)
    ensures forall m :: 0 <= m < |FlatOutputs(bs)| ==>
        Collect(bs, h).preds[m] == Predict(FlatOutputs(bs)[m], h)
  {
    if |bs| > 0 {
      var init := bs[..|bs| - 1];
      assert WellFormed(init);
      CollectMatchesFlat(init, h);
      var last := bs[|bs| - 1];
      var c := Collect(bs, h);
      var n := |FlatOutputs(init)|;
      forall m | 0 <= m < |FlatOutputs(bs)|
        ensures c.preds[m] == Predict(FlatOutputs(bs)[m], h)
      {
        if m >= n {
          assert FlatOutputs(bs)[m] == last.outputs[m - n];
        } else {
          assert FlatOutputs(bs)[m] == FlatOutputs(init)[m];
        }
      }
    }
  }

  /** Predictions lie in the class range of the head that produced them. */
  lemma PredsInHeadRange(bs: seq<EvalBatch>, h: Head, width: nat)
    requires WellFormed(bs)
    requires forall i, j :: 0 <= i < |bs| && 0 <= j < |bs[i].outputs| ==>
      (if h == Head1 then |bs[i].outputs[j].out1| else |bs[i].outputs[j].out2|) == width
    ensures forall m :: 0 <= m < |Collect(bs, h).preds| ==> Collect(bs, h).preds[m] < width
  {
    CollectMatchesFlat(bs, h);
    FlatWidth(bs, h, width);
  }

  lemma {:induction false} FlatWidth(bs: seq<EvalBatch>, h: Head, width: nat)
    requires forall i, j :: 0 <= i < |bs| && 0 <= j < |bs[i].outputs| ==>
      (if h == Head1 then |bs[i].outputs[j].out1| else |bs[i].outputs[j].out2|) == width
    ensures forall m :: 0 <= m < |FlatOutputs(bs)| ==>
      (if h == Head1 then |FlatOutputs(bs)[m].out1| else |FlatOutputs(bs)[m].out2|) == width
  {
    if |bs| > 0 {
      var init := bs[..|bs| - 1];
      FlatWidth(init, h, width);
      var n := |FlatOutputs(init)|;
      forall m | n <= m < |FlatOutputs(bs)|
        ensures (if h == Head1 then |FlatOutputs(bs)[m].out1| else |FlatOutputs(bs)[m].out2|) == width
      {
        assert FlatOutputs(bs)[m] == bs[|bs| - 1].outputs[m - n];
      }
    }
  }
}
