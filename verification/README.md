# AutoNovel split-loader training: discrete core in Dafny

This project models the exact, discrete parts of the AutoNovel
novel-class-discovery training script `auto_novel_splitdataloader.py`:

- the **pairwise rank pseudo-labeller** (`rank_bce`, and its inline copy in
  `train_IL`): per unlabelled sample, the top-k indices of its embedding by
  descending value, sorted ascending; every enumerated pair of samples gets
  target +1 when the two sorted lists agree (summed absolute difference 0)
  and -1 otherwise; the same pair enumeration pairs up the head-2
  probability rows of the two views;
- the **EMA teacher** (`_update_ema_variables`): the decay schedule
  alpha(t) = min(1 - 1/(t+1), alpha_max) and the update
  teacher <- alpha * teacher + (1 - alpha) * student, over exact reals;
- the **labelled/unlabelled mask** `label < num_labeled_classes`, the
  incremental-mode pseudo-label rewrite `argmax + num_labeled_classes`, and
  the k-means label offset `labels + 5`;
- the **step counter** `epoch * 400 + batch_idx` that feeds the decay, and the
  lockstep `zip` of the two batch streams;
- the **evaluator's accumulation** of predictions, labels and embeddings in
  `test`.

Modules: `Ranking` (argsort, `[:k]`, ascending sort, arg-max), `Labels`
(mask, masked select and write-back, pseudo-labels, cluster labels),
`PairTargets` (signatures, pair targets, `rank_bce` inputs), `Ema`,
`Schedule`, `Evaluate`. Everything is a pure function over immutable
values; the student and teacher parameters are lists of tensors, each a
flat list of reals.

Modelling choices:

- Feature, probability and output values are `real`. The argsort ranks by
  value, larger first. On equal values it puts the lower index first, and
  the arg-max returns the first maximal index. The tensor library does not
  specify either tie-break.
- `PairEnum` lives in `utils/util.py`, which is not part of this model. It is
  a parameter `enumerate: nat -> seq<Pair>` that, for n rows, lists pairs of
  row indices below n. `PairTargets.AllPairs` (all n*n ordered pairs) is one
  instance.
- `[:, :topk]` follows Python slicing. A `topk` above the row width keeps
  the whole row. A negative `topk` drops that many trailing indices.

Behaviours of the code that the model keeps as written:

- The top-k dimensions are chosen by signed value, not by magnitude:
  `argsort(..., descending=True)` at line 53.
- The k-means label offset is the constant 5 and k-means runs with 5
  clusters (lines 111 and 115), independent of `num_labeled_classes`.
  `Labels.ClusterLabelsInUnlabeledSlots` states when the cluster labels
  land in the unlabelled class slots.
- The teacher update `zip`s the two parameter lists (line 73): extra teacher
  tensors are left untouched rather than rejected. `Ema.UpdateTeacher`
  models the `zip`.
- A batch with no unlabelled sample is not skipped (line 170): the
  pairwise term gets empty pair lists. `PairTargets.NoUnlabeledNoPairs`
  shows this for every valid enumeration.
- The step counter (line 181) advances by the batch index within an epoch
  and jumps to `epoch * 400` at each new epoch, so an epoch shorter than
  400 batches leaves a gap. `Ema.Follow` and `Ema.Train` take the sequence
  of steps as a parameter, and `Schedule.RunSteps` builds it.

## Model

| member | source | states |
|---|---|---|
| Ranking.ArgsortDesc | auto_novel_splitdataloader.py:53 | the result lists every index of the row exactly once, and each index comes before every index whose value is smaller (equal values: lower index first) |
| Ranking.SliceTo | auto_novel_splitdataloader.py:55 | the result is a prefix of the input; its length is k when 0 <= k <= length, the whole input when k is larger, and length + k (at least 0) when k is negative |
| Ranking.TopK | auto_novel_splitdataloader.py:53-55 | the top-k indices are the first entries of the descending argsort; there are exactly k of them when 0 <= k <= width, all of them when k is larger, and width + k (at least 0) when k is negative; they are distinct and in range |
| Ranking.TopKDominates | auto_novel_splitdataloader.py:53-55 | every index kept in the top-k has a value at least as large as every index left out, so selection is by value |
| Ranking.SortAsc | auto_novel_splitdataloader.py:56-57 | the sorted row is ascending, has the same length, and holds the same indices with the same multiplicities |
| Ranking.SortedUnique | auto_novel_splitdataloader.py:56-57 | two ascending sequences with the same items are equal, so the sort's output does not depend on its input order |
| Ranking.SortAscEqualIff | auto_novel_splitdataloader.py:56-57 | two rows sort to the same list if and only if they hold the same items as multisets |
| Ranking.ArgMax | auto_novel_splitdataloader.py:234 | the index is in range, its value is at least every other value, and every earlier index holds a strictly smaller value |
| PairTargets.AllPairsValid | auto_novel_splitdataloader.py:54 | the exhaustive enumeration is a valid pair enumeration: every pair it lists is in range, so it can stand for the generator the pair-target code is given |
| PairTargets.AllPairs | auto_novel_splitdataloader.py:54 | the exhaustive enumeration has n*n entries and contains a pair exactly when both its indices are below n |
| PairTargets.RankDiff | auto_novel_splitdataloader.py:58-59 | the summed absolute difference is never negative and is 0 if and only if the two rows are equal element-wise |
| PairTargets.Signature | auto_novel_splitdataloader.py:55-57 | a row's signature is ascending and holds exactly the row's top-k indices, as many as the top-k has |
| PairTargets.PairTarget | auto_novel_splitdataloader.py:53-61 | the target is +1 or -1; it is +1 if and only if the sorted top-k lists are equal, and if and only if the two rows have the same set of top-k indices, whatever their rank order |
| PairTargets.PairTargetSymmetricReflexive | auto_novel_splitdataloader.py:55-61 | the target of (x, y) equals the target of (y, x), and a row paired with itself gets +1 |
| PairTargets.PairTargetTransitive | auto_novel_splitdataloader.py:55-61 | if x agrees with y and y agrees with z (+1), then x agrees with z |
| PairTargets.Targets | auto_novel_splitdataloader.py:215-227 | one target per enumerated pair, each +1 or -1, and +1 exactly for the pairs whose rows share their top-k index set |
| PairTargets.PairRows | auto_novel_splitdataloader.py:63-64 | both probability-pair lists have one entry per enumerated pair; entry m holds the left row of pair m from the first view and the right row from the second |
| PairTargets.RankBceInputs | auto_novel_splitdataloader.py:49-65 | targets and both probability-pair lists have one entry per pair the enumeration gives for the unlabelled subset; entry m of the two probability lists holds the left row of `prob2[~mask]` and the right row of `prob2_bar[~mask]` of pair m; its target is +1 exactly when the feature rows of that pair share their top-k sets |
| PairTargets.RankBceInputsAtPositions | auto_novel_splitdataloader.py:49-65 | traced back to the batch, entry m of the targets and of both probability-pair lists refers to the same two unlabelled samples: positions pos[left] and pos[right] of the batch, both with labels at or above the class count; the two probability rows are those samples' rows of `prob2` and `prob2_bar`, and the target is +1 exactly when those samples' features share their top-k sets |
| PairTargets.EmptySubsetNoPairs | auto_novel_splitdataloader.py:54 | every valid pair enumeration lists no pair for an empty subset |
| PairTargets.NoUnlabeledNoPairs | auto_novel_splitdataloader.py:50-65 | for every valid pair enumeration, a batch whose samples are all labelled yields no pair target and no probability pair |
| Labels.LabeledMask | auto_novel_splitdataloader.py:163 | the mask has one entry per sample, true exactly when the label is below the number of labelled classes |
| Labels.SelectedPositions | auto_novel_splitdataloader.py:165-166 | the positions a boolean mask selects, strictly increasing, each within the mask and set in it, as many as the mask has set entries |
| Labels.SelectedPositionsCover | auto_novel_splitdataloader.py:165-166 | every position the mask sets is among the selected positions |
| Labels.Select | auto_novel_splitdataloader.py:165-166 | `x[mask]` has one entry per set mask position, and its i-th entry is the item at the i-th selected position, so the order of the batch is kept |
| Labels.LabeledRows | auto_novel_splitdataloader.py:165 | `x[mask_lb]` lists the rows of the labelled samples in batch order: its i-th entry is the row at the i-th labelled position |
| Labels.UnlabeledRows | auto_novel_splitdataloader.py:50 | `x[~mask_lb]` lists the rows of the unlabelled samples in batch order: its i-th entry is the row at the i-th unlabelled position |
| Labels.LabeledPositions | auto_novel_splitdataloader.py:163 | the labelled positions increase strictly and are exactly the positions whose label is below the class count |
| Labels.UnlabeledPositions | auto_novel_splitdataloader.py:163 | the unlabelled positions increase strictly and are exactly the positions whose label is at or above the class count |
| Labels.MaskPartitions | auto_novel_splitdataloader.py:163-166 | the positions `mask_lb` selects and the positions `~mask_lb` selects are disjoint, cover every sample position, lie within the batch, and together number as many as the samples |
| Labels.RowsPartition | auto_novel_splitdataloader.py:165-166 | `x[mask]` and `x[~mask]` together hold every row of the batch exactly once (lengths add up, multisets add up) |
| Labels.SidesRespectMask | auto_novel_splitdataloader.py:165-166 | the labels selected on the labelled side are all below the class count, those on the unlabelled side all at or above it |
| Labels.AllLabeledLeavesNoRows | auto_novel_splitdataloader.py:50 | with every label below the class count the unlabelled selection is empty |
| Labels.ScatterSelected | auto_novel_splitdataloader.py:234 | writing the masked items of an aligned sequence back through the same mask rewrites exactly the masked positions with their own items and leaves the others unchanged |
| Labels.Scatter | auto_novel_splitdataloader.py:234 | `x[mask] = vals` keeps the length and leaves every unmasked position unchanged |
| Labels.ScatterPlacesValues | auto_novel_splitdataloader.py:234 | the k-th written value lands on the k-th position the mask selects |
| Labels.InjectPseudoLabels | auto_novel_splitdataloader.py:232-234 | labelled entries keep their label; every unlabelled entry becomes its head-2 arg-max plus the class count; the mask of the new labels equals the old mask |
| Labels.InjectUniformArgMax | auto_novel_splitdataloader.py:234 | when every unlabelled row's arg-max is c, every injected label is c plus the class count |
| Labels.ClusterLabels | auto_novel_splitdataloader.py:115-116 | one label per sample, each exactly its cluster index plus 5; a cluster index in [0, 5) becomes a label in [5, 10); two samples get the same label if and only if they are in the same cluster |
| Labels.ClusterLabelsUnlabeledIff | auto_novel_splitdataloader.py:115-116 | every cluster label lands on the unlabelled side of the mask if and only if there are at most 5 labelled classes |
| Labels.ClusterLabelsInUnlabeledSlots | auto_novel_splitdataloader.py:111-120 | every cluster label is one of the unlabelled class slots [L, L + U) if and only if L <= 5 and L + U >= 10; with U = 5 this holds exactly when L = 5 |
| Labels.JointBatchSplit | auto_novel_splitdataloader.py:147-166 | when the labelled stream's labels are below the class count and the unlabelled stream's are not, the unlabelled selection of the concatenated batch is exactly the unlabelled stream's part |
| Ema.Decay | auto_novel_splitdataloader.py:69 | the decay is one of 1 - 1/(t+1) and alpha_max and is at most both, so it is their minimum; it is below 1, non-negative when alpha_max is, and 0 at step 0 when alpha_max >= 0 |
| Ema.DecayMonotone | auto_novel_splitdataloader.py:69 | the decay is non-decreasing in the global step |
| Ema.DecaySaturatesIff | auto_novel_splitdataloader.py:69 | for every alpha_max, the decay equals alpha_max if and only if (t + 1)(1 - alpha_max) >= 1; when alpha_max >= 1 neither side ever holds |
| Ema.Blend | auto_novel_splitdataloader.py:74 | the new value's distance to the student value is alpha times the old distance; for alpha in [0, 1] it lies between the old teacher value and the student value; alpha 0 gives the student value and alpha 1 the teacher value |
| Ema.BlendTensor | auto_novel_splitdataloader.py:74 | `mul_(alpha).add_(1 - alpha, param)` on one tensor keeps its length and blends each value with the student's value at the same index |
| Ema.BlendDistance | auto_novel_splitdataloader.py:74 | with a non-negative decay one update scales the absolute distance to the student value by exactly the decay |
| Ema.UpdateTeacher | auto_novel_splitdataloader.py:68-74 | every value of a paired teacher tensor becomes the blend of its old value and the student's value with the decay of the step; the teacher keeps its tensor count and shapes; tensors beyond the student's list are unchanged; each paired value ends between its old value and the student's; at step 0 every paired tensor becomes the student's |
| Ema.FollowStaysInHull | auto_novel_splitdataloader.py:74 | over any run of updates, at any steps, a teacher value that starts in [lo, hi] stays there while every student value it sees is in [lo, hi] |
| Ema.FirstUpdateForgetsTeacher | auto_novel_splitdataloader.py:69 | a run whose first update is at step 0 ends in the same teacher value whatever the teacher held initially |
| Ema.FollowApproaches | auto_novel_splitdataloader.py:73-74 | against a fixed student value the teacher never overshoots and never gets farther from it |
| Ema.Follow | auto_novel_splitdataloader.py:68-74 | a teacher value that already equals every student value of a run stays unchanged through the run (for alpha_max >= 0) |
| Ema.Train | auto_novel_splitdataloader.py:181 | the teacher after a run of `_update_ema_variables` calls, one per batch, keeps its tensor count and shapes |
| Ema.TrainFollowsEachValue | auto_novel_splitdataloader.py:68-74 | after a run of whole-model updates, value j of teacher tensor i equals that value followed on its own through the run against value j of student tensor i, at the same steps |
| Schedule.GlobalStep | auto_novel_splitdataloader.py:181 | for a batch index below 400 the step decodes back to its epoch (step / 400) and batch index (step % 400) |
| Schedule.StepOrderIff | auto_novel_splitdataloader.py:181 | with batch indices below 400, one step is smaller than another if and only if its batch comes earlier in training order |
| Schedule.StepsDistinctIff | auto_novel_splitdataloader.py:142-181 | over runs of any number of epochs, all batches get distinct steps if and only if an epoch has at most 400 batches; with more, batch 400 of one epoch shares its step with batch 0 of the next |
| Schedule.DecayFollowsTrainingOrder | auto_novel_splitdataloader.py:181 | with at most 400 batches per epoch, a later batch never uses a smaller decay than an earlier one |
| Schedule.RunSteps | auto_novel_splitdataloader.py:142-181 | the steps of E epochs of B batches: E*B of them; with B <= 400 they start at 0, strictly increase, and stay below E*400 |
| Schedule.RunStepsValue | auto_novel_splitdataloader.py:142-181 | the update for batch b of epoch e is the (e*B + b)-th update of the run, and its step is e*400 + b |
| Schedule.RunDecayNonDecreasing | auto_novel_splitdataloader.py:181 | with at most 400 batches per epoch, the decay never decreases along the steps of a run |
| Schedule.RunForgetsInitialTeacher | auto_novel_splitdataloader.py:68-74 | because the first step of a run is 0, two teachers of the same shape trained on the same student snapshots end with the same value at every paired position |
| Schedule.Lockstep | auto_novel_splitdataloader.py:145 | the paired stream is as long as the shorter input and its i-th entry pairs the i-th batch of each stream |
| Evaluate.HeadNamed | auto_novel_splitdataloader.py:262-265 | head 1 is chosen if and only if the setting is exactly "head1"; any other setting reads head 2 |
| Evaluate.Predict | auto_novel_splitdataloader.py:266 | the prediction indexes the active head's output and has the largest score in it |
| Evaluate.Collect | auto_novel_splitdataloader.py:259-269 | predictions and labels have one entry per sample of the loader; there is one embedding entry per batch, as long as that batch |
| Evaluate.CollectFeats | auto_novel_splitdataloader.py:269 | entry j of the embeddings collected for batch i is the embedding the model gave sample j of that batch |
| Evaluate.CollectMatchesFlat | auto_novel_splitdataloader.py:259-268 | the accumulated labels are the loader's labels in order, and the m-th prediction is the prediction for the m-th sample, whatever the batch boundaries |
| Evaluate.PredsInHeadRange | auto_novel_splitdataloader.py:266-268 | when the active head has width w for every sample, every accumulated prediction is below w |

## Left out

- Network forward passes, softmax, the cross-entropy, MSE and pairwise BCE losses, and backpropagation: floating-point tensor numerics. The `BCE` criterion lives in `utils/util.py`, which is not part of this model.
- `ramps.sigmoid_rampup` and the ramp weight `w`: an exponential floating-point schedule in `utils/ramps.py`, which is not part of this model.
- `PairEnum` (`utils/util.py`): its source is not part of this model. It is a parameter (see above).
- faiss k-means (lines 111-114) and the accuracy/NMI/ARI metrics (line 270): foreign library calls. The model starts from the cluster assignments and from the collected predictions.
- Prototype-table writes (lines 119-130): L2 normalisation and per-class means on GPU tensors, floating-point numerics.
- The re-clustering trigger `epoch % 5 == 0` and the rebuilding of the unlabelled loader with the new labels (lines 107, 132-136): data-loader orchestration.
- `smooth_loss` and `smooth_hot` (lines 22-47): unused; their only call is commented out at line 175.
- SGD and StepLR stepping, the frozen-layer setup, data loaders, CUDA devices, argument parsing, checkpoint load/save, and console printing.
- Ranking.ArgsortDesc: fixes a tie-break (lower index first) that the tensor library leaves unspecified; properties that depend on it hold only for that choice.
- Ranking.ArgMax: fixes the first maximal index on ties, which the tensor library does not promise.
- Ema.UpdateTeacher: requires each teacher tensor paired by `zip` to have the same number of values as its student tensor; in-place broadcasting between other shapes is not modelled.
- Ema.Decay: exact real arithmetic; floating-point rounding of `1 - 1/(t+1)` is not modelled.
