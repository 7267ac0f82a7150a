# cs-ranking dataset transforms and rank recovery, in Dafny

This project models two parts of the cs-ranking library:

- **Dataset-reader utilities for discrete choice** (`csrank/dataset_reader/discretechoice/util.py`):
  - the pairwise instance generator, which pairs every object of an instance with the chosen object, swaps the sides of the pairs at even positions and labels each pair;
  - the complete-dataset generator, which does this for every instance and concatenates the results;
  - the sub-sampler, which cuts wide instances into rounds of `n_objects`-object instances drawn from seeded generators.
- **Rank recovery and instance counting** (`csrank/tensorflow_util.py`):
  - `scores_to_rankings`, a top-k of the scores followed by a top-k of that ordering and a reversal;
  - `get_instances_objects`, which counts the non-negative entries of a label matrix.

Files:

- `wrappers.dfy`: the `Result` and `Option` datatypes.
- `arith.dfy` (module `Arith`): facts about products and floor quotients, used by the sub-sampler and the instance counter.
- `pairwise_dataset.dfy` (module `PairwiseDataset`): the two pairwise generators.
  - Each generator is a method written like the source. The single-instance one swaps pair sides and overwrites labels in local arrays. The complete one extends four accumulators instance by instance.
  - Each method is proved equal to a reference function. The single-instance generator is proved equal to `Pairs`, a position-by-position definition. The complete generator is proved equal to `CompletePairwise`: the chosen objects picked by `Choices`, then `ExpandAll`, which concatenates each instance's `Pairs` in instance order.
  - The properties are lemmas about those functions.
- `choice_sub_sampling.dfy` (module `ChoiceSubSampling`): the sub-sampler.
  - It is a method with the source's round loop. That includes the `len(X_train) == 0` branch and the final failure when no round ran.
  - The method is proved equal to `SubSampling`, a concatenation of rounds.
  - The random generator is a parameter `rng` of type `RandInt`. For a seed, a bound, an instance and a slot, it gives a draw in `[0, bound)`. Every property holds for every such generator. One oracle stands for the draws of one call with a fixed `n_objects`. numpy's entry (row, slot) is draw number row * n_objects + slot of the seeded stream, so it also depends on `n_objects`. No lemma compares calls with different `n_objects`. Determinism ("same generator, same output") holds because `SubSampling` is a function.
- `tensor_util.dfy` (module `TensorUtil`): pure functions and lemmas.
  - `top_k` with `k` equal to the row width is modelled as a stable descending insertion sort of the indices (`ArgSortDesc`). Among equal keys the lower index comes first, which is the tie rule the framework documents for `top_k`.
  - Scores are integers.

## Behaviour worth noting

- **Empty object set.** The pairwise generator fails on an empty object set. `np.array([])` is one-dimensional, so `pairs[neg_indices, 0]` raises an IndexError. The model returns `Failure(TooManyIndices)`.
- **Bucket offset.** The sub-sampler adds `slot * bucket_size` to the draw for each slot (line 17). This does not depend on the round index.
- **Bucket size 0.** When the bucket size is 0 or less, the sub-sampler does not reject the input up front. It fails at the final `X_train.shape` on the still-empty list (line 27): `Failure(NoShape)`.
- **Ties in the ranking.** Tie-breaking in the ranking is not left open. `top_k` puts the lower index first.

## Model

| member | source | states |
|---|---|---|
| `PairwiseDataset.GeneratePairwiseInstances` | csrank/dataset_reader/discretechoice/util.py:31-46 | fails exactly on an empty object set, with the too-many-indices error; otherwise the in-place swap of the even-position pairs and label overwrite yield exactly the reference pairs `Pairs(x, choice)` |
| `PairwiseDataset.PairsLength` | csrank/dataset_reader/discretechoice/util.py:32-33 | X1, X2, Y_double and Y_single each hold one entry per object of x |
| `PairwiseDataset.LabelLocatesChoice` | csrank/dataset_reader/discretechoice/util.py:34-45 | each pair holds the object and the choice; label 0 means the choice is on the left and the object on the right (even positions), label 1 the reverse (odd positions) |
| `PairwiseDataset.UnorderedPairs` | csrank/dataset_reader/discretechoice/util.py:32-37 | the unordered pair at position k is {x[k], choice}: the swap only reorders the product pairs |
| `PairwiseDataset.LabelsAgree` | csrank/dataset_reader/discretechoice/util.py:41-45 | Y_double[k] is [0, 1] or [1, 0], and Y_double[k][0] equals Y_single[k] |
| `PairwiseDataset.LabelCounts` | csrank/dataset_reader/discretechoice/util.py:34-45 | exactly ceil(n/2) labels are 0 (the swapped even positions) and floor(n/2) are 1 |
| `PairwiseDataset.PairsExample` | csrank/dataset_reader/discretechoice/util.py:31-46 | objects [1], [2], [3] with choice [9] give X1 = [9], [2], [9], X2 = [1], [9], [3], Y_double = [0,1], [1,0], [0,1], Y_single = 0, 1, 0 |
| `PairwiseDataset.PyIndex` | csrank/dataset_reader/discretechoice/util.py:54 | an index y into n entries is valid exactly when -n <= y < n, and then it names entry y, or entry y + n when y is negative (counted from the end) |
| `PairwiseDataset.Choices` | csrank/dataset_reader/discretechoice/util.py:54 | picking X[i][Y[i]] succeeds exactly when every index is a valid Python index (negative ones count from the end), and then yields one chosen object per instance, the one at that index |
| `PairwiseDataset.GenerateCompletePairwiseDataset` | csrank/dataset_reader/discretechoice/util.py:49-65 | the accumulator loop returns the index error, or the pairs of every instance concatenated in instance order (`CompletePairwise`) |
| `PairwiseDataset.ExpandAllLength` | csrank/dataset_reader/discretechoice/util.py:55-60 | the four concatenated arrays hold as many entries as there are objects over all instances |
| `PairwiseDataset.ExpandAllBlock` | csrank/dataset_reader/discretechoice/util.py:55-60 | the block of instance i starts after the pairs of the earlier instances and equals the pairs generated for instance i alone |
| `PairwiseDataset.CompleteFailsOnBadIndex` | csrank/dataset_reader/discretechoice/util.py:54 | the complete dataset fails, with the index error, exactly when some chosen index lies outside [-n_i, n_i) |
| `PairwiseDataset.CompleteBlocks` | csrank/dataset_reader/discretechoice/util.py:54-60 | on success the output has one pair per object overall, and the block of instance i equals `Pairs(X[i], X[i][c])` for its chosen index c, in instance order |
| `PairwiseDataset.SelfPairKept` | csrank/dataset_reader/discretechoice/util.py:54-56 | inside instance i's block, the pair at the chosen index has the chosen object on both sides: no self-pair is removed |
| `ChoiceSubSampling.BucketSize` | csrank/dataset_reader/discretechoice/util.py:8 | int(m / n_objects) truncates toward zero: for positive n_objects it is the b with b * n_objects <= m < (b + 1) * n_objects; for negative n_objects it is -b' with b' * -n_objects <= m < (b' + 1) * -n_objects, so never positive |
| `ChoiceSubSampling.RoundColumns` | csrank/dataset_reader/discretechoice/util.py:16-17 | one gathered column per slot; slot j's column lies in [j*b, (j+1)*b) and below m |
| `ChoiceSubSampling.ArgMax` | csrank/dataset_reader/discretechoice/util.py:20 | argmax is an index of the row whose entry is at least every entry and strictly greater than every entry before it (the first maximum) |
| `ChoiceSubSampling.Round` | csrank/dataset_reader/discretechoice/util.py:13-20 | one round yields one sampled instance and one label per instance of X; each sampled instance has n_objects objects and each label is a slot below n_objects |
| `ChoiceSubSampling.Rounds` | csrank/dataset_reader/discretechoice/util.py:12-26 | k rounds over N instances hold k * N sampled instances and k * N labels |
| `ChoiceSubSampling.SubSampleDiscreteChoices` | csrank/dataset_reader/discretechoice/util.py:6-28 | the round loop, with the first round replacing the empty list, returns the division error, the no-shape error when no round ran, or the concatenation of all rounds (`SubSampling`) |
| `ChoiceSubSampling.SubSamplingFails` | csrank/dataset_reader/discretechoice/util.py:8-27 | the sub-sampler fails exactly when n_objects <= 0 or m < n_objects (bucket size not positive), and divides by zero exactly when n_objects == 0 |
| `ChoiceSubSampling.RoundsAt` | csrank/dataset_reader/discretechoice/util.py:21-26 | sampled instance i * N + r of the concatenation is instance r of round i, for every round i below k |
| `ChoiceSubSampling.SubSamplingShape` | csrank/dataset_reader/discretechoice/util.py:8-26 | on success there are N * floor(m / n_objects) instances of width n_objects and as many labels, each below n_objects |
| `ChoiceSubSampling.SubSampledInstance` | csrank/dataset_reader/discretechoice/util.py:15-18 | sampled instance i * N + r takes, for each slot j, row r's column rng(42 + i, b, r, j) + j*b, which lies in [j*b, (j+1)*b) and below m |
| `ChoiceSubSampling.SubSampledLabel` | csrank/dataset_reader/discretechoice/util.py:19-20 | the label of sampled instance i * N + r is the first index of a maximum of row r's scores at the same gathered columns |
| `TensorUtil.Insert` | csrank/tensorflow_util.py:16 | inserting an index into a stably sorted index list keeps it sorted (descending key, ties by index) and adds exactly that index |
| `TensorUtil.ArgSortDesc` | csrank/tensorflow_util.py:16 | the full top_k lists every index of the row once, in descending order of key, equal keys lower index first |
| `TensorUtil.TopK` | csrank/tensorflow_util.py:16 | top_k returns k distinct indices in descending order of key (equal keys lower index first), and every index it leaves out is placed after every index it returns: they are the k largest |
| `TensorUtil.ReverseKeepsPermutation` | csrank/tensorflow_util.py:19 | the reversal `[:, ::-1]` of a permutation of 0 .. n-1 is again a permutation of 0 .. n-1 |
| `TensorUtil.RowRanking` | csrank/tensorflow_util.py:16-19 | the ranking of one row is a permutation of 0 .. k-1 |
| `TensorUtil.ScoresToRankings` | csrank/tensorflow_util.py:14-20 | top_k fails exactly when k < 0 or k exceeds the row width; otherwise there is one ranking row per score row |
| `TensorUtil.SortedIsPermutation` | csrank/tensorflow_util.py:16 | a full stably sorted index list is a permutation of 0 .. n-1 |
| `TensorUtil.ArgSortOfPermutation` | csrank/tensorflow_util.py:18 | sorting a permutation by its own values descending puts value n-1-t at position t |
| `TensorUtil.ReversedArgSortInverts` | csrank/tensorflow_util.py:18-19 | for ANY permutation o (whatever the tie-breaking of the first sort), the reversed descending top_k of o is a permutation and the inverse of o, in both directions |
| `TensorUtil.RankingIsInverseOfOrdering` | csrank/tensorflow_util.py:16-19 | each ranking row is a permutation of 0 .. n-1, and rankings[j] is the position of object j in the descending ordering (and vice versa) |
| `TensorUtil.RankOrder` | csrank/tensorflow_util.py:16-19 | a higher score, or an equal score at a lower index, gives a smaller rank |
| `TensorUtil.HigherScoreBetterRank` | csrank/tensorflow_util.py:16-19 | score[a] > score[b] implies rank[a] < rank[b] |
| `TensorUtil.BestGetsRankZero` | csrank/tensorflow_util.py:16-19 | the object scoring strictly above all others gets rank 0 |
| `TensorUtil.WorstGetsLastRank` | csrank/tensorflow_util.py:16-19 | the object scoring strictly below all others gets rank n-1 |
| `TensorUtil.RowRankingExample` | csrank/tensorflow_util.py:14-20 | scores 1, 9, 5 (for 0.1, 0.9, 0.5) rank as 2, 0, 1 |
| `TensorUtil.RankingExample` | csrank/tensorflow_util.py:14-20 | the batch [[1, 9, 5]] with k = 3 gives [[2, 0, 1]] |
| `TensorUtil.CountNonNegative` | csrank/tensorflow_util.py:25-26 | the sum of the 0/1 matrix `y_true >= 0` is the number of coordinates (b, t) whose entry is >= 0 |
| `TensorUtil.GetInstancesObjects` | csrank/tensorflow_util.py:23-27 | n_objects is the row width, and n_instances is the floor of (number of entries >= 0) / width |
| `TensorUtil.CountRowBounded` | csrank/tensorflow_util.py:25 | a row has at most as many non-negative entries as its width, and exactly that many when none is negative |
| `TensorUtil.CountBounded` | csrank/tensorflow_util.py:25-26 | the non-negative count of a batch is at most rows * width, and equal to it when no entry is negative |
| `TensorUtil.InstancesAtMostRows` | csrank/tensorflow_util.py:25-26 | n_instances never exceeds the number of rows |
| `TensorUtil.AllNonNegativeCountsRows` | csrank/tensorflow_util.py:25-26 | when no entry of y_true is negative, n_instances equals the number of rows |

## Left out

- `setup_logger`, `configure_logging_numpy_keras` (csrank/tensorflow_util.py:43-75): log files, directory creation, environment variables, device listing and session configuration. These are I/O and framework set-up with no data logic.
- `tensorify`, `get_tensor_value` (csrank/tensorflow_util.py:30-40): type dispatch over framework tensor objects. They have no logic of their own.
- Logging calls in the sub-sampler (csrank/dataset_reader/discretechoice/util.py:7,9,27): observability only. The shape read at line 27 is modelled, as the `NoShape` failure.
- The Mersenne Twister behind `np.random.RandomState`: replaced by the `RandInt` oracle. The model does not pin down which values a seed produces.
- Floating point:
  - scores, `Y_double` and selection scores are integers;
  - the `float32` cast of the rankings is dropped;
  - `int(m / n_objects)` is computed exactly, not through a float quotient, which can differ only for very large `m`.
- Integer widths: the int32 casts in `get_instances_objects` are unbounded integers.
- `PairwiseDataset.GenerateCompletePairwiseDataset`, `PairwiseDataset.Choices`, `PairwiseDataset.CompletePairwise`: require one chosen index per instance (`|Y| == |X|`).
  - `X[np.arange(N), Y]` broadcasts the two index arrays against each other. None of the cases this produces when the lengths differ is modelled:
    - When Y has length 1 and N > 1, every instance uses the index Y[0].
    - When N is 1 and Y has length L, the choices are X[0][Y[j]] for each j. `zip(X, choices)` then uses only the first of them. When Y is empty, the loop runs zero times and the source returns four empty arrays.
    - For N > 1 and any length other than 1 and N, the index arrays cannot be broadcast together, and numpy raises an IndexError that the model does not return.
  - Objects are a generic type, so the mismatch between a choice and an object's feature width is not modelled.
- `ChoiceSubSampling.SubSampleDiscreteChoices`: requires X and S to be matrices of the same shape, with `m` (the column count of X) as their column count. Other shapes of S are not modelled:
  - S is never broadcast. The gather at csrank/dataset_reader/discretechoice/util.py:19 reads only rows 0 .. N-1 of S at the drawn columns.
  - An S with fewer than N rows, or with a drawn column outside its width, makes numpy raise an IndexError that the model does not return.
  - An S with more rows or columns is accepted without error, and its extra entries are ignored.
- `ChoiceSubSampling.SubSampleDiscreteChoices`: `nObjects` is a required argument. The default `n_objects=5` (csrank/dataset_reader/discretechoice/util.py:6) is not modelled. A caller passes 5 explicitly.
- `TensorUtil.GetInstancesObjects`: requires a row width of at least 1.
  - Width 0 makes the framework divide 0 by 0 and cast the result, so the outcome is unspecified.
  - A row width unknown until run time (None) is not modelled.
- `TensorUtil.ScoresToRankings`: is defined for every k from 0 to the row width. For every such k the ranking is proved to be a permutation of 0 .. k-1. The other ranking properties (inverse of the ordering, order of ranks, best and worst object) are stated only for k equal to the row width.
- csrank/constants.py and csrank/choicefunctions/__init__.py: string constants and re-exports of learners. They have no behaviour to model.
- numpy array views and aliasing: `X1` and `X2` are views of the pair array, but nothing writes to them after they are returned. The model returns values.
