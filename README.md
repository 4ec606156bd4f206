# k-nearest neighbours on chips and on x-values, in Dafny

This project models `kNearest.py`, a small k-nearest-neighbour utility with
two uses:

* **Classification of chips.** A chip is a row `(x1, x2, label)` with label
  0 (FAIL) or 1 (OK). `k_nearest` pairs every chip of a data set with its
  Euclidean distance to a query point, sorts the pairs by distance with
  Python's stable `sorted` and keeps the first `k`. `classifyChip` predicts
  FAIL when strictly more than half of those neighbours failed, and OK
  otherwise (so a tie, and an empty list, give OK). `classifyMesh` does this
  for every point of a mesh; `classifyErrors` classifies every chip of a set
  against the same set (itself included) and counts the disagreements with
  the recorded labels.
* **Regression on x.** `nearestX` writes the samples `(x, y)` into a zeroed
  buffer of 100 rows `(x, y, |x_value - x|)`, sorts the rows by the distance
  column and keeps the first `k`. Rows the data does not fill stay
  `(0, 0, 0)`: they sit at distance 0 and so are among the nearest rows. `predictY` averages
  the y column of the rows kept, `predictSet` predicts every sample of a set
  against that set, and `MSE` is the mean of the squared differences.

Modules, in dependency order:

* `Sorting` (`sorting.dfy`): the stable sort `SortBy` by a real key (an
  insertion sort), its independent specification (`SortedBy` and `WithKey`,
  the elements with one key in input order) and the slice `Take`.
* `Mapping` (`mapping.dfy`): `Map`, one result per input element in order,
  the shape of the loops in `classifyMesh` and `predictSet`.
* `Neighbours` (`neighbours.dfy`): points, chips, neighbour records, the
  distance and `k_nearest` as the method `KNearest` over the specification
  function `Nearest`.
* `Classification` (`classification.dfy`): the vote, `classifyChip`,
  `classifyMesh` and `classifyErrors`.
* `Regression` (`regression.dfy`): the buffer of `nearestX` as a
  two-dimensional `array`, `predictY`, `predictSet` and `MSE`.

Each loop of the source is a method with a loop invariant, proved equal to a
function of its inputs (`KNearest` to `Nearest`, `ClassifyChip` to `Vote`,
`ClassifyErrors` to `ErrorCount`, `NearestX` to `NearestRows`, ...); the
properties are lemmas about those functions. The functions the method
contracts point to are:

* `Neighbours.Nearest`: what `k_nearest` returns (kNearest.py:8-16), the
  first `k` of the stably sorted records of `Neighbours.Records`.
* `Regression.Buffer`: the 100-row buffer after the loop of
  kNearest.py:88-95, one row per sample in order, then padding rows.
* `Regression.NearestRows`: what `nearestX` returns (kNearest.py:97-99), the
  first `k` of the sorted buffer.
* `Classification.Truncate`: `int(...)` of a label (kNearest.py:54),
  truncation toward zero.
* `Classification.ErrorCount`: the number of chips of a set whose vote
  against the whole set differs from `Truncate` of their label
  (kNearest.py:49-58).

Where the documented intent and the code disagree, the model follows the
code:

* The intended prediction for samples `(1,10), (2,20), (3,30)` at query
  2.4 with `k = 2` is 25, the mean of the y values at x = 2 and x = 3. Because of the padding rows the code
  returns 0: the 97 padding rows are at distance 0 and the two rows kept are
  padding. `Regression.ThreeSampleExample` proves the 0, and
  `Regression.SmallSetPredictsZero` the general case.
* The documented intent calls an empty neighbour set a disallowed input for the
  mean. The code's buffer always has 100 rows, so with `k >= 1`, `predictY`
  never averages an empty selection, even on an empty training set.
* The documented intent asks for reported errors (invalid `k`, empty data set,
  length mismatch, malformed point). The code raises none of them. The model
  states the code's own demands as preconditions instead (see "Left out").
* The documented intent promises ties in `nearestX` broken by original order. The
  code uses numpy's default `argsort`, which does not promise that.

## Model

| member | source | states |
|---|---|---|
| Sorting.SortBy | kNearest.py:15 | the sort has the input's length and is a permutation of it (same multiset) |
| Sorting.SortBySorted | kNearest.py:15 | the sort is ordered by key, non-decreasing |
| Sorting.SortByStable | kNearest.py:15 | for every key value, the elements with that key keep their input order |
| Sorting.SortByCharacterized | kNearest.py:15 | a sequence is the sort of `s` exactly when it is ordered by key and keeps, per key value, the input order: the stable sort is unique |
| Sorting.WithKeyMembers | kNearest.py:15 | the per-key selection holds exactly the input's elements with that key |
| Sorting.Take | kNearest.py:16 | the slice `s[0:k]` for `k >= 1` is a prefix of `s` of length `min(k, |s|)` |
| Sorting.TakeSorted | kNearest.py:15-16 | the first `k` of the sort: `min(k, |s|)` long, ordered by key, a sub-multiset of the input |
| Sorting.TakeLeftOut | kNearest.py:15-16 | every element the cut leaves out has a key at least that of every element kept |
| Sorting.TakeStable | kNearest.py:15-16 | per key value, the elements kept are a prefix of that key's elements in input order |
| Sorting.TakeLeastKeys | kNearest.py:15-16 | with no key below `d0` and at least `k` elements at `d0`, the cut of the model's stable sort is the first `k` elements at `d0` in input order |
| Mapping.Map | kNearest.py:31-35 | one result per element, in order, entry `i` being the function applied to element `i` |
| Neighbours.SqDist | kNearest.py:11 | the squared distance is never negative and is zero exactly on equal points |
| Neighbours.KNearest | kNearest.py:4-18 | the loop, sort and slice of `k_nearest` compute `Nearest` |
| Neighbours.NearestSpec | kNearest.py:8-18 | `k_nearest` keeps `min(k, n)` records, ordered by distance, a sub-multiset of all the records, each a data-set chip with its own distance to the query |
| Neighbours.NearestLeftOut | kNearest.py:15-16 | a record not kept is at least as far as every record kept |
| Neighbours.NearestStable | kNearest.py:15-16 | at each distance, the records kept are the first ones at that distance in data-set order |
| Classification.Vote | kNearest.py:75-80 | the vote is 0 or 1, and 0 exactly when failed neighbours are a strict majority |
| Classification.ClassifyChip | kNearest.py:63-80 | the counting loop of `classifyChip` computes the vote |
| Classification.VotePermutation | kNearest.py:69-75 | two neighbour lists with the same elements get the same vote |
| Classification.FailCountRecords | kNearest.py:10-13 | pairing chips with distances keeps the number of failed chips |
| Classification.WholeSetVote | kNearest.py:15-16 | with `k` at least the data-set size, every query gets the majority vote of the whole set |
| Classification.ClassifyMesh | kNearest.py:21-36 | one vote per mesh point, in mesh order, each among the point's `k` nearest chips |
| Classification.ClassifyErrors | kNearest.py:39-60 | the counting loop gives the number of chips whose in-sample vote differs from `int` of their label, between 0 and the set size |
| Classification.OwnNearest | kNearest.py:11-16 | with distinct positions and `k = 1`, a chip's only neighbour is itself at distance 0 |
| Classification.NoErrorsWithOwnNeighbour | kNearest.py:47-60 | with distinct positions, labels 0 or 1 and `k = 1`, in-sample evaluation finds no error |
| Regression.NearestX | kNearest.py:83-99 | the buffer loop, the `argsort` and the slice compute `NearestRows`, the first `k` of the sorted 100-row buffer |
| Regression.NearestRowsSpec | kNearest.py:97-99 | `nearestX` returns `min(k, 100)` rows ordered by distance, a sub-multiset of the buffer, each a sample's row or a padding row |
| Regression.NearestRowsLeftOut | kNearest.py:97-99 | a buffer row not kept is at least as far as every row kept |
| Regression.SmallSetKeepsDistanceZero | kNearest.py:88-99 | with `n + k <= 100`, every row kept is at distance 0 |
| Regression.SmallSetKeepsPadding | kNearest.py:88-99 | with `n + k <= 100` and no sample at the query, the rows kept are all padding rows |
| Regression.PredictY | kNearest.py:107-123 | the mean of the y column of the rows `NearestRows` keeps; it lies between the least and the greatest of those y values, so it is never an empty mean: the padding keeps at least one row |
| Regression.FirstSampleAtQueryPredicts | kNearest.py:118-121 | with `k = 1`, a query at a sample's own x keeps the row of the first such sample (the model's stable tie choice) and predicts its y value |
| Regression.PredictYBounds | kNearest.py:118-121 | the prediction lies between any bounds on the y values of the rows kept |
| Regression.PredictYWithinSampleRange | kNearest.py:118-121 | when 0 and every sample's y lie in `[lo, hi]`, so does the prediction |
| Regression.SmallSetPredictsZero | kNearest.py:118-121 | with `n + k <= 100` and no sample at the query, the prediction is 0 whatever the samples' y values |
| Regression.ThreeSampleExample | kNearest.py:107-123 | samples `(1,10), (2,20), (3,30)`, query 2.4, `k = 2` predict 0 |
| Regression.PredictSet | kNearest.py:126-139 | one prediction per sample, in set order, each against the whole set |
| Regression.SumSquares | kNearest.py:104 | the sum of squared differences is never negative and is zero exactly on equal sequences |
| Regression.MSE | kNearest.py:102-104 | the mean squared error is never negative and is zero exactly when the predictions equal the real values |
| Regression.MSESymmetric | kNearest.py:104 | swapping real and predicted values leaves the error unchanged |

## Left out

- Floating point: numbers are exact reals; rounding, NaN and infinities are not modelled.
- Neighbours.SqDist: the model uses the squared Euclidean distance instead of `np.linalg.norm`'s square root. The square root is monotone, so the order and the records chosen are the same, but the recorded `distance` values are squares.
- The numpy machinery (`np.array`, `np.zeros`, slicing of rows, `np.square`, `np.subtract`, `.mean`, `np.average`) appears as sequences and plain arithmetic. The final `.T` of `predictSet` is left out: transposing a one-dimensional array leaves it unchanged.
- Regression.NearestRows: ties in the distance column are ordered by buffer position (a stable sort). numpy's default `argsort` does not promise any tie order. So where rows tie at the cut-off, `nearestX` may keep other rows than the model does, and `predictY` can then differ. `predictSet` always meets such a tie on sets of fewer than 100 samples: it queries at each sample's own x, where that sample's row ties at distance 0 with the padding rows. The model keeps the sample's row (with `k = 1` the prediction is the y value of the first sample at the query, `FirstSampleAtQueryPredicts`; for samples `(1, 10), (2, 20)` at 2 it is 20), while an unstable `argsort` may keep a padding row and give 0; so on such sets the values of `PredictSet` follow the stable tie choice. The properties `NearestRowsSpec`, `NearestRowsLeftOut`, `SmallSetKeepsDistanceZero`, `SmallSetKeepsPadding`, `PredictYBounds`, `PredictYWithinSampleRange` and `SmallSetPredictsZero` do not depend on the tie order.
- The list `chip_distances` that `nearestX` builds but never reads (kNearest.py:87, 95) is not modelled.
- Neighbours.Nearest, Regression.NearestRows: `k >= 1` is a precondition. Python's slice with `k <= 0` gives an empty list or drops elements from the end, and then `np.average` of nothing is NaN.
- Regression.NearestX: at most 100 samples is a precondition. With more, the code raises an index error at the 101st row.
- Regression.MSE: the two sequences must have equal, non-zero length. numpy broadcasts or fails on unequal lengths and gives NaN on empty input.
- Classification.Truncate: `int(chip[2])` is truncation toward zero of an exact real. Python's behaviour on NaN or infinite labels is not modelled.
- The documented error kinds (invalid `k`, empty data set, length mismatch, malformed point) are not raised by the code and are not modelled. A row with fewer than three columns cannot be expressed with the model's datatypes.
- Mesh points are points `(x1, x2)`: the code reads only their first two columns.
