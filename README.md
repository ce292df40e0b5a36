# dml: column statistics, sampling and rescaling, in Dafny

This project models the numeric core of `dml.c`, a small C library that
machine-learning code uses on a table loaded from a `.csv` file (`csvData_t`:
`rows`, `cols` and the cells `dataFrame[row][col]`). It covers:

- the column statistics `mean`, `median` and `standardDeviation`;
- `randomDataStream`, which draws cells of the table into a fresh buffer;
- the two rescalings `scaleToUnity` and `scaleVector`;
- the helpers `compareVectors` and `createFloatVector`.

The model keeps the shape of the C code. Each routine that loops and writes a
buffer is a Dafny `method` with the same loop, proved against a specification
function. The table is only read, so it is a datatype value (`Frame.CsvData`)
whose `Valid()` states what the loader guarantees: `rows > 0`, `cols > 0`,
and every row has `cols` cells. C `float` is modelled as `real`.

Modules, one per part of the library:

- `Frame` (frame.dfy): the table, its columns and `createFloatVector`.
- `Order` (order.dfy): `compareVectors` and the ascending sort `median` gets from `qsort`.
- `Statistics` (statistics.dfy): `mean`, `median`, `standardDeviation`.
- `Sampler` (sampler.dfy): `randomDataStream`.
- `Scaler` (scaler.dfy): `scaleToUnity`, `scaleVector`.

Where the doc comments and the code disagree, the model follows the code:

- `standardDeviation` is documented as taking a square root (dml.c:287-290).
  The code returns the sum of squared distances divided by `rows` (dml.c:311).
  That is the population variance, so `Statistics.StandardDeviation` returns
  `Variance`. `Statistics.VarianceExample` shows the value 4 on a column whose
  standard deviation would be 2.
- `median` is documented as taking the median of a sorted copy
  (dml.c:244-246). The code sorts a copy, then selects from the unsorted table
  (dml.c:266-269). See "## Findings".
- The code checks nothing: no empty table, no column out of range, no zero
  span. What it needs of its callers is stated as `requires`. The table is
  non-empty by `Valid()`, `0 <= col < cols` is required, and the bounds given
  to the scalers must differ.

## Model

| member | source | states |
|---|---|---|
| `Frame.CreateFloatVector` | dml.c:162-167 | returns a freshly allocated buffer of exactly `len` cells |
| `Order.CompareVectors` | dml.c:228-231 | the result is -1 exactly when `a < b`, 0 exactly when `a == b`, and 1 exactly when `a > b` |
| `Order.CompareAntisymmetric` | dml.c:228-231 | swapping the two arguments negates the result |
| `Order.CompareTransitive` | dml.c:228-231 | the comparator is transitive, so `qsort` gets a consistent total preorder |
| `Order.SortedOf` | dml.c:259-264 | the sorted copy of a column is ascending under `compareVectors` and holds the same values, with multiplicity |
| `Order.AscendingPermutationUnique` | dml.c:264 | two ascending permutations of the same values are equal, so whatever algorithm `qsort` runs determines one result |
| `Order.AscendingIsSorted` | dml.c:264 | sorting an already ascending sequence leaves it unchanged |
| `Order.Sort` | dml.c:264 | afterwards the buffer is ascending under `compareVectors`, a permutation of what it held, and equal to `SortedOf` its old contents |
| `Statistics.Mean` | dml.c:191-201 | the loop's running sum is the column sum, and the result is that sum divided by `rows` |
| `Statistics.AverageOfConstant` | dml.c:191-201 | a column whose cells all equal `v` has mean `v` |
| `Statistics.AverageBounds` | dml.c:191-201 | the mean lies between any lower and upper bound of the column |
| `Statistics.StandardDeviation` | dml.c:300-312 | the result is the sum of squared distances from the mean divided by `rows`, that is the population variance, with no square root |
| `Statistics.VarianceNonNegative` | dml.c:300-312 | the value `standardDeviation` returns is never negative |
| `Statistics.VarianceOfConstant` | dml.c:300-312 | on a constant column `standardDeviation` returns 0 |
| `Statistics.VarianceExample` | dml.c:311 | on the column 2, 4, 4, 4, 5, 5, 7, 9 the result is 4: the variance, where the documented square root would give 2 |
| `Statistics.MiddleValue` | dml.c:266-269 | the selection picks index `(rows-1)/2` for odd `rows` and averages indices `rows/2` and `rows/2 - 1` for even `rows`; on an ascending sequence the result lies between the first and the last element |
| `Statistics.Median` | dml.c:256-274 | copies the column into a fresh scratch buffer, sorts it and returns the middle of the sorted copy, which is the median of the column; the table is not written |
| `Statistics.PositionalMedian` | dml.c:266-269 | the code as written: the middle of the column in stored order, read from the table rather than from the sorted buffer |
| `Statistics.PositionalMedianOfAscendingColumn` | dml.c:266-269 | when the column is already ascending, the code's positional read equals the median of the sorted copy |
| `Statistics.PositionalMedianCounterexample` | dml.c:266-269 | on the column 5, 1, 3 the code returns 1, while the median of the sorted copy is 3 |
| `Statistics.MedianOfConstant` | dml.c:256-274 | a column whose cells all equal `v` has median `v` |
| `Statistics.MedianBounds` | dml.c:256-274 | the median lies between any lower and upper bound of the column |
| `Sampler.CellAt` | dml.c:131-134 | the value picked by one pair of raw `rand()` results, reduced `% rows` and `% cols`, is a cell of the table |
| `Sampler.RandomDataStream` | dml.c:123-138 | returns a fresh buffer of exactly `numOfData` values; value `num` is the cell picked by the `num`-th pair of draws |
| `Sampler.SampleFromTable` | dml.c:123-138 | a caller gets exactly `numOfData` values, an empty stream for zero, and every value is some cell `dataFrame[x][y]` with `0 <= x < rows` and `0 <= y < cols` |
| `Scaler.ScaleToUnity` | dml.c:347-357 | returns a fresh buffer of `vectorLen` elements, element `i` being input element `i` divided by `upperBound - lowerBound`; the input is not written |
| `Scaler.UnityIsRescale` | dml.c:353 | dividing by the span is the affine rescaling of `[0, upper - lower]` onto `[0, 1]`: it does not subtract the lower bound |
| `Scaler.UnityInverse` | dml.c:353 | multiplying a unity-scaled element by the span gives the element back |
| `Scaler.UnityOfHalfSpan` | dml.c:353 | with bounds 0 and `2x`, the value `x` scales to 0.5 |
| `Scaler.ScaleVector` | dml.c:397-410 | returns a fresh buffer of `vectorLen` elements, element `i` being `vector[i] * scale + offset` with `scale` and `offset` as the code computes them; the input is not written |
| `Scaler.RescaleIsMinMax` | dml.c:401-406 | `x * scale + offset` equals the min-max formula `newLow + (x - lower) / (upper - lower) * (newUp - newLow)` |
| `Scaler.RescaleEndpoints` | dml.c:401-406 | `lowerBound` maps to `newLowBound` and `upperBound` maps to `newUpBound` |
| `Scaler.RescaleInverse` | dml.c:401-406 | rescaling again with the old and new bounds swapped gives back the original value, whenever both spans are nonzero |
| `Scaler.ScaleVectorRoundTrip` | dml.c:397-410 | calling `scaleVector` on its own output with the bounds swapped restores the input buffer's elements |

## Left out

- `head` and `tail` (dml.c:47-91) only print rows with `printf`. They have no logic to prove.
- `srand(time(NULL))` and `rand()` (dml.c:127, 131-132) are replaced by a caller-supplied sequence of raw nonnegative `rand()` results, one pair per sample. The uniform distribution is not modelled. Reseeding from the clock on every call is not modelled either.
- `malloc`, `free` and the missing NULL checks (dml.c:125, 164, 259, 271, 349, 399) become fresh Dafny arrays. An allocation never fails, and freeing is left to the runtime.
- `float` rounding, NaN and overflow are not modelled: cells are exact `real`s. The inverse of `scaleVector` is exact only over the reals.
- `qsort` is library code that is not part of this model. `Order.Sort` is an insertion sort that meets `qsort`'s contract: ascending under the comparator, and a permutation.
- The loader behind `csvData_t` (`open_csv.h`) is not part of this model. Its result is taken to be a rectangular table with `rows > 0` and `cols > 0`.
- A negative `numOfData` or `vectorLen` is not modelled: both are `nat`. In C the loop would not run, but `malloc` would get a huge size.
- `Statistics.Mean`, `Statistics.Median`, `Statistics.StandardDeviation`: an empty table (C divides by zero or reads past the column) and a column index out of range (undefined behaviour in C) are excluded by `requires`. They are not modelled as error results.
- `Scaler.ScaleToUnity`, `Scaler.ScaleVector`: equal old bounds give C an infinite or NaN result. This is excluded by `requires`.

## Findings

| source | as written | input that shows it | evidently intended | confidence | as-written member | corrected member |
|---|---|---|---|---|---|---|
| dml.c:266-269 | the median is selected from `df->dataFrame[..][col]`, the unsorted column, and the sorted copy `sortedFeature` is freed unused | a one-column table holding 5, 1, 3 gives 1 | select from `sortedFeature`, as the doc comment at dml.c:244-246 says, giving 3 | high (not executed) | `Statistics.PositionalMedianCounterexample` | `Statistics.Median` |
