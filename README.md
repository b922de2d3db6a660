# arr.js in Dafny

A Dafny model of `Arr`, a small JavaScript helper library for N-dimensional
arrays stored as nested arrays or as flat row-major buffers. The model covers
these operations:

- `group`, `reshape` and `reduceDimensions`: grouping and reshaping;
- `pointToIndex` and `indexToPoint`: row-major conversion between a point
  and an index;
- `sum`, `prod`, `manhattanDistance`, `max` and `min`: reductions;
- `neighbors`: enumeration of the neighbours of a cell, with or without
  wrapping at the edges;
- `areEqualSets`: set comparison.

The model follows the library's own form. Each operation that works with a
loop becomes a method with that loop, proved equal to a specification
function. For example, `Group` is proved to compute `Chunks`, and `Neighbors`
to compute `NeighborsOf`. The properties the library promises are then
proved about those functions. The expression-only operations are plain
functions. These are `sum`, `prod`, `manhattanDistance`, `max`, `min` and
the local `mod` of `neighbors`.

Modules (one file each):

| file | module | models |
|---|---|---|
| `arith.dfy` | `Arith` | division facts; JavaScript's `%` (`JsRem`) |
| `reductions.dfy` | `Reductions` | `sum`, `prod`, `manhattanDistance`, `max`, `min`; reference `Total` / `Product` |
| `nested.dfy` | `NestedArrays` | nested arrays (`Leaf` / `Node`); `_.flatten` deep (`Flatten`) and one level (`FlattenOnce`) |
| `grouping.dfy` | `Grouping` | `group`, `reshape`, `reduceDimensions` |
| `coordinates.dfy` | `Coordinates` | `pointToIndex`, `indexToPoint` |
| `neighbors.dfy` | `Neighborhood` | `neighbors` with its local `mod` and `expand`; `_.uniq` |
| `sets.dfy` | `SetEquality` | `areEqualSets` with the in-place `sort` |

Modelling choices:

- JavaScript numbers are modelled as unbounded integers.
- JavaScript's `%` truncates toward zero and keeps the sign of the
  dividend. It is written out as `Arith.JsRem`, so `mod(m, n)` is
  `((m % n) + n) % n` over that operator.
- In `indexToPoint`, the division of the running multiplier and the
  `Math.floor(index / multiplier)` step are modelled as exact integer
  division. This holds because, with positive sizes, the multiplier always
  divides the product of the sizes.
- `Math.ceil((dimensionLength - 1) / 2)` is modelled as `CeilHalf`.
- `Math.max.apply` and `Math.min.apply` return `-Infinity` and `Infinity`
  for an empty array. The `Extended` datatype models these two values.

## Model

| member | source | states |
|---|---|---|
| Grouping.Group | src/arr.js:34-52 | the loop that closes a run at each positive multiple of `numPerGroup` and keeps a non-empty final run returns exactly `Chunks(elements, numPerGroup)` |
| Grouping.ChunksIsChunking | src/arr.js:34-52 | the groups concatenate back to the input in order; every group has 1..`numPerGroup` elements, all but the last exactly `numPerGroup`; so an empty input gives no group and no group is ever empty |
| Grouping.ChunkingUnique | src/arr.js:34-52 | only one split has those three properties, so they describe `group` completely |
| Grouping.ChunksExact | src/arr.js:34-52 | `n * m` elements split into exactly `m` groups, each of `n` elements |
| Grouping.ChunksMembers | src/arr.js:34-52 | every element of a group is an element of the input |
| Grouping.GroupExamples | test/arr_test.js:5-22 | `[1..6]` in runs of 2 is `[[1,2],[3,4],[5,6]]`; `[1..7]` adds the partial run `[7]` |
| Grouping.Reshape | src/arr.js:61-71 | the loop that deep-flattens, groups from the last axis to the first and flattens one level returns exactly `Reshaped(elements, dimensions)` |
| Grouping.RegroupFlatten | src/arr.js:65-68 | the grouping passes add nesting only: deep flattening their result gives back the flat input |
| Grouping.ReshapePreservesOrder | src/arr.js:61-71 | for any positive dimensions, flattening the result of `reshape` gives the same numbers in the same order as flattening the input |
| Grouping.RegroupShape | src/arr.js:65-68 | `Product(dims) * m` numbers group into exactly `m` full arrays of shape `dims` |
| Grouping.ReshapeShape | src/arr.js:61-71 | when the input holds exactly `Product(dims)` numbers, the result is a full array of shape `dims` |
| Grouping.ReshapeCharacterized | src/arr.js:61-71 | any array of shape `dims` holding the input's numbers in order is the result of `reshape` |
| Grouping.ReshapeExamples | test/arr_test.js:28-51 | `[[1,2],[3,4],[5,6]]` reshaped to `[6]` is `[1..6]`, to `[1,6]` is `[[1..6]]`; `[1..6]` reshaped to `[6]` is itself |
| Grouping.ReshapeExample432 | test/arr_test.js:53-70 | 1..24 in rows of 8, reshaped to `[4,3,2]`, is the 4 x 3 x 2 nesting of 1..24 |
| Grouping.Reduced | src/arr.js:80-92 | the reduced sizes have length `numDimensions`, keep the first `numDimensions - 1` sizes, and have the same product as the input (both the mathematical product and `prod`) |
| Grouping.ReduceDimensions | src/arr.js:80-92 | the copy loop and the loop that multiplies `result[numDimensions - 1]` in place return exactly `Reduced(dimensions, numDimensions)` |
| Grouping.ReduceDimensionsExamples | test/arr_test.js:77-103 | `[4,3,2]` reduces to `[4,6]`, `[24]` and `[4,3,2]`; `[10,4,3,2]` reduces to `[10,24]` |
| Coordinates.PointToIndex | src/arr.js:101-111 | the loop from the last axis with a running multiplier returns the row-major index `Linear(point, dimensions)` |
| Coordinates.IndexToPoint | src/arr.js:120-133 | the loop that starts from `prod(dimensions)` and divides one size out per axis returns `Delinear(index, dimensions)` |
| Coordinates.LinearBounds | src/arr.js:101-111 | the index of a valid point lies in `[0, Product(dims))` |
| Coordinates.PointRoundTrip | src/arr.js:101-133 | `indexToPoint(pointToIndex(p)) == p` for every valid point |
| Coordinates.IndexRoundTrip | src/arr.js:101-133 | for `0 <= index < Product(dims)` the point has one coordinate per axis, each in `[0, dims[a])`, and `pointToIndex` maps it back to `index` |
| Coordinates.LinearInjective | src/arr.js:101-111 | distinct valid points have distinct indices |
| Coordinates.LinearExamples | src/arr.js:101-133 | `[3,4]` in `[10,20]` is index 64, `[9,19]` is 199, and 64 maps back to `[3,4]` |
| Reductions.Sum | src/arr.js:157-163 | `sum` (0 for an empty array, else `_.reduce` with `+`) is the mathematical sum `Total` |
| Reductions.Prod | src/arr.js:171-177 | `prod` (`_.reduce` with `*`) is the mathematical product `Product` on a non-empty array and 0, not 1, on an empty one |
| Reductions.ReductionExamples | src/arr.js:157-177 | `sum([]) == 0`, `prod([]) == 0`, `sum([3,4,5]) == 12`, `prod([3,4,5]) == 60` |
| Reductions.ManhattanDistance | src/arr.js:142-149 | the distance is the sum of the per-axis absolute differences, and is never negative |
| Reductions.ManhattanNonNegative | src/arr.js:142-149 | the distance of equal-length points is never negative and is 0 exactly when the points are identical |
| Reductions.ManhattanSymmetric | src/arr.js:142-149 | the distance does not depend on the order of the points |
| Reductions.ManhattanTriangle | src/arr.js:142-149 | the distance obeys the triangle inequality |
| Reductions.Max | src/arr.js:185-187 | `-Infinity` exactly for an empty array; otherwise an element of the array that is at least every element |
| Reductions.Min | src/arr.js:195-197 | `Infinity` exactly for an empty array; otherwise an element of the array that is at most every element |
| Neighborhood.Mod | src/arr.js:229-231 | for a positive modulus, `mod` over JavaScript's truncating `%` lands in `[0, n)` |
| Neighborhood.CeilHalf | src/arr.js:235 | `Math.ceil(x / 2)`: the least `r` with `x <= 2 * r`, so `x <= 2 * r <= x + 1` |
| Neighborhood.EffectiveRadius | src/arr.js:235-236 | `Math.min(radius, maxRadius)`: at most both, and equal to one of them, with `maxRadius` half the axis rounded up when wrapping and the axis length minus one otherwise |
| Neighborhood.ModIsEuclidean | src/arr.js:229-231 | for a positive modulus, `((m % n) + n) % n` over the truncating `%` is the Euclidean remainder, in `[0, n)` for negative `m` too |
| Neighborhood.Expand | src/arr.js:232-253 | the loop over `pos - effectiveRadius .. pos + effectiveRadius` that wraps or skips out-of-range offsets returns each retained coordinate of the window, in order, put in front of a copy of `neighbor` |
| Neighborhood.ExpandAll | src/arr.js:256-257 | mapping `expand(pos, dimensionLength)` over the partial points and flattening one level returns every partial point expanded along that axis, in order (`ExpandEach`) |
| Neighborhood.PointsToIndices | src/arr.js:260-266 | mapping `pointToIndex` over the candidate points returns the row-major index of each, in order |
| Neighborhood.Neighbors | src/arr.js:225-267 | the method (point, expansion from the last axis, indices, `_.uniq`) returns exactly `NeighborsOf(index, radius, dimensions, wrap)` |
| Neighborhood.Uniq | src/arr.js:266 | `_.uniq` keeps exactly the values of its input and repeats none of them |
| Neighborhood.UniqOfDistinct | src/arr.js:266 | `_.uniq` leaves a sequence without repeats unchanged |
| Neighborhood.UniqDropsRepeat | src/arr.js:266 | `_.uniq` keeps first occurrences: a value already seen is dropped |
| Neighborhood.WindowMembers | src/arr.js:238-249 | a coordinate is in the window exactly when some offset of the window lands on it (itself on the axis; its `mod` when wrapping) |
| Neighborhood.BoxMembers | src/arr.js:255-258 | the candidate points are exactly the points whose every coordinate is one its axis produces around the centre |
| Neighborhood.NeighborsMembers | src/arr.js:225-267 | an index is a neighbour exactly when it is in `[0, Product(dims))` and each coordinate of its point is one its axis produces |
| Neighborhood.NeighborsInRange | src/arr.js:225-267 | every neighbour lies in `[0, Product(dims))`, and no neighbour is repeated |
| Neighborhood.NeighborsContainsCenter | src/arr.js:225-267 | for a valid index and `radius >= 0` the index is its own neighbour |
| Neighborhood.NoWrapAxis | src/arr.js:235-244 | without wrapping an axis produces exactly the coordinates on the axis within `radius` of the centre |
| Neighborhood.WrapAxis | src/arr.js:235-244 | with wrapping an axis produces exactly the coordinates within ring distance `radius` of the centre; the cap at half the axis loses none |
| Neighborhood.NeighborsNoWrap | src/arr.js:225-267 | without wrapping, the neighbours are exactly the indices of the grid whose point is within `radius` of the centre on every axis |
| Neighborhood.NeighborsWrap | src/arr.js:225-267 | with wrapping, the neighbours are exactly the indices of the grid whose point is within ring distance `radius` of the centre on every axis |
| Neighborhood.WrapWindowDistinct | src/arr.js:238-249 | with wrapping, a window no wider than the axis produces no coordinate twice |
| Neighborhood.RingWindowUnique | src/arr.js:235-266 | when twice the effective radius is less than the axis, `_.uniq` drops nothing from a wrapped window |
| Neighborhood.NeighborsOnLine | src/arr.js:225-267 | on one axis the neighbours are that axis's window with repeats dropped |
| Neighborhood.NeighborsLineExample | src/arr.js:225-267 | on a line of 10, radius 2 around 0 without wrapping gives `[0, 1, 2]` |
| Neighborhood.NeighborsRingExample | src/arr.js:225-267 | on a ring of 10, radius 2 around 0 gives `[8, 9, 0, 1, 2]` |
| Neighborhood.NeighborsRingCappedExample | src/arr.js:225-267 | on a ring of 10, radius 100 around 3 is capped at 5 and gives `[8, 9, 0, 1, ..., 7]`, the second 8 dropped |
| Neighborhood.NeighborsGridExample | src/arr.js:225-267 | on a 20 x 10 grid, radius 2 around 0 gives `[0, 10, 20, 1, 11, 21, 2, 12, 22]`: the first axis varies fastest |
| SetEquality.Sort | src/arr.js:277 | `array.sort()` leaves the array sorted and holding the same elements |
| SetEquality.Insert | src/arr.js:277 | one insertion step of the sort: moving `a[i]` down leaves `a[..i + 1]` sorted, keeps the elements, and leaves `a[i + 1..]` as it was |
| SetEquality.SortedUnique | src/arr.js:277 | two sorted sequences with the same elements are equal, so comparing sorted copies decides multiset equality |
| SetEquality.AreEqualSets | src/arr.js:276-278 | returns true exactly when the two arrays hold the same elements with the same multiplicities; both arrays are left sorted with their elements kept |

## Left out

- `Arr.normalize` (src/arr.js:206-214) uses floating-point division and
  yields `Infinity` or `NaN` when the maximum is 0. This integer model
  does not cover it.
- JavaScript numbers are doubles. The model uses unbounded integers, so
  fractions, `NaN`, `-0` and precision loss above 2^53 are not modelled.
- `Grouping.Group`, `Grouping.Reshape`: require positive group sizes and
  dimensions. The library does not define `numPerGroup <= 0`.
- `Grouping.ReduceDimensions`: requires `1 <= numDimensions <= |dimensions|`.
  Outside that range the library reads missing entries or writes to index -1.
- `Coordinates.PointToIndex`: requires the point and the dimensions to have
  the same length. A shorter point makes the library compute with
  `undefined`.
- `Coordinates.IndexToPoint`, `Neighborhood.Neighbors`: require positive
  dimensions. A zero size makes the library divide by zero.
- `Reductions.ManhattanDistance`: requires points of equal length. A longer
  second point is ignored past the first point's length, and a shorter one
  gives `NaN`.
- `SetEquality.Sort`: sorts by numeric order, while `array.sort()` with no
  comparator compares the numbers as strings. The result of `AreEqualSets`
  is the same under any total order, because sorted sequences with the same
  elements are equal under any such order. What differs is the order in
  which the caller's arrays are left.
- `SetEquality.AreEqualSets`: `_.isEqual` is modelled as sequence equality
  on integers. Its special cases for `-0` and `NaN` are not modelled.
- The underscore library itself is not modelled. Only the semantics used
  are defined: deep and one-level `_.flatten`, order-preserving `_.uniq`,
  `_.map`, `_.reduce` without a seed, and copying a point before it is
  extended (`_.clone`).
