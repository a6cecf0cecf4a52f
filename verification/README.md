# lower_bound — a verified model of a binary search for an insertion point

The modelled code is a single C++ file, `2016-01-29/src/lower_bound.cpp`, with
four functions:

- `lower_bound(a, low, high, v)` returns the leftmost index of `[low, high]`
  whose element is not less than `v`. On a sorted range this is the point where
  `v` can be inserted without breaking the order.
- `lower_bound_pred(a, low, high, pred)` runs the same loop but asks `pred`
  instead of comparing. It returns the point where a true-then-false predicate
  first fails.
- `lower_bound_1` binds `lower_bound` to `int`.
- `lower_bound_2` builds the closure `x < v` and passes it to `lower_bound_pred`.

The Dafny project has four modules:

- `Int32` (`int32.dfy`): the C++ `int` as the newtype `int32`. Every index
  computation of the loop is done in `int32`, so the verifier checks that none
  of them overflows.
- `Partition` (`partition.dfy`): the vocabulary. `Readable` says which inputs
  may be read. `Partitioned` says a predicate is true on a prefix of a range
  and false on the rest. `IsPartitionPoint` names the index where it changes.
- `BinarySearch` (`lower_bound.dfy`): both generic loops as methods. It also
  holds `SearchBy`, a recursive function that makes one call per loop
  iteration. Both loops are proved to compute exactly `SearchBy`, for every
  input. The generic `operator<` becomes an explicit `less` parameter.
- `IntSearch` (`int_search.dfy`): the two `int` wrappers, their equivalence,
  and the properties of the lower bound on sorted ranges.

The array `const T*` is modelled as a `seq<T>`. A sequence is an immutable
value, so neither routine can write to the array. Only the range
`[low, high)` must be readable, and only when `low < high`. With
`low >= high` the loop never runs and `low` is returned, as in the
unchecked C++.

## Model

| member | source | states |
|---|---|---|
| `Partition.PartitionPointUnique` | 2016-01-29/src/lower_bound.cpp:13-23 | a range has at most one index where a predicate changes from true to false, so "the" answer of the search is well defined |
| `Partition.PartitionPointImpliesPartitioned` | 2016-01-29/src/lower_bound.cpp:13-23 | if a partition point exists, the predicate is monotone (true-prefix, false-suffix) over the range |
| `BinarySearch.Midpoint` | 2016-01-29/src/lower_bound.cpp:4 | the probe `low + (high - low) / 2` lies in `[low, high)` and equals the mathematical midpoint rounded down; no intermediate value leaves the 32-bit `int` range |
| `BinarySearch.SearchBy` | 2016-01-29/src/lower_bound.cpp:15-22 | the loop terminates, since `high - low` shrinks each step; an empty or inverted range (`low >= high`) returns `low`; otherwise the result lies in `[low, high]` |
| `BinarySearch.SearchByFindsPartitionPoint` | 2016-01-29/src/lower_bound.cpp:13-23 | on a partitioned range the result is the partition point: `pred` holds on `[low, r)` and fails on `[r, high)` |
| `BinarySearch.SearchByCharacterised` | 2016-01-29/src/lower_bound.cpp:13-23 | on a partitioned range an index is the result exactly when it is the partition point (both directions) |
| `BinarySearch.SearchByLocal` | 2016-01-29/src/lower_bound.cpp:15-17 | the result depends only on `pred` applied to `a[low..high)`, so no element outside the caller's range is ever read |
| `BinarySearch.LowerBoundPred` | 2016-01-29/src/lower_bound.cpp:13-23 | the loop computes `SearchBy`; the result is the partition point exactly when the range is partitioned; all-true gives `high`, all-false gives `low`, an empty or inverted range gives `low` |
| `BinarySearch.LowerBound` | 2016-01-29/src/lower_bound.cpp:1-11 | the comparison loop computes `SearchBy` with the predicate `x < v`, for every input; on a range partitioned by `x < v` the elements before the result are less than `v` and those from it on are not |
| `IntSearch.SortedIsPartitioned` | 2016-01-29/src/lower_bound.cpp:5 | an ascending range is partitioned by `x < v` for every `v`, which is what the search needs |
| `IntSearch.WrappersAgree` | 2016-01-29/src/lower_bound.cpp:25-32 | comparing with `<` and asking the closure `x < v` give the same search result on every readable input, sorted or not |
| `IntSearch.LowerBound1` | 2016-01-29/src/lower_bound.cpp:25-27 | returns the common search result; on a sorted range it is the first index whose element is `>= v`, with every earlier element `< v` |
| `IntSearch.LowerBound2` | 2016-01-29/src/lower_bound.cpp:29-32 | returns the same value as `LowerBound1`, with the same partition guarantee on sorted ranges |
| `IntSearch.LowerBoundMonotone` | 2016-01-29/src/lower_bound.cpp:1-11 | on a sorted range, `v1 <= v2` implies that the lower bound of `v1` is at most that of `v2` |
| `IntSearch.InsertionKeepsSorted` | 2016-01-29/src/lower_bound.cpp:1-11 | inserting `v` at the returned index keeps the range sorted |
| `IntSearch.Example` | 2016-01-29/src/lower_bound.cpp:1-11 | on `[1, 3, 3, 5, 7]` the result is 0 for `v <= 1`, 1 for `v` in 2..3, 3 for 4..5, 4 for 6..7 and 5 above 7 |

## Left out

- C++ template and pointer mechanics: the element type is a type parameter `T`, `operator<` is the parameter `less`, and the array is a `seq`.
- The predicate is modelled as a pure total function `T -> bool`. A predicate with side effects or one that can throw is not modelled.
- Complexity (the number of probes, O(log(high - low))) is not stated. The code does not express it as behaviour.
- Input validation: the code performs none, and the model follows the unchecked behaviour (`low >= high` returns `low`). The model does require the probed range to be readable, because out-of-range reads are undefined behaviour in C++.
- The element type of the `int` wrappers is `int32`. Comparing two elements cannot overflow, so nothing about their width matters beyond the type.
