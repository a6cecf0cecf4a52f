/** The two generic binary searches: `lower_bound`, which compares each probed
    element with a value, and `lower_bound_pred`, which asks a predicate.
    Indices are C++ `int`s (`int32`); the array is an immutable sequence, so
    neither routine can write to it. */
module BinarySearch {
  import opened Int32
  import opened Partition

  /** The probe `low + (high - low) / 2`. Written this way no intermediate value
      leaves `int32` (Dafny checks every step of the body), and it is still the
      mathematical midpoint rounded down. Since `high - low > 0`, C++'s
      truncating division agrees with Dafny's. */
  function Midpoint(low: int32, high: int32): (mid: int32)
    requires low < high
    requires high as int - low as int <= MaxInt32
    ensures low <= mid < high
    ensures mid as int == (low as int + high as int) / 2
  {
    low + (high - low) / 2
  }

  /** The search loop unrolled into recursion, one call per iteration: the
      reference both loops are proved to follow step for step, for every input. */
  function SearchBy<T>(a: seq<T>, low: int32, high: int32, pred: T -> bool): (r: int32)
    requires Readable(a, low, high)
    ensures low >= high ==> r == low
    ensures low < high ==> low <= r <= high
    decreases high as int - low as int
  {
    if low < high then
      var mid := Midpoint(low, high);
      if pred(a[mid]) then SearchBy(a, mid + 1, high, pred) else SearchBy(a, low, mid, pred)
    else
      low
  }

  /** On a partitioned range the search returns the partition point: `pred`
      holds on every element before the result and fails on every element
      from the result up to `high`. */
  lemma {:induction false} SearchByFindsPartitionPoint<T>(a: seq<T>, low: int32, high: int32, pred: T -> bool)
    requires Partitioned(a, low, high, pred)
    ensures IsPartitionPoint(a, low, high, pred, SearchBy(a, low, high, pred))
    decreases high as int - low as int
  {
    if low < high {
      var mid := Midpoint(low, high);
      if pred(a[mid]) {
        SearchByFindsPartitionPoint(a, mid + 1, high, pred);
      } else {
        SearchByFindsPartitionPoint(a, low, mid, pred);
      }
    }
  }

  /** On a partitioned range an index is the search's answer exactly when it
      is the partition point. */
  lemma SearchByCharacterised<T>(a: seq<T>, low: int32, high: int32, pred: T -> bool, p: int32)
    requires Partitioned(a, low, high, pred)
    ensures SearchBy(a, low, high, pred) == p <==> IsPartitionPoint(a, low, high, pred, p)
  {
    SearchByFindsPartitionPoint(a, low, high, pred);
    if IsPartitionPoint(a, low, high, pred, p) {
      PartitionPointUnique(a, low, high, pred, SearchBy(a, low, high, pred), p);
    }
  }

  /** The search looks at nothing but `pred` applied to `a[low..high)`: two
      inputs that agree there give the same answer. In particular no element
      outside the caller's range is ever read. */
  lemma {:induction false} SearchByLocal<T>(a: seq<T>, b: seq<T>, low: int32, high: int32, p: T -> bool, q: T -> bool)
    requires Readable(a, low, high) && Readable(b, low, high)
    requires forall i :: low as int <= i < high as int ==> p(a[i]) == q(b[i])
    ensures SearchBy(a, low, high, p) == SearchBy(b, low, high, q)
    decreases high as int - low as int
  {
    if low < high {
      var mid := Midpoint(low, high);
      assert p(a[mid]) == q(b[mid]);
      SearchByLocal(a, b, mid + 1, high, p, q);
      SearchByLocal(a, b, low, mid, p, q);
    }
  }

  /** `lower_bound_pred`: the leftmost point of `[low, high]` where `pred`
      stops holding. */
  method LowerBoundPred<T>(a: seq<T>, low: int32, high: int32, pred: T -> bool) returns (r: int32)
    requires Readable(a, low, high)
    ensures r == SearchBy(a, low, high, pred)
    ensures low >= high ==> r == low
    ensures low < high ==> low <= r <= high
    ensures Partitioned(a, low, high, pred) <==> IsPartitionPoint(a, low, high, pred, r)
    ensures low <= high && (forall i :: low as int <= i < high as int ==> pred(a[i])) ==> r == high
    ensures low <= high && (forall i :: low as int <= i < high as int ==> !pred(a[i])) ==> r == low
  {
    var lo, hi := low, high;
    while lo < hi
      invariant Readable(a, lo, hi)
      invariant low < high ==> low <= lo <= hi <= high
      invariant low >= high ==> lo == low && hi == high
      invariant SearchBy(a, lo, hi, pred) == SearchBy(a, low, high, pred)
      // the bracket: on a partitioned range, everything left of `lo` satisfies
      // `pred` and everything from `hi` on fails it
      invariant Partitioned(a, low, high, pred) ==>
                  && (forall i :: low as int <= i < lo as int ==> pred(a[i]))
                  && (forall i :: hi as int <= i < high as int ==> !pred(a[i]))
      decreases hi as int - lo as int
    {
      var mid := Midpoint(lo, hi);
      if pred(a[mid]) {
        lo := mid + 1;
      } else {
        hi := mid;
      }
    }
    r := lo;
    if IsPartitionPoint(a, low, high, pred, r) {
      PartitionPointImpliesPartitioned(a, low, high, pred, r);
    }
    // A predicate that holds everywhere, or nowhere, partitions the range trivially.
    if low < high && (forall i :: low as int <= i < high as int ==> pred(a[i])) {
      assert Partitioned(a, low, high, pred);
      PartitionPointUnique(a, low, high, pred, r, high);
    }
    if low < high && (forall i :: low as int <= i < high as int ==> !pred(a[i])) {
      assert Partitioned(a, low, high, pred);
      PartitionPointUnique(a, low, high, pred, r, low);
    }
  }

  /** The predicate `lower_bound` evaluates on each probe: `x < v` under the
      element type's `operator<`, here the parameter `less`. */
  function Below<T>(less: (T, T) -> bool, v: T): T -> bool {
    x => less(x, v)
  }

  /** `lower_bound`: the leftmost point of `[low, high]` whose element is not
      less than `v`. Its loop is `lower_bound_pred`'s with the comparison
      written in place of the predicate call. */
  method LowerBound<T>(a: seq<T>, low: int32, high: int32, v: T, less: (T, T) -> bool) returns (r: int32)
    requires Readable(a, low, high)
    ensures r == SearchBy(a, low, high, Below(less, v))
    ensures low >= high ==> r == low
    ensures low < high ==> low <= r <= high
    ensures Partitioned(a, low, high, Below(less, v)) ==>
              && low <= r <= high
              && (forall i :: low as int <= i < r as int ==> less(a[i], v))
              && (forall i :: r as int <= i < high as int ==> !less(a[i], v))
  {
    var lo, hi := low, high;
    while lo < hi
      invariant Readable(a, lo, hi)
      invariant low < high ==> low <= lo <= hi <= high
      invariant low >= high ==> lo == low && hi == high
      invariant SearchBy(a, lo, hi, Below(less, v)) == SearchBy(a, low, high, Below(less, v))
      decreases hi as int - lo as int
    {
      var mid := Midpoint(lo, hi);
      if less(a[mid], v) {
        lo := mid + 1;
      } else {
        hi := mid;
      }
    }
    r := lo;
    if Partitioned(a, low, high, Below(less, v)) {
      SearchByFindsPartitionPoint(a, low, high, Below(less, v));
    }
  }
}
