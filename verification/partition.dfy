/** Vocabulary shared by both search routines: which index ranges the routines
    may read, what it means for a predicate to split a range into a true prefix
    and a false suffix, and the index where that split happens. */
module Partition {
  import opened Int32

  /** The caller's range `[low, high)` may be read. A range with `low >= high`
      is never read, so it imposes nothing on `a`. */
  predicate Readable<T>(a: seq<T>, low: int32, high: int32) {
    low >= high || (0 <= low && high as int <= |a|)
  }

  /** `pred` is true on a prefix of `a[low..high)` and false on the rest:
      once it fails at some index it fails at every later index of the range. */
  ghost predicate Partitioned<T>(a: seq<T>, low: int32, high: int32, pred: T -> bool) {
    && 0 <= low <= high
    && high as int <= |a|
    && forall i, j :: low as int <= i <= j < high as int && pred(a[j]) ==> pred(a[i])
  }

  /** `p` splits `a[low..high)`: `pred` holds on `[low, p)` and fails on `[p, high)`. */
  ghost predicate IsPartitionPoint<T>(a: seq<T>, low: int32, high: int32, pred: T -> bool, p: int32) {
    && 0 <= low <= p <= high
    && high as int <= |a|
    && (forall i :: low as int <= i < p as int ==> pred(a[i]))
    && (forall i :: p as int <= i < high as int ==> !pred(a[i]))
  }

  /** A range has at most one partition point. */
  lemma PartitionPointUnique<T>(a: seq<T>, low: int32, high: int32, pred: T -> bool, p: int32, q: int32)
    requires IsPartitionPoint(a, low, high, pred, p)
    requires IsPartitionPoint(a, low, high, pred, q)
    ensures p == q
  {
    // The smaller of the two is a witness: were they different, it would lie
    // before one point and at the other, so `pred` would both hold and fail there.
    var m := if p < q then p else q;
    if m < high {
      assert (m < p <==> pred(a[m])) && (pred(a[m]) <==> m < q);
    }
  }

  /** Only a partitioned range has a partition point. */
  lemma PartitionPointImpliesPartitioned<T>(a: seq<T>, low: int32, high: int32, pred: T -> bool, p: int32)
    requires IsPartitionPoint(a, low, high, pred, p)
    ensures Partitioned(a, low, high, pred)
  {
  }
}
