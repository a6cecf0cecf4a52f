/** `lower_bound_1` and `lower_bound_2`: the two searches bound to arrays of
    C++ `int`. The first passes `<` on `int32` to `lower_bound`; the second
    builds the closure `x < v` and hands it to `lower_bound_pred`. */
module IntSearch {
  import opened Int32
  import opened Partition
  import opened BinarySearch

  /** `operator<` on `int`, as a value that can be passed to `LowerBound`. */
  function IntLess(x: int32, y: int32): bool {
    x < y
  }

  /** The closure `[&] (const int& x) { return x < v; }`. */
  function LessThan(v: int32): int32 -> bool {
    x => x < v
  }

  /** `a[low..high)` is sorted in ascending order. */
  ghost predicate SortedRange(a: seq<int32>, low: int32, high: int32) {
    && 0 <= low <= high
    && high as int <= |a|
    && forall i, j :: low as int <= i <= j < high as int ==> a[i] <= a[j]
  }

  /** The whole of `s` is sorted in ascending order. */
  ghost predicate Sorted(s: seq<int32>) {
    forall i, j :: 0 <= i <= j < |s| ==> s[i] <= s[j]
  }

  /** A sorted range is partitioned by `x < v`, whatever `v` is: the
      elements below `v` come first. */
  lemma SortedIsPartitioned(a: seq<int32>, low: int32, high: int32, v: int32)
    requires SortedRange(a, low, high)
    ensures Partitioned(a, low, high, LessThan(v))
  {
  }

  /** The two wrappers run the same search: for every array and every range
      they can be given, sorted or not, comparing directly with `<` and asking
      the closure `x < v` probe the same elements and return the same index. */
  lemma WrappersAgree(a: seq<int32>, low: int32, high: int32, v: int32)
    requires Readable(a, low, high)
    ensures SearchBy(a, low, high, Below(IntLess, v)) == SearchBy(a, low, high, LessThan(v))
  {
    SearchByLocal(a, a, low, high, Below(IntLess, v), LessThan(v));
  }

  /** `lower_bound_1`: on a sorted range, the first index whose element is
      not less than `v`, i.e. where `v` would be inserted before its equals. */
  method LowerBound1(a: seq<int32>, low: int32, high: int32, v: int32) returns (r: int32)
    requires Readable(a, low, high)
    ensures r == SearchBy(a, low, high, LessThan(v))
    ensures low >= high ==> r == low
    ensures SortedRange(a, low, high) ==>
              && low <= r <= high
              && (forall i :: low as int <= i < r as int ==> a[i] < v)
              && (forall i :: r as int <= i < high as int ==> v <= a[i])
  {
    r := LowerBound(a, low, high, v, IntLess);
    WrappersAgree(a, low, high, v);
    if SortedRange(a, low, high) {
      SortedIsPartitioned(a, low, high, v);
      SearchByFindsPartitionPoint(a, low, high, LessThan(v));
    }
  }

  /** `lower_bound_2`: the same answer as `lower_bound_1`, obtained through
      the predicate form. */
  method LowerBound2(a: seq<int32>, low: int32, high: int32, v: int32) returns (r: int32)
    requires Readable(a, low, high)
    ensures r == SearchBy(a, low, high, LessThan(v))
    ensures low >= high ==> r == low
    ensures SortedRange(a, low, high) ==>
              && low <= r <= high
              && (forall i :: low as int <= i < r as int ==> a[i] < v)
              && (forall i :: r as int <= i < high as int ==> v <= a[i])
  {
    var pred := LessThan(v);
    r := LowerBoundPred(a, low, high, pred);
    if SortedRange(a, low, high) {
      SortedIsPartitioned(a, low, high, v);
    }
  }

  /** On a sorted range the lower bound never moves left as `v` grows. */
  lemma LowerBoundMonotone(a: seq<int32>, low: int32, high: int32, v1: int32, v2: int32)
    requires SortedRange(a, low, high)
    requires v1 <= v2
    ensures SearchBy(a, low, high, LessThan(v1)) <= SearchBy(a, low, high, LessThan(v2))
  {
    SortedIsPartitioned(a, low, high, v1);
    SortedIsPartitioned(a, low, high, v2);
    SearchByFindsPartitionPoint(a, low, high, LessThan(v1));
    SearchByFindsPartitionPoint(a, low, high, LessThan(v2));
    var r1 := SearchBy(a, low, high, LessThan(v1));
    var r2 := SearchBy(a, low, high, LessThan(v2));
    if r2 < high {
      // a[r2] is not below v2, hence not below v1, so r2 is not left of r1
      assert !(a[r2] < v1);
    }
  }

  /** The lower bound is an insertion point: putting `v` there keeps the
      range sorted. */
  lemma InsertionKeepsSorted(a: seq<int32>, low: int32, high: int32, v: int32)
    requires SortedRange(a, low, high)
    ensures var r := SearchBy(a, low, high, LessThan(v));
            low <= r <= high && Sorted(a[low..r] + [v] + a[r..high])
  {
    SortedIsPartitioned(a, low, high, v);
    SearchByFindsPartitionPoint(a, low, high, LessThan(v));
    var r := SearchBy(a, low, high, LessThan(v));
    var s := a[low..r] + [v] + a[r..high];
    var k := (r - low) as int;
    assert |s| == (high - low) as int + 1;
    // position `m` of `s` in terms of `a`
    assert forall m :: 0 <= m < k ==> s[m] == a[low as int + m] && s[m] < v;
    assert s[k] == v;
    assert forall m :: k < m < |s| ==> s[m] == a[low as int + m - 1] && v <= s[m];
    forall i, j | 0 <= i <= j < |s|
      ensures s[i] <= s[j]
    {
      if j < k {
        assert a[low as int + i] <= a[low as int + j];
      } else if k < i {
        assert a[low as int + i - 1] <= a[low as int + j - 1];
      }
    }
  }

  /** Worked example on [1, 3, 3, 5, 7], for every `v`: the lower bound of 3
      is 1 (before both 3s), of 4 is 3, of 0 is 0 and of 8 is 5 (one past the end). */
  lemma Example(a: seq<int32>, v: int32)
    requires a == [1, 3, 3, 5, 7]
    ensures SearchBy(a, 0, 5, LessThan(v)) ==
              if v <= 1 then 0 else if v <= 3 then 1 else if v <= 5 then 3 else if v <= 7 then 4 else 5
  {
    assert SortedRange(a, 0, 5);
    var p: int32 := if v <= 1 then 0 else if v <= 3 then 1 else if v <= 5 then 3 else if v <= 7 then 4 else 5;
    SortedIsPartitioned(a, 0, 5, v);
    assert IsPartitionPoint(a, 0, 5, LessThan(v), p);
    SearchByCharacterised(a, 0, 5, LessThan(v), p);
  }
}
