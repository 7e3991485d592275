/** Model of ParallelForEachWithThreadLocalVar: four ways of summing an int
    array into a 64-bit total. The sequential loop is the reference; the
    three parallel variants give every worker a subtotal that starts at 0
    (localInit), add the worker's share of the input to it (body) and add the
    subtotal to the shared total once (localFinally, Interlocked.Add).

    The parallel runtime is modelled by `tasks`: one sequence per worker,
    listing what that worker was handed, in the order it handled it. The
    order of `tasks` is the order in which the subtotals reach the total.
    Any split and any order is allowed, as long as every index, element or
    range is handed out exactly once. */
module Summation {
  import opened Outcomes

  /** Sum of f over s, from the left. */
  function SumOf<T>(s: seq<T>, f: T -> int): (total: int) {
    if s == [] then 0 else SumOf(s[..|s| - 1], f) + f(s[|s| - 1])
  }

  /** The summand of Sum: each number counts as itself. A named function
      rather than a lambda, so that every use denotes the same term. */
  function Identity(x: int): (y: int) { x }

  /** Sum of a sequence of numbers. */
  function Sum(s: seq<int>): (total: int) {
    SumOf(s, Identity)
  }

  /** The concatenation of the worker sequences. */
  function Concat<T>(ss: seq<seq<T>>): (all: seq<T>) {
    if ss == [] then [] else Concat(ss[..|ss| - 1]) + ss[|ss| - 1]
  }

  /** Enumerable.Range(lo, hi - lo): the indices lo, lo + 1, ..., hi - 1. */
  function Indices(lo: int, hi: int): (r: seq<int>)
    requires lo <= hi
    ensures |r| == hi - lo
    ensures forall k :: 0 <= k < |r| ==> r[k] == lo + k
  {
    seq(hi - lo, k => lo + k)
  }

  /** nums[j] as a total function of the index j. */
  function Element(nums: seq<int>): (at: int -> int) {
    j => if 0 <= j < |nums| then nums[j] else 0
  }

  lemma {:induction false} SumOfConcat<T>(a: seq<T>, b: seq<T>, f: T -> int)
    ensures SumOf(a + b, f) == SumOf(a, f) + SumOf(b, f)
  {
    if b == [] {
      assert a + b == a;
    } else {
      assert (a + b)[..|a + b| - 1] == a + b[..|b| - 1];
      SumOfConcat(a, b[..|b| - 1], f);
    }
  }

  /** Summing is insensitive to order: two sequences with the same elements
      have the same sum. This is why the order in which the workers visit
      their share, and the order in which subtotals are merged, do not
      matter. */
  lemma {:induction false} SumOfPermutation<T>(a: seq<T>, b: seq<T>, f: T -> int)
    requires multiset(a) == multiset(b)
    ensures SumOf(a, f) == SumOf(b, f)
  {
    if a != [] {
      var x := a[|a| - 1];
      assert a == a[..|a| - 1] + [x];
      assert x in multiset(b);
      var k :| 0 <= k < |b| && b[k] == x;
      var rest := b[..k] + b[k + 1..];
      assert b == b[..k] + [x] + b[k + 1..];
      SumOfConcat(b[..k] + [x], b[k + 1..], f);
      SumOfConcat(b[..k], [x], f);
      SumOfConcat(b[..k], b[k + 1..], f);
      assert multiset(a) == multiset(a[..|a| - 1]) + multiset{x};
      assert multiset(b) == multiset(b[..k]) + multiset{x} + multiset(b[k + 1..]);
      assert multiset(rest) == multiset(b[..k]) + multiset(b[k + 1..]);
      assert multiset(a[..|a| - 1]) == multiset(a) - multiset{x};
      assert multiset(rest) == multiset(b) - multiset{x};
      SumOfPermutation(a[..|a| - 1], rest, f);
    }
  }

  /** Summing nums at the indices lo .. hi-1 is summing the slice. */
  lemma {:induction false} SumOfIndices(nums: seq<int>, lo: int, hi: int)
    requires 0 <= lo <= hi <= |nums|
    ensures SumOf(Indices(lo, hi), Element(nums)) == Sum(nums[lo..hi])
  {
    if lo < hi {
      assert Indices(lo, hi)[..hi - lo - 1] == Indices(lo, hi - 1);
      assert nums[lo..hi][..hi - lo - 1] == nums[lo..hi - 1];
      SumOfIndices(nums, lo, hi - 1);
    }
  }

  /** Splitting a slice at mid splits its sum. */
  lemma SumSplit(s: seq<int>, lo: int, mid: int, hi: int)
    requires 0 <= lo <= mid <= hi <= |s|
    ensures Sum(s[lo..hi]) == Sum(s[lo..mid]) + Sum(s[mid..hi])
  {
    assert s[lo..hi] == s[lo..mid] + s[mid..hi];
    SumOfConcat(s[lo..mid], s[mid..hi], Identity);
  }

  /** Anything a worker holds was handed out. */
  lemma {:induction false} InConcat<T>(ss: seq<seq<T>>, t: int, x: T)
    requires 0 <= t < |ss| && x in ss[t]
    ensures x in Concat(ss)
  {
    if t < |ss| - 1 {
      InConcat(ss[..|ss| - 1], t, x);
    }
  }

  lemma ConcatPrefix<T>(ss: seq<seq<T>>, t: int)
    requires 0 <= t < |ss|
    ensures Concat(ss[..t + 1]) == Concat(ss[..t]) + ss[t]
  {
    assert ss[..t + 1][..t] == ss[..t];
  }

  /** SumForLoop: the classical loop, total += nums[i] for i in
      0 .. nums.Length-1. */
  method SumForLoop(nums: array<int>) returns (total: int)
    ensures total == Sum(nums[..])
  {
    total := 0;
    for i := 0 to nums.Length
      invariant total == Sum(nums[..i])
    {
      assert nums[..i + 1][..i] == nums[..i];
      total := total + nums[i];
    }
    assert nums[..nums.Length] == nums[..];
  }

  /** SumParallelForLoopThreadLocal: Parallel.For over the index range
      [0, nums.Length); each worker adds nums[j] for the indices j it is
      handed to its own subtotal. */
  method SumParallelForLoopThreadLocal(nums: array<int>, tasks: seq<seq<int>>) returns (total: int)
    requires multiset(Concat(tasks)) == multiset(Indices(0, nums.Length))
    ensures total == Sum(nums[..])
  {
    ghost var f := Element(nums[..]);
    total := 0;
    for t := 0 to |tasks|
      invariant total == SumOf(Concat(tasks[..t]), f)
    {
      var subtotal := 0;
      for k := 0 to |tasks[t]|
        invariant subtotal == SumOf(tasks[t][..k], f)
      {
        var j := tasks[t][k];
        InConcat(tasks, t, j);
        assert j in multiset(Indices(0, nums.Length));
        assert tasks[t][..k + 1][..k] == tasks[t][..k];
        subtotal := subtotal + nums[j];
      }
      assert tasks[t][..|tasks[t]|] == tasks[t];
      ConcatPrefix(tasks, t);
      SumOfConcat(Concat(tasks[..t]), tasks[t], f);
      total := total + subtotal;
    }
    assert tasks[..|tasks|] == tasks;
    SumOfPermutation(Concat(tasks), Indices(0, nums.Length), f);
    SumOfIndices(nums[..], 0, nums.Length);
    assert nums[0..nums.Length] == nums[..];
  }

  /** SumParallelForEachLoopPartitionLocal: Parallel.ForEach over the
      elements of nums; each worker adds the elements it is handed to its own
      subtotal. */
  method SumParallelForEachLoopPartitionLocal(nums: array<int>, tasks: seq<seq<int>>) returns (total: int)
    requires multiset(Concat(tasks)) == multiset(nums[..])
    ensures total == Sum(nums[..])
  {
    total := 0;
    for t := 0 to |tasks|
      invariant total == Sum(Concat(tasks[..t]))
    {
      var subtotal := 0;
      for k := 0 to |tasks[t]|
        invariant subtotal == Sum(tasks[t][..k])
      {
        assert tasks[t][..k + 1][..k] == tasks[t][..k];
        subtotal := subtotal + tasks[t][k];
      }
      assert tasks[t][..|tasks[t]|] == tasks[t];
      ConcatPrefix(tasks, t);
      SumOfConcat(Concat(tasks[..t]), tasks[t], Identity);
      total := total + subtotal;
    }
    assert tasks[..|tasks|] == tasks;
    SumOfPermutation(Concat(tasks), nums[..], Identity);
  }

  /** A Tuple<int, int> handed out by the range partitioner: the indices
      lo .. hi-1 (Item1 and Item2). */
  datatype IndexRange = IndexRange(lo: int, hi: int)

  /** rs covers [lo, hi) with contiguous, non-overlapping ranges, left to
      right. */
  predicate Tiles(rs: seq<IndexRange>, lo: int, hi: int)
    decreases |rs|
  {
    if rs == [] then lo == hi
    else rs[0].lo == lo && rs[0].lo <= rs[0].hi && Tiles(rs[1..], rs[0].hi, hi)
  }

  lemma {:induction false} TilesOrdered(rs: seq<IndexRange>, lo: int, hi: int)
    requires Tiles(rs, lo, hi)
    ensures lo <= hi
    decreases |rs|
  {
    if rs != [] {
      TilesOrdered(rs[1..], rs[0].hi, hi);
    }
  }

  /** Every range of a tiling of [lo, hi) lies inside [lo, hi). */
  lemma {:induction false} TilesBounds(rs: seq<IndexRange>, lo: int, hi: int, r: IndexRange)
    requires Tiles(rs, lo, hi) && r in rs
    ensures lo <= r.lo <= r.hi <= hi
    decreases |rs|
  {
    TilesOrdered(rs[1..], rs[0].hi, hi);
    if r != rs[0] {
      TilesBounds(rs[1..], rs[0].hi, hi, r);
    }
  }

  /** The subtotal of one range: nums[lo] + ... + nums[hi-1]. */
  function RangeSubtotal(nums: seq<int>): (subtotal: IndexRange -> int) {
    (r: IndexRange) => if 0 <= r.lo <= r.hi <= |nums| then Sum(nums[r.lo..r.hi]) else 0
  }

  /** The subtotals of a tiling of [lo, hi) add up to the sum of that
      slice. */
  lemma {:induction false} TilingSum(nums: seq<int>, rs: seq<IndexRange>, lo: int, hi: int)
    requires Tiles(rs, lo, hi) && 0 <= lo <= hi <= |nums|
    ensures SumOf(rs, RangeSubtotal(nums)) == Sum(nums[lo..hi])
    decreases |rs|
  {
    if rs != [] {
      var f := RangeSubtotal(nums);
      TilesOrdered(rs[1..], rs[0].hi, hi);
      TilingSum(nums, rs[1..], rs[0].hi, hi);
      assert rs == [rs[0]] + rs[1..];
      SumOfConcat([rs[0]], rs[1..], f);
      assert SumOf([rs[0]], f) == f(rs[0]);
      SumSplit(nums, lo, rs[0].hi, hi);
    }
  }

  /** The rangeSize SumParallelForEachLoopSpeedUpSmallBodyPartition asks
      for. */
  const RangeSize := 20000

  /** The ranges Partitioner.Create(lo, hi, size) hands out:
      [lo, lo + size), [lo + size, lo + 2 * size), ..., the last one cut
      off at hi. */
  function Chunks(lo: int, hi: int, size: int): (rs: seq<IndexRange>)
    requires lo <= hi && size > 0
    ensures Tiles(rs, lo, hi)
    ensures forall r :: r in rs ==> r.lo < r.hi <= r.lo + size
    decreases hi - lo
  {
    if lo == hi then []
    else
      var next := if hi - lo <= size then hi else lo + size;
      [IndexRange(lo, next)] + Chunks(next, hi, size)
  }

  /** The ArgumentOutOfRangeException of Partitioner.Create. */
  datatype PartitionerError = ArgumentOutOfRange

  /** Partitioner.Create(fromInclusive, toExclusive, rangeSize): refuses an
      empty or reversed range and a non-positive range size, otherwise
      hands out Chunks. */
  function CreateRangePartitioner(fromInclusive: int, toExclusive: int, rangeSize: int)
    : (r: Result<seq<IndexRange>, PartitionerError>)
    ensures r.Success? <==> fromInclusive < toExclusive && rangeSize > 0
    ensures r.Success? ==> Tiles(r.value, fromInclusive, toExclusive)
  {
    if toExclusive <= fromInclusive || rangeSize <= 0 then Failure(ArgumentOutOfRange)
    else Success(Chunks(fromInclusive, toExclusive, rangeSize))
  }

  /** The body of the range-partitioned sum over any tiling `ranges` of
      [0, nums.Length): each worker starts its subtotal at 0, runs the
      inner loop subtotal += nums[i] over each range it is handed, and adds
      its subtotal to the total. */
  method SumRangePartitioned(nums: array<int>, ranges: seq<IndexRange>, tasks: seq<seq<IndexRange>>)
    returns (total: int)
    requires Tiles(ranges, 0, nums.Length)
    requires multiset(Concat(tasks)) == multiset(ranges)
    ensures total == Sum(nums[..])
  {
    ghost var f := RangeSubtotal(nums[..]);
    total := 0;
    for t := 0 to |tasks|
      invariant total == SumOf(Concat(tasks[..t]), f)
    {
      var subtotal := 0;
      for k := 0 to |tasks[t]|
        invariant subtotal == SumOf(tasks[t][..k], f)
      {
        var range := tasks[t][k];
        InConcat(tasks, t, range);
        assert range in multiset(ranges);
        TilesBounds(ranges, 0, nums.Length, range);
        ghost var before := subtotal;
        for i := range.lo to range.hi
          invariant subtotal == before + Sum(nums[range.lo..i])
        {
          assert nums[range.lo..i + 1][..i - range.lo] == nums[range.lo..i];
          subtotal := subtotal + nums[i];
        }
        assert tasks[t][..k + 1][..k] == tasks[t][..k];
      }
      assert tasks[t][..|tasks[t]|] == tasks[t];
      ConcatPrefix(tasks, t);
      SumOfConcat(Concat(tasks[..t]), tasks[t], f);
      total := total + subtotal;
    }
    assert tasks[..|tasks|] == tasks;
    SumOfPermutation(Concat(tasks), ranges, f);
    TilingSum(nums[..], ranges, 0, nums.Length);
    assert nums[0..nums.Length] == nums[..];
  }

  /** SumParallelForEachLoopSpeedUpSmallBodyPartition as written: the ranges
      come from Partitioner.Create(0, nums.Length, 20000), which throws for
      an empty array. */
  method SumParallelForEachLoopSpeedUpSmallBodyPartition(nums: array<int>, tasks: seq<seq<IndexRange>>)
    returns (r: Result<int, PartitionerError>)
    requires multiset(Concat(tasks)) == multiset(Chunks(0, nums.Length, RangeSize))
    ensures nums.Length == 0 ==> r == Failure(ArgumentOutOfRange)
    ensures nums.Length > 0 ==> r == Success(Sum(nums[..]))
  {
    var partitioner := CreateRangePartitioner(0, nums.Length, RangeSize);
    match partitioner
    case Failure(e) =>
      r := Failure(e);
    case Success(ranges) =>
      var total := SumRangePartitioned(nums, ranges, tasks);
      r := Success(total);
  }

  const Int32Min := -0x8000_0000
  const Int32Max := 0x7FFF_FFFF
  const Int64Min := -0x8000_0000_0000_0000
  const Int64Max := 0x7FFF_FFFF_FFFF_FFFF

  predicate IsInt32(x: int) {
    Int32Min <= x <= Int32Max
  }

  lemma {:induction false} SumOfBounds<T>(s: seq<T>, f: T -> int)
    requires forall k :: 0 <= k < |s| ==> IsInt32(f(s[k]))
    ensures |s| * Int32Min <= SumOf(s, f) <= |s| * Int32Max
  {
    if s != [] {
      SumOfBounds(s[..|s| - 1], f);
    }
  }

  /** The totals are longs and the terms are ints: a sum of at most
      Int32Max int terms (as many as an int can index) never leaves the long
      range, so the sequential total and its partial sums never wrap
      around. The same holds of any subtotal with that many terms. */
  lemma SumFitsInLong<T>(s: seq<T>, f: T -> int)
    requires forall k :: 0 <= k < |s| ==> IsInt32(f(s[k]))
    requires |s| <= Int32Max
    ensures Int64Min <= SumOf(s, f) <= Int64Max
  {
    SumOfBounds(s, f);
  }

  /** 0 + 1 + ... + (n-1) == n * (n-1) / 2. */
  lemma {:induction false} SumOfRange(n: nat)
    ensures 2 * Sum(Indices(0, n)) == n * (n - 1)
    ensures Sum(Indices(0, n)) == n * (n - 1) / 2
  {
    if n > 0 {
      assert Indices(0, n)[..n - 1] == Indices(0, n - 1);
      SumOfRange(n - 1);
      assert (n - 1) * (n - 2) + 2 * (n - 1) == n * (n - 1);
    }
  }

  /** MainEntry sums Enumerable.Range(0, 100_000_000): every variant
      reports 4_999_999_950_000_000, well inside the long range. */
  lemma MainEntryTotal()
    ensures Sum(Indices(0, 100_000_000)) == 4_999_999_950_000_000
    ensures Sum(Indices(0, 100_000_000)) <= Int64Max
  {
    SumOfRange(100_000_000);
  }
}
