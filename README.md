# Parallel-loop examples: primes, partitioned sums, collected failures

This project models the sequential integer logic underneath three of the
`SimpleParallelExample` demos of a C# tutorial on the Task Parallel Library,
and proves what those demos promise about it.

- **Primality filtering** (`SimpleParallelForEachLoop.cs`). `IsPrime` is
  trial division with an early exit. `GetPrimeList` is a LINQ `Where`
  filter. `GetPrimeListWithParallel` lets `Parallel.ForEach` add every prime
  it meets to a `ConcurrentBag`.
- **Partitioned summation** (`ParallelForEachWithThreadLocalVar.cs`). There is
  a plain `for` loop, and three variants in which every worker keeps a local
  subtotal that starts at 0 (`localInit`). Each worker adds its share of the
  array to its subtotal, then adds the subtotal to the shared `long` total
  with `Interlocked.Add` (`localFinally`).
- **Failure collection** (`ParallelExceptionHandleDemo.cs`). A
  `Parallel.ForEach` over random bytes throws for every byte below 3. Each
  exception is queued and the loop goes on. The queue is thrown as an
  `AggregateException` after the loop, and only if it is not empty.
  `MainEntry` flattens it, reports the `ArgumentException`s and rethrows the
  rest.

The model is in four modules:

- `Outcomes` (`outcomes.dfy`) holds `Option` and `Result`.
- `Primes` (`primes.dfy`).
- `Summation` (`summation.dfy`).
- `ExceptionHandling` (`exceptions.dfy`).

How the parallel runtime is modelled:

- It is a parameter, never code.
  - `Parallel.ForEach` over elements gets a `schedule`. This is the order in
    which the elements reach the loop body. Its multiset equals the input's,
    so every element is handed over exactly once, in any order.
  - The summation variants get `tasks`: one sequence per worker, listing what
    that worker was handed. The order of `tasks` is the order in which the
    subtotals are merged. Because any split and any merge order meets the
    requirement, every result holds for all of them.
- Loops, local subtotals, the bag, the queue and `ignoredExceptions` are
  ordinary local variables of methods with `for` loops. A thrown
  `AggregateException` is an `Option` holding its inner exceptions. The
  random input of `ParallelExceptionHandleDemo.MainEntry` is a parameter.
- The bound `divisor <= Math.Sqrt(number)` is modelled as the integer test
  `divisor * divisor <= number`. For non-negative `int` inputs the two
  conditions agree.
- Numbers are unbounded integers. `SumFitsInLong` proves that a sum of at
  most `Int32.MaxValue` terms, each an `int`, lies in the `long` range. The
  sequential total and each of its partial sums are such sums, so
  `SumForLoop`'s `long` never wraps around. A worker's subtotal and the
  merged partial totals are sums over handed-out items. The model does not
  prove that there are at most `nums.Length` of them, so for the parallel
  variants the absence of wrap-around is not proved.

`ProcessDataInParallel` throws an `AggregateException`; the model represents
that throw as `Some(inner exceptions)`.

## Model

| member | source | states |
|---|---|---|
| `Primes.IsPrime` | SimpleParallelExample/SimpleParallelForEachLoop.cs:63-74 | false for every number below 2 (its first `return`); otherwise true exactly when no divisor d with 2 <= d and d * d <= number divides it; and true exactly when the number is prime in the mathematical sense |
| `Primes.TrialDivisionIsPrimality` | SimpleParallelExample/SimpleParallelForEachLoop.cs:58-72 | trial division up to the square root accepts exactly the numbers >= 2 with no divisor in [2, n-1], the promise of the doc comment, in both directions |
| `Primes.GetPrimeList` | SimpleParallelExample/SimpleParallelForEachLoop.cs:39 | the filtered list is never longer than the input |
| `Primes.GetPrimeListCounts` | SimpleParallelExample/SimpleParallelForEachLoop.cs:39 | every prime of the input occurs in the result exactly as often as in the input, and a non-prime never occurs |
| `Primes.GetPrimeListSound` | SimpleParallelExample/SimpleParallelForEachLoop.cs:39 | every element of the result is an input element and is prime |
| `Primes.GetPrimeListConcat` | SimpleParallelExample/SimpleParallelForEachLoop.cs:39 | the filter keeps input order: filtering a + b gives the filtered a followed by the filtered b |
| `Primes.GetPrimeListPermutation` | SimpleParallelExample/SimpleParallelForEachLoop.cs:46-56 | two orderings of the same numbers give the same multiset of primes |
| `Primes.GetPrimeListWithParallel` | SimpleParallelExample/SimpleParallelForEachLoop.cs:46-56 | for any visiting order, the bag holds each qualifying element once per occurrence and nothing else, in visiting order; as a multiset it equals GetPrimeList of the input, so the two counts printed side by side (lines 27-28) agree |
| `Summation.SumForLoop` | SimpleParallelExample/ParallelForEachWithThreadLocalVar.cs:46-53 | returns the sum of all elements; the loop keeps total equal to the sum of nums[0..i) |
| `Summation.SumOfPermutation` | SimpleParallelExample/ParallelForEachWithThreadLocalVar.cs:69 | a sum does not depend on the order of its terms, so merging subtotals into the total in any order, and visiting a worker's share in any order, gives the same result |
| `Summation.SumParallelForLoopThreadLocal` | SimpleParallelExample/ParallelForEachWithThreadLocalVar.cs:55-73 | for any split of the indices [0, nums.Length) among workers that hands out every index exactly once, with each subtotal starting at 0, the merged total is the sequential sum |
| `Summation.SumParallelForEachLoopPartitionLocal` | SimpleParallelExample/ParallelForEachWithThreadLocalVar.cs:75-95 | for any split of the elements among workers that hands out every element exactly once, with each subtotal starting at 0, the merged total is the sequential sum |
| `Summation.TilesBounds` | SimpleParallelExample/ParallelForEachWithThreadLocalVar.cs:116-119 | every range of a tiling of [lo, hi) lies inside [lo, hi), so the inner loop's nums[i] stays in bounds |
| `Summation.TilingSum` | SimpleParallelExample/ParallelForEachWithThreadLocalVar.cs:116-121 | the subtotals of contiguous ranges that tile [lo, hi) add up to the sum of nums[lo..hi) |
| `Summation.Chunks` | SimpleParallelExample/ParallelForEachWithThreadLocalVar.cs:110 | the ranges the range partitioner hands out tile [lo, hi), and each is non-empty and at most rangeSize long |
| `Summation.CreateRangePartitioner` | SimpleParallelExample/ParallelForEachWithThreadLocalVar.cs:110 | the partitioner is created exactly when fromInclusive < toExclusive and rangeSize > 0, and its ranges then tile [fromInclusive, toExclusive) |
| `Summation.SumRangePartitioned` | SimpleParallelExample/ParallelForEachWithThreadLocalVar.cs:112-125 | for any tiling of [0, nums.Length) by contiguous ranges, shared among workers in any way and merged in any order, the total is the sequential sum (an empty array gives 0) |
| `Summation.SumParallelForEachLoopSpeedUpSmallBodyPartition` | SimpleParallelExample/ParallelForEachWithThreadLocalVar.cs:103-126 | for a non-empty array, the range-partitioned total with rangeSize 20000 is the sequential sum; for an empty array the partitioner fails with ArgumentOutOfRange |
| `Summation.SumOfBounds` | SimpleParallelExample/ParallelForEachWithThreadLocalVar.cs:46-53 | a sum of n terms, each an int, lies between n * Int32.MinValue and n * Int32.MaxValue, whatever the summand |
| `Summation.SumFitsInLong` | SimpleParallelExample/ParallelForEachWithThreadLocalVar.cs:46-53 | a sum of at most Int32.MaxValue terms, each an int, lies in the long range; the sequential total and each partial total Sum(nums[..i]) are such sums, so the loop's long never wraps around |
| `Summation.SumOfRange` | SimpleParallelExample/ParallelForEachWithThreadLocalVar.cs:15 | the sum of Enumerable.Range(0, n) is n * (n - 1) / 2 |
| `Summation.MainEntryTotal` | SimpleParallelExample/ParallelForEachWithThreadLocalVar.cs:15-40 | for the 100,000,000 numbers of MainEntry, every variant reports 4,999,999,950,000,000, which fits in a long |
| `ExceptionHandling.Recorded` | SimpleParallelExample/ParallelExceptionHandleDemo.cs:49-57 | everything queued is an ArgumentException carrying a byte below 3 |
| `ExceptionHandling.Written` | SimpleParallelExample/ParallelExceptionHandleDemo.cs:51-52 | everything written to the console is a byte of 3 or more |
| `ExceptionHandling.RecordedCounts` | SimpleParallelExample/ParallelExceptionHandleDemo.cs:49-57 | each byte d below 3 queues exactly one ArgumentException(d), and a byte of 3 or more queues none |
| `ExceptionHandling.WrittenCounts` | SimpleParallelExample/ParallelExceptionHandleDemo.cs:51-52 | each byte of 3 or more is written exactly once, and a byte below 3 never |
| `ExceptionHandling.EveryByteVisited` | SimpleParallelExample/ParallelExceptionHandleDemo.cs:43-58 | the loop never stops early: the written bytes and the queued failures together account for every byte |
| `ExceptionHandling.FailureCount` | SimpleParallelExample/ParallelExceptionHandleDemo.cs:49-57 | the number of queued failures is the number of bytes equal to 0, 1 or 2 |
| `ExceptionHandling.NoFailureIffAllValid` | SimpleParallelExample/ParallelExceptionHandleDemo.cs:62 | the queue is empty exactly when every byte is at least 3 |
| `ExceptionHandling.SameFailures` | SimpleParallelExample/ParallelExceptionHandleDemo.cs:43-58 | two visiting orders of the same bytes queue the same failures, up to order |
| `ExceptionHandling.SameOutput` | SimpleParallelExample/ParallelExceptionHandleDemo.cs:51-52 | two visiting orders of the same bytes write the same bytes, up to order |
| `ExceptionHandling.ScheduleDoesNotMatter` | SimpleParallelExample/ParallelExceptionHandleDemo.cs:43-62 | whatever the visiting order, the queue and the output hold the failures and the bytes of the input, the queue is empty exactly when every byte is at least 3, and every byte is visited once |
| `ExceptionHandling.ProcessDataInParallel` | SimpleParallelExample/ParallelExceptionHandleDemo.cs:38-63 | for any visiting order: returns normally exactly when every byte is at least 3; otherwise throws an aggregate holding exactly the queued failures, as a multiset the failures of the input; written bytes plus failures number data.Length |
| `ExceptionHandling.Flatten` | SimpleParallelExample/ParallelExceptionHandleDemo.cs:27 | flattening keeps exactly the non-aggregate exceptions of the tree, nested ones included, each as often as it occurs, and no aggregate remains |
| `ExceptionHandling.BreadthFirstLeaves` | SimpleParallelExample/ParallelExceptionHandleDemo.cs:27 | the breadth-first walk over a queue of exception lists emits exactly the leaves of the lists in the queue |
| `ExceptionHandling.DirectAndNested` | SimpleParallelExample/ParallelExceptionHandleDemo.cs:27 | one list's leaves are its direct non-aggregates plus the leaves of its nested aggregates' inner lists |
| `ExceptionHandling.FlattenTopLevelFirst` | SimpleParallelExample/ParallelExceptionHandleDemo.cs:27 | the flattened list starts with the aggregate's own non-aggregate inner exceptions, in order, followed by exactly the leaves of its nested aggregates |
| `ExceptionHandling.FlattenIsBreadthFirst` | SimpleParallelExample/ParallelExceptionHandleDemo.cs:27 | flattening is breadth-first: an exception nested one level down comes after the top-level ones |
| `ExceptionHandling.FlattenWithoutNesting` | SimpleParallelExample/ParallelExceptionHandleDemo.cs:27 | flattening an aggregate whose inner exceptions are not aggregates changes nothing |
| `ExceptionHandling.Handled` | SimpleParallelExample/ParallelExceptionHandleDemo.cs:29-30 | everything reported is an ArgumentException |
| `ExceptionHandling.Ignored` | SimpleParallelExample/ParallelExceptionHandleDemo.cs:31-32 | nothing added to ignoredExceptions is an ArgumentException |
| `ExceptionHandling.HandledOrIgnored` | SimpleParallelExample/ParallelExceptionHandleDemo.cs:27-33 | every flattened exception is either reported or ignored: none is lost or duplicated |
| `ExceptionHandling.NothingIgnored` | SimpleParallelExample/ParallelExceptionHandleDemo.cs:29-34 | when every exception is an ArgumentException, all are reported and none is ignored |
| `ExceptionHandling.HandleAggregate` | SimpleParallelExample/ParallelExceptionHandleDemo.cs:25-35 | reports the ArgumentExceptions in order; rethrows exactly when ignoredExceptions is non-empty, and then rethrows exactly those; reported plus rethrown is the flattened aggregate as a multiset |
| `ExceptionHandling.MainEntry` | SimpleParallelExample/ParallelExceptionHandleDemo.cs:11-36 | for any input bytes and visiting order nothing is rethrown, and the reported failures are exactly the failures of the input, one per byte equal to 0, 1 or 2 |

## Findings

| source | as written | input that shows it | evidently intended | confidence | as-written member | corrected member |
|---|---|---|---|---|---|---|
| SimpleParallelExample/ParallelForEachWithThreadLocalVar.cs:110 | the ranges come from `Partitioner.Create(0, nums.Length, rangeSize: 20000)`, which throws ArgumentOutOfRangeException when toExclusive <= fromInclusive | `nums` empty (`Enumerable.Range(0, 0).ToArray()`) | sum 0, as `SumForLoop` and the other two variants return | medium: relies on the argument check documented for `Partitioner.Create`; not executed | `Summation.SumParallelForEachLoopSpeedUpSmallBodyPartition` | `Summation.SumRangePartitioned` |

## Left out

- Concurrency itself is not modelled: threads, scheduling, `Parallel.For` and `Parallel.ForEach` as runtimes, `Interlocked.Add` atomicity, and `ConcurrentBag` and `ConcurrentQueue` as thread-safe collections. Each is a sequential loop over an arbitrary schedule or split.
- `Math.Sqrt` is a floating-point call. It is replaced by the integer test `divisor * divisor <= number`, and the model does not state that the two agree.
- `Primes.GetPrimeListWithParallel`: the result is in visiting order. `ConcurrentBag.ToList` enumerates in an unspecified order, so only the multiset of the result carries over to the source.
- `ExceptionHandling.Flatten`: `AggregateException.Flatten` belongs to .NET, whose source is not part of this model. The model follows its documented breadth-first order (a queue of inner-exception lists). Below the top level the order is proved only on the example in `FlattenIsBreadthFirst`; what is kept is proved for every tree.
- Exception messages are not modelled. An `ArgumentException` carries its byte instead of the formatted text, and the message that `Console.WriteLine` prints is not modelled.
- Console output is not modelled, apart from the bytes `ProcessDataInParallel` writes. Nor are `Console.ReadLine`/`ReadKey`, `Stopwatch` timing or the `N0` number formatting.
- `Random.NextBytes` is not modelled. The bytes are a parameter.
- Partitioner.Create's checked-overflow guard near `Int32.MaxValue` is not modelled. With unbounded integers the last range is cut off at toExclusive anyway.
- The unused copy `nums.ToList()` in the range variant is not modelled.
- Other files are not modelled. `MultiplyMatrices.cs` works on `double`. The directory-size, file-iteration and `Program.cs` examples are file-system I/O. `CancelParallelLoops.cs` is console-driven cancellation. `TaskBasedAsyncProgramming`, `AsyncBreakfast`, `AsyncCancelListOfTasks` and `AwaitTutorial` are task, delay, HTTP and UI demos.
