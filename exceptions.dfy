/** Model of ParallelExceptionHandleDemo: a Parallel.ForEach over a byte
    array whose body fails for every byte below 3. Each failure is queued
    and the loop carries on; after the loop the queue is thrown as one
    AggregateException if it is not empty. MainEntry catches it, reports
    the ArgumentExceptions and rethrows the rest.

    Exceptions are data here. The parallel runtime is modelled by a
    schedule, the order in which the bytes reach the body (every byte
    exactly once); the random input is a parameter. */
module ExceptionHandling {
  import opened Outcomes

  newtype byte = x: int | 0 <= x < 256

  /** Bytes below this value make the body throw. */
  const Threshold: byte := 3

  datatype Exception =
    | ArgumentException(value: byte)
    | AggregateException(inner: seq<Exception>)
    | OtherException

  /** What the queue holds after the body has seen data in this order: one
      ArgumentException carrying d for each byte d below 3. */
  function Recorded(data: seq<byte>): (r: seq<Exception>)
    ensures forall e :: e in r ==> e.ArgumentException? && e.value < Threshold
  {
    if data == [] then []
    else
      var d := data[|data| - 1];
      Recorded(data[..|data| - 1]) + if d < Threshold then [ArgumentException(d)] else []
  }

  /** What the body writes to the console when it sees data in this order:
      each byte from 3 up. */
  function Written(data: seq<byte>): (r: seq<byte>)
    ensures forall d :: d in r ==> d >= Threshold
  {
    if data == [] then []
    else
      var d := data[|data| - 1];
      Written(data[..|data| - 1]) + if d < Threshold then [] else [d]
  }

  /** Each byte d below 3 adds exactly one ArgumentException(d) to the
      queue; nothing else is ever queued. */
  lemma {:induction false} RecordedCounts(data: seq<byte>, e: Exception)
    ensures multiset(Recorded(data))[e] ==
            if e.ArgumentException? && e.value < Threshold then multiset(data)[e.value] else 0
  {
    if data != [] {
      assert data == data[..|data| - 1] + [data[|data| - 1]];
      RecordedCounts(data[..|data| - 1], e);
    }
  }

  /** Each byte from 3 up is written exactly once. */
  lemma {:induction false} WrittenCounts(data: seq<byte>, d: byte)
    ensures multiset(Written(data))[d] == if d >= Threshold then multiset(data)[d] else 0
  {
    if data != [] {
      assert data == data[..|data| - 1] + [data[|data| - 1]];
      WrittenCounts(data[..|data| - 1], d);
    }
  }

  /** The loop never stops early: every byte is either written or queued. */
  lemma {:induction false} EveryByteVisited(data: seq<byte>)
    ensures |Written(data)| + |Recorded(data)| == |data|
  {
    if data != [] {
      EveryByteVisited(data[..|data| - 1]);
    }
  }

  /** The number of queued failures is the number of bytes 0, 1 and 2. */
  lemma {:induction false} FailureCount(data: seq<byte>)
    ensures |Recorded(data)| == multiset(data)[0] + multiset(data)[1] + multiset(data)[2]
  {
    if data != [] {
      assert data == data[..|data| - 1] + [data[|data| - 1]];
      FailureCount(data[..|data| - 1]);
    }
  }

  /** Every byte is at least 3, so the body never throws. */
  predicate AllValid(data: seq<byte>) {
    forall k :: 0 <= k < |data| ==> data[k] >= Threshold
  }

  /** Nothing is queued exactly when every byte is at least 3. */
  lemma {:induction false} NoFailureIffAllValid(data: seq<byte>)
    ensures Recorded(data) == [] <==> AllValid(data)
  {
    if data != [] {
      NoFailureIffAllValid(data[..|data| - 1]);
      if Recorded(data[..|data| - 1]) != [] {
        assert |Recorded(data)| >= |Recorded(data[..|data| - 1])| > 0;
      }
    }
  }

  /** Visiting one more byte appends at most one failure and at most one
      written byte. */
  lemma VisitOne(s: seq<byte>, i: int)
    requires 0 <= i < |s|
    ensures Recorded(s[..i + 1]) == Recorded(s[..i]) + if s[i] < Threshold then [ArgumentException(s[i])] else []
    ensures Written(s[..i + 1]) == Written(s[..i]) + if s[i] < Threshold then [] else [s[i]]
  {
    assert s[..i + 1][..i] == s[..i];
  }

  /** ProcessDataInParallel: the body runs for every byte in schedule order,
      queueing an ArgumentException for a byte below 3 and writing the byte
      otherwise; afterwards the queue is thrown as an aggregate if it is not
      empty. */
  method ProcessDataInParallel(data: array<byte>, schedule: seq<byte>)
    returns (written: seq<byte>, thrown: Option<seq<Exception>>)
    requires multiset(schedule) == multiset(data[..])
    ensures multiset(written) == multiset(Written(data[..]))
    ensures thrown.None? <==> AllValid(data[..])
    ensures thrown.Some? ==> thrown.value == Recorded(schedule)
    ensures thrown.Some? ==> multiset(thrown.value) == multiset(Recorded(data[..]))
    ensures |written| + (if thrown.Some? then |thrown.value| else 0) == data.Length
  {
    var exceptions: seq<Exception> := [];
    written := [];
    for i := 0 to |schedule|
      invariant exceptions == Recorded(schedule[..i])
      invariant written == Written(schedule[..i])
    {
      var d := schedule[i];
      VisitOne(schedule, i);
      if d < Threshold {
        exceptions := exceptions + [ArgumentException(d)];
      } else {
        written := written + [d];
      }
    }
    assert schedule[..|schedule|] == schedule;
    ScheduleDoesNotMatter(schedule, data[..]);
    thrown := if |exceptions| > 0 then Some(exceptions) else None;
  }

  /** Two visiting orders of the same bytes queue the same failures, up to
      order. */
  lemma SameFailures(a: seq<byte>, b: seq<byte>)
    requires multiset(a) == multiset(b)
    ensures multiset(Recorded(a)) == multiset(Recorded(b))
  {
    forall e
      ensures multiset(Recorded(a))[e] == multiset(Recorded(b))[e]
    {
      RecordedCounts(a, e);
      RecordedCounts(b, e);
    }
  }

  /** Two visiting orders of the same bytes write the same bytes, up to
      order. */
  lemma SameOutput(a: seq<byte>, b: seq<byte>)
    requires multiset(a) == multiset(b)
    ensures multiset(Written(a)) == multiset(Written(b))
  {
    forall d
      ensures multiset(Written(a))[d] == multiset(Written(b))[d]
    {
      WrittenCounts(a, d);
      WrittenCounts(b, d);
    }
  }

  /** What the loop leaves behind for one visiting order, stated in terms
      of the input alone. */
  lemma ScheduleDoesNotMatter(schedule: seq<byte>, data: seq<byte>)
    requires multiset(schedule) == multiset(data)
    ensures multiset(Recorded(schedule)) == multiset(Recorded(data))
    ensures multiset(Written(schedule)) == multiset(Written(data))
    ensures Recorded(schedule) == [] <==> AllValid(data)
    ensures |Written(schedule)| + |Recorded(schedule)| == |data|
  {
    SameFailures(schedule, data);
    SameOutput(schedule, data);
    FailureCount(schedule);
    FailureCount(data);
    NoFailureIffAllValid(data);
    EveryByteVisited(schedule);
    assert |schedule| == |multiset(schedule)| == |multiset(data)| == |data|;
  }

  /** The size of an exception tree, for termination of the breadth-first
      walk: 1 per exception, nested ones included. */
  function Size(e: Exception): (n: nat)
    ensures n >= 1
  {
    match e
    case AggregateException(inner) => 1 + SizeOfAll(inner)
    case _ => 1
  }

  function SizeOfAll(es: seq<Exception>): (n: nat) {
    if es == [] then 0 else Size(es[0]) + SizeOfAll(es[1..])
  }

  /** The size of a queue of exception lists, counting 1 per list. */
  function QueueSize(queue: seq<seq<Exception>>): (n: nat) {
    if queue == [] then 0 else SizeOfAll(queue[0]) + 1 + QueueSize(queue[1..])
  }

  /** The exceptions of es that are not aggregates, in order. */
  function Direct(es: seq<Exception>): (r: seq<Exception>)
    ensures forall e :: e in r ==> e in es && !e.AggregateException?
  {
    if es == [] then []
    else (if es[0].AggregateException? then [] else [es[0]]) + Direct(es[1..])
  }

  /** The inner lists of the aggregates of es, in order. */
  function Nested(es: seq<Exception>): (r: seq<seq<Exception>>)
    ensures QueueSize(r) <= SizeOfAll(es)
  {
    if es == [] then []
    else if es[0].AggregateException? then
      QueueSizeConcat([es[0].inner], Nested(es[1..]));
      [es[0].inner] + Nested(es[1..])
    else Nested(es[1..])
  }

  lemma {:induction false} QueueSizeConcat(a: seq<seq<Exception>>, b: seq<seq<Exception>>)
    ensures QueueSize(a + b) == QueueSize(a) + QueueSize(b)
  {
    if a == [] {
      assert a + b == b;
    } else {
      assert (a + b)[0] == a[0];
      assert (a + b)[1..] == a[1..] + b;
      QueueSizeConcat(a[1..], b);
    }
  }

  /** How .NET flattens: a queue of exception lists, starting with the
      aggregate's own inner list. The list at the head of the queue gives
      its non-aggregates to the result, in order, and its nested aggregates'
      inner lists join the back of the queue. */
  function BreadthFirst(queue: seq<seq<Exception>>): (r: seq<Exception>)
    ensures forall e :: e in r ==> !e.AggregateException?
    decreases QueueSize(queue)
  {
    if queue == [] then []
    else
      var rest := queue[1..] + Nested(queue[0]);
      QueueSizeConcat(queue[1..], Nested(queue[0]));
      Direct(queue[0]) + BreadthFirst(rest)
  }

  /** AggregateException.Flatten applied to an aggregate with these inner
      exceptions: its own inner exceptions first, then those of the
      aggregates nested one level down, and so on. */
  function Flatten(inner: seq<Exception>): (r: seq<Exception>)
    ensures forall e :: e in r ==> !e.AggregateException?
    ensures multiset(r) == Leaves(inner)
  {
    BreadthFirstLeaves([inner]);
    BreadthFirst([inner])
  }

  /** The non-aggregate exceptions in the tree, nested ones included, with
      their multiplicities. */
  function Leaves(es: seq<Exception>): (m: multiset<Exception>)
    ensures forall e :: e in m ==> !e.AggregateException?
  {
    if es == [] then multiset{}
    else
      assert es[0] in es;
      (if es[0].AggregateException? then Leaves(es[0].inner) else multiset{es[0]}) + Leaves(es[1..])
  }

  function QueueLeaves(queue: seq<seq<Exception>>): (m: multiset<Exception>) {
    if queue == [] then multiset{} else Leaves(queue[0]) + QueueLeaves(queue[1..])
  }

  lemma {:induction false} QueueLeavesConcat(a: seq<seq<Exception>>, b: seq<seq<Exception>>)
    ensures QueueLeaves(a + b) == QueueLeaves(a) + QueueLeaves(b)
  {
    if a == [] {
      assert a + b == b;
    } else {
      assert (a + b)[0] == a[0];
      assert (a + b)[1..] == a[1..] + b;
      QueueLeavesConcat(a[1..], b);
    }
  }

  /** One list splits into its direct non-aggregates and its nested lists,
      losing and adding nothing. */
  lemma {:induction false} DirectAndNested(es: seq<Exception>)
    ensures multiset(Direct(es)) + QueueLeaves(Nested(es)) == Leaves(es)
  {
    if es != [] {
      DirectAndNested(es[1..]);
      if es[0].AggregateException? {
        QueueLeavesConcat([es[0].inner], Nested(es[1..]));
      }
    }
  }

  /** The breadth-first walk emits every leaf of the queue exactly as often
      as it occurs, and nothing else. */
  lemma {:induction false} BreadthFirstLeaves(queue: seq<seq<Exception>>)
    ensures multiset(BreadthFirst(queue)) == QueueLeaves(queue)
    decreases QueueSize(queue)
  {
    if queue != [] {
      var rest := queue[1..] + Nested(queue[0]);
      QueueSizeConcat(queue[1..], Nested(queue[0]));
      BreadthFirstLeaves(rest);
      QueueLeavesConcat(queue[1..], Nested(queue[0]));
      DirectAndNested(queue[0]);
    }
  }

  /** A list without aggregates is all direct and has nothing nested. */
  lemma {:induction false} NoNesting(es: seq<Exception>)
    requires forall e :: e in es ==> !e.AggregateException?
    ensures Direct(es) == es && Nested(es) == []
  {
    if es != [] {
      assert es == [es[0]] + es[1..];
      NoNesting(es[1..]);
    }
  }

  /** Flattening an aggregate whose inner exceptions are not aggregates
      changes nothing. */
  lemma FlattenWithoutNesting(inner: seq<Exception>)
    requires forall e :: e in inner ==> !e.AggregateException?
    ensures Flatten(inner) == inner
  {
    NoNesting(inner);
    assert [inner][1..] + Nested(inner) == [];
    assert BreadthFirst([inner]) == Direct(inner) + BreadthFirst([]);
  }

  /** The top-level non-aggregates come first, in their own order, and the
      exceptions from nested aggregates follow them. */
  lemma FlattenTopLevelFirst(inner: seq<Exception>)
    ensures |Direct(inner)| <= |Flatten(inner)|
    ensures Flatten(inner)[..|Direct(inner)|] == Direct(inner)
    ensures multiset(Flatten(inner)[|Direct(inner)|..]) == QueueLeaves(Nested(inner))
  {
    var rest := [inner][1..] + Nested(inner);
    assert rest == Nested(inner);
    var tail := BreadthFirst(rest);
    assert Flatten(inner) == Direct(inner) + tail;
    assert Flatten(inner)[|Direct(inner)|..] == tail;
    BreadthFirstLeaves(rest);
  }

  /** Flattening is breadth-first: an exception nested one level down comes
      after the exceptions at the top level. */
  lemma FlattenIsBreadthFirst()
    ensures Flatten([AggregateException([ArgumentException(0)]), ArgumentException(1)])
         == [ArgumentException(1), ArgumentException(0)]
  {
    var top := [AggregateException([ArgumentException(0)]), ArgumentException(1)];
    var nested := [ArgumentException(0)];
    assert top[1..] == [ArgumentException(1)];
    assert Direct(top) == [ArgumentException(1)];
    assert Nested(top) == [nested];
    assert [top][1..] + Nested(top) == [nested];
    NoNesting(nested);
    assert [nested][1..] + Nested(nested) == [];
  }

  /** The exceptions MainEntry reports: the ArgumentExceptions, in order. */
  function Handled(es: seq<Exception>): (r: seq<Exception>)
    ensures forall e :: e in r ==> e.ArgumentException?
  {
    if es == [] then []
    else
      var e := es[|es| - 1];
      Handled(es[..|es| - 1]) + if e.ArgumentException? then [e] else []
  }

  /** The exceptions MainEntry puts in ignoredExceptions: all others, in
      order. */
  function Ignored(es: seq<Exception>): (r: seq<Exception>)
    ensures forall e :: e in r ==> !e.ArgumentException?
  {
    if es == [] then []
    else
      var e := es[|es| - 1];
      Ignored(es[..|es| - 1]) + if e.ArgumentException? then [] else [e]
  }

  /** Every exception is handled or ignored, none is lost or duplicated. */
  lemma {:induction false} HandledOrIgnored(es: seq<Exception>)
    ensures multiset(Handled(es)) + multiset(Ignored(es)) == multiset(es)
  {
    if es != [] {
      assert es == es[..|es| - 1] + [es[|es| - 1]];
      HandledOrIgnored(es[..|es| - 1]);
    }
  }

  /** If every exception is an ArgumentException, none is ignored. */
  lemma {:induction false} NothingIgnored(es: seq<Exception>)
    requires forall e :: e in es ==> e.ArgumentException?
    ensures Ignored(es) == [] && Handled(es) == es
  {
    if es != [] {
      assert es == es[..|es| - 1] + [es[|es| - 1]];
      NothingIgnored(es[..|es| - 1]);
    }
  }

  /** The catch block of MainEntry: walk the flattened inner exceptions,
      report each ArgumentException, collect the rest in ignoredExceptions
      and rethrow them as an aggregate only if there are any. */
  method HandleAggregate(inner: seq<Exception>)
    returns (handled: seq<Exception>, rethrown: Option<seq<Exception>>)
    ensures forall e :: e in handled ==> e.ArgumentException?
    ensures handled == Handled(Flatten(inner))
    ensures rethrown.Some? <==> Ignored(Flatten(inner)) != []
    ensures rethrown.Some? ==> rethrown.value == Ignored(Flatten(inner))
    ensures rethrown.Some? ==> multiset(handled) + multiset(rethrown.value) == multiset(Flatten(inner))
    ensures rethrown.None? ==> multiset(handled) == multiset(Flatten(inner))
  {
    var flat := Flatten(inner);
    var ignoredExceptions: seq<Exception> := [];
    handled := [];
    for i := 0 to |flat|
      invariant handled == Handled(flat[..i])
      invariant ignoredExceptions == Ignored(flat[..i])
    {
      var ex := flat[i];
      assert flat[..i + 1][..i] == flat[..i];
      if ex.ArgumentException? {
        handled := handled + [ex];
      } else {
        ignoredExceptions := ignoredExceptions + [ex];
      }
    }
    assert flat[..|flat|] == flat;
    HandledOrIgnored(flat);
    if |ignoredExceptions| > 0 {
      rethrown := Some(ignoredExceptions);
    } else {
      rethrown := None;
    }
  }

  /** MainEntry on a given byte array: process it, and if an aggregate was
      thrown, handle it. Every failure this loop produces is an
      ArgumentException, so all of them are reported and nothing is
      rethrown. */
  method MainEntry(data: array<byte>, schedule: seq<byte>)
    returns (handled: seq<Exception>, rethrown: Option<seq<Exception>>)
    requires multiset(schedule) == multiset(data[..])
    ensures rethrown == None
    ensures multiset(handled) == multiset(Recorded(data[..]))
    ensures |handled| == multiset(data[..])[0] + multiset(data[..])[1] + multiset(data[..])[2]
  {
    var written, thrown := ProcessDataInParallel(data, schedule);
    ghost var failures := Recorded(data[..]);
    FailureCount(data[..]);
    match thrown
    case None =>
      NoFailureIffAllValid(data[..]);
      assert failures == [];
      handled, rethrown := [], None;
    case Some(inner) =>
      assert forall e :: e in inner ==> e.ArgumentException?;
      FlattenWithoutNesting(inner);
      NothingIgnored(inner);
      handled, rethrown := HandleAggregate(inner);
      assert handled == inner;
      assert multiset(handled) == multiset(failures);
      assert |handled| == |multiset(handled)| == |multiset(failures)| == |failures|;
  }
}
