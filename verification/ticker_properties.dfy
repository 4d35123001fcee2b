/**
 Properties of `Ticker.Run`: validation, counting, termination and error
 propagation, stated over all intervals, tasks, options and event traces.
 */
module TickerProperties {
  import opened Errors
  import opened Options
  import opened Ticker

  /** How many ticks the periodic phase acted on before it stopped. */
  function TicksActedOn(r: Report, pos: nat): int {
    match r.verdict
    case Returned(Fail(_)) => r.consumed - 1 - pos
    case _ => r.consumed - pos
  }

  /** 1 when the immediate call is configured, else 0. */
  function ImmediateCalls(c: Config): nat {
    if c.immediate then 1 else 0
  }

  /** The periodic phase has exactly one possible report: the declarative
      description pins the state machine down. */
  lemma PeriodicDeterministic(b: Budget, events: seq<Event>, pos: nat, call: Behaviour, count: nat, r1: Report, r2: Report)
    requires Periodic(b, events, pos, call, count, r1)
    requires Periodic(b, events, pos, call, count, r2)
    ensures r1 == r2
  {
    // The two reports stop after the same number of ticks: the one that
    // stopped earlier would contradict the other's run of ticks and
    // successful calls.
    var n1 := TicksActedOn(r1, pos);
    var n2 := TicksActedOn(r2, pos);
    if n1 < n2 {
      assert false;
    } else if n2 < n1 {
      assert false;
    }
  }

  /** The periodic phase reads only the events it consumed: any trace that
      agrees on them yields the same terminal report. */
  lemma PeriodicPrefix(b: Budget, events: seq<Event>, other: seq<Event>, pos: nat, call: Behaviour, count: nat, r: Report)
    requires Periodic(b, events, pos, call, count, r)
    requires !r.verdict.Pending?
    requires r.consumed <= |other| && other[..r.consumed] == events[..r.consumed]
    ensures Periodic(b, other, pos, call, count, r)
  {
    forall i | 0 <= i < r.consumed
      ensures other[i] == events[i]
    {
      assert other[..r.consumed][i] == other[i];
    }
  }

  /** Both argument errors are kinds of `ErrInvalidArgument`, and they are
      returned before any call and before any event is read. */
  lemma ValidationErrorsAreInvalidArgument(task: Task, d: int, options: seq<Option>, events: seq<Event>)
    requires d <= 0 || task.NilTask?
    ensures var r := Run(task, d, options, events);
      && r.verdict.Returned? && r.verdict.result.Fail?
      && IsInvalidArgument(r.verdict.result.error)
      && r.invocations == 0 && r.consumed == 0
  {
    InvalidArgumentKinds(Run(task, d, options, events).verdict.result.error);
  }

  /** Every error a run with valid arguments returns is either the error of
      its last call or the reason of the last event it read, which is `Done`.
      So an invalid-argument error after validation can only be one the task
      itself returned. */
  lemma ReturnedErrorSource(task: Task, d: int, options: seq<Option>, events: seq<Event>)
    requires d > 0 && task.Task?
    ensures var r := Run(task, d, options, events);
      r.verdict.Returned? && r.verdict.result.Fail? ==>
        || (1 <= r.invocations && task.call(r.invocations - 1) == r.verdict.result)
        || (1 <= r.consumed <= |events| && events[r.consumed - 1].Done?
            && r.verdict.result == Fail(ContextError(events[r.consumed - 1].reason)))
    ensures var r := Run(task, d, options, events);
      r.verdict.Returned? && r.verdict.result.Fail? && IsInvalidArgument(r.verdict.result.error) ==>
        1 <= r.invocations && task.call(r.invocations - 1) == r.verdict.result
  {
    var r := Run(task, d, options, events);
    if r.verdict.Returned? && r.verdict.result.Fail? {
      InvalidArgumentKinds(r.verdict.result.error);
    }
  }

  /** A final limit of zero returns nil at once: no call, not even the
      immediate one, and no event read. */
  lemma ZeroLimitNeverCalls(task: Task, d: int, options: seq<Option>, events: seq<Event>)
    requires d > 0 && task.Task? && Assemble(options).limit == 0
    ensures Run(task, d, options, events) == Report(Returned(Ok), 0, 0)
  {
  }

  /** A positive limit caps the calls, and every call except the immediate one
      was triggered by an event read from the trace. */
  lemma CallsBounded(task: Task, d: int, options: seq<Option>, events: seq<Event>)
    ensures var r := Run(task, d, options, events); r.consumed <= |events|
    ensures var r := Run(task, d, options, events);
      Assemble(options).limit > 0 ==> r.invocations <= Assemble(options).limit
    ensures var r := Run(task, d, options, events);
      r.invocations <= r.consumed + ImmediateCalls(Assemble(options))
  {
  }

  /** With a positive limit `n`, successful calls and enough ticks before any
      `Done`, the run returns nil after exactly `n` calls, having read only
      those ticks; whatever follows them in the trace is never read. */
  lemma ExactLimit(task: Task, d: int, options: seq<Option>, events: seq<Event>)
    requires d > 0 && task.Task? && Assemble(options).limit > 0
    requires forall k: nat :: k < Assemble(options).limit ==> task.call(k) == Ok
    requires Assemble(options).limit - ImmediateCalls(Assemble(options)) <= |events|
    requires forall i :: 0 <= i < Assemble(options).limit - ImmediateCalls(Assemble(options)) ==> events[i] == Tick
    ensures Run(task, d, options, events)
         == Report(Returned(Ok), Assemble(options).limit, Assemble(options).limit - ImmediateCalls(Assemble(options)))
  {
    var c := Assemble(options);
    var imm := ImmediateCalls(c);
    var r := Run(task, d, options, events);
    var expected := Report(Returned(Ok), c.limit, c.limit - imm);
    if c.immediate && c.limit == 1 {
    } else {
      assert Quiet(events, 0, c.limit - imm, task.call, imm);
      PeriodicDeterministic(AtMost(c.limit - imm), events, 0, task.call, imm, r, expected);
    }
  }

  /** The immediate call is made before any event is read and counts against
      the limit: with a limit of one the run returns right after it, whatever
      the trace, even an empty one. */
  lemma ImmediateCallFirst(task: Task, d: int, options: seq<Option>, events: seq<Event>)
    requires d > 0 && task.Task? && Assemble(options).immediate && Assemble(options).limit != 0
    ensures Run(task, d, options, events).invocations >= 1
    ensures task.call(0).Fail? ==> Run(task, d, options, events) == Report(Returned(task.call(0)), 1, 0)
    ensures Assemble(options).limit == 1 && task.call(0) == Ok ==>
      Run(task, d, options, events) == Report(Returned(Ok), 1, 0)
  {
  }

  /** Without the immediate call, the first call waits for a tick: a run that
      called the task has read a `Tick` first. */
  lemma DeferredCallWaitsForTick(task: Task, d: int, options: seq<Option>, events: seq<Event>)
    requires !Assemble(options).immediate
    ensures var r := Run(task, d, options, events);
      r.invocations > 0 ==> 0 < r.consumed <= |events| && events[0] == Tick
  {
  }

  /** When call `k` (counting from one) is the first to fail and the ticks it
      needs arrive before any `Done`, the run returns exactly that error after
      exactly `k` calls, and reads no event after the tick that triggered it. */
  lemma TaskErrorPropagates(task: Task, d: int, options: seq<Option>, events: seq<Event>, k: nat, e: Error)
    requires d > 0 && task.Task? && Assemble(options).limit != 0
    requires 1 <= k && (Assemble(options).limit < 0 || k <= Assemble(options).limit)
    requires forall j: nat :: j < k - 1 ==> task.call(j) == Ok
    requires task.call(k - 1) == Fail(e)
    requires k - ImmediateCalls(Assemble(options)) <= |events|
    requires forall i :: 0 <= i < k - ImmediateCalls(Assemble(options)) ==> events[i] == Tick
    ensures Run(task, d, options, events) == Report(Returned(Fail(e)), k, k - ImmediateCalls(Assemble(options)))
  {
    var c := Assemble(options);
    var imm := ImmediateCalls(c);
    var r := Run(task, d, options, events);
    var expected := Report(Returned(Fail(e)), k, k - imm);
    if c.immediate && k == 1 {
    } else {
      var b := if c.limit > 0 then AtMost(c.limit - imm) else Unbounded;
      assert Quiet(events, 0, k - 1 - imm, task.call, imm);
      assert Periodic(b, events, 0, task.call, imm, expected);
      PeriodicDeterministic(b, events, 0, task.call, imm, r, expected);
    }
  }

  /** When the first event that is not a tick is `Done(reason)` at index `j`,
      every call before it succeeds and the limit is not reached by then, the
      run returns the context's error with one call per tick before it (plus
      the immediate one), and reads nothing after it. */
  lemma CancellationPropagates(task: Task, d: int, options: seq<Option>, events: seq<Event>, j: nat, reason: Reason)
    requires d > 0 && task.Task? && Assemble(options).limit != 0
    requires j < |events| && events[j] == Done(reason)
    requires forall i :: 0 <= i < j ==> events[i] == Tick
    requires forall k: nat :: k < j + ImmediateCalls(Assemble(options)) ==> task.call(k) == Ok
    requires Assemble(options).limit < 0 || j + ImmediateCalls(Assemble(options)) < Assemble(options).limit
    ensures Run(task, d, options, events)
         == Report(Returned(Fail(ContextError(reason))), j + ImmediateCalls(Assemble(options)), j + 1)
  {
    var c := Assemble(options);
    var imm := ImmediateCalls(c);
    var r := Run(task, d, options, events);
    var expected := Report(Returned(Fail(ContextError(reason))), j + imm, j + 1);
    var b := if c.limit > 0 then AtMost(c.limit - imm) else Unbounded;
    assert Quiet(events, 0, j, task.call, imm);
    assert Periodic(b, events, 0, task.call, imm, expected);
    PeriodicDeterministic(b, events, 0, task.call, imm, r, expected);
  }

  /** Without a limit the run never returns nil: it ends only with the task's
      error or the context's, or is still pending. */
  lemma UnboundedNeverNil(task: Task, d: int, options: seq<Option>, events: seq<Event>)
    requires Assemble(options).limit < 0
    ensures Run(task, d, options, events).verdict != Returned(Ok)
  {
  }

  /** Every negative limit means the same as -1. */
  lemma NegativeLimitsAgree(task: Task, d: int, options: seq<Option>, events: seq<Event>, v: int)
    ensures Assemble(options).limit < 0 ==>
      Run(task, d, options, events) == Run(task, d, options + [WithLimit(-1)], events)
    ensures v < 0 ==>
      Run(task, d, options + [WithLimit(v)], events) == Run(task, d, options + [WithLimit(-1)], events)
  {
    ApplyAllSnoc(Default, options, WithLimit(v));
    ApplyAllSnoc(Default, options, WithLimit(-1));
  }

  /** The bounded loop is the unbounded one with an extra exit: until the limit
      is reached the two agree step for step. */
  lemma {:induction false} LimitLoopAgreesWithForever(remaining: nat, events: seq<Event>, pos: nat, call: Behaviour, count: nat)
    requires pos <= |events|
    ensures LimitLoop(remaining, events, pos, call, count).verdict != Returned(Ok) ==>
      LimitLoop(remaining, events, pos, call, count) == Forever(events, pos, call, count)
    decreases remaining
  {
    if remaining > 0 && pos < |events| && events[pos] == Tick && call(count) == Ok {
      LimitLoopAgreesWithForever(remaining - 1, events, pos + 1, call, count + 1);
    }
  }

  /** A limit changes a run only by stopping it with nil: a run that did not
      return nil ends exactly as it would have without the limit. */
  lemma LimitOnlyCutsShort(task: Task, d: int, options: seq<Option>, events: seq<Event>)
    ensures Run(task, d, options, events).verdict != Returned(Ok) ==>
      Run(task, d, options, events) == Run(task, d, options + [WithLimit(-1)], events)
  {
    ApplyAllSnoc(Default, options, WithLimit(-1));
    var c := Assemble(options);
    if d > 0 && task.Task? && c.limit > 0 {
      if c.immediate {
        if task.call(0) == Ok && c.limit > 1 {
          LimitLoopAgreesWithForever(c.limit - 1, events, 0, task.call, 1);
        }
      } else {
        LimitLoopAgreesWithForever(c.limit, events, 0, task.call, 0);
      }
    }
  }

  /** A run that reached a terminal state read only the events it consumed:
      any trace that starts with them ends the same way. */
  lemma TerminalRunIgnoresRestOfTrace(task: Task, d: int, options: seq<Option>, events: seq<Event>, other: seq<Event>)
    requires !Run(task, d, options, events).verdict.Pending?
    requires Run(task, d, options, events).consumed <= |other|
    requires other[..Run(task, d, options, events).consumed] == events[..Run(task, d, options, events).consumed]
    ensures Run(task, d, options, other) == Run(task, d, options, events)
  {
    var r := Run(task, d, options, events);
    var c := Assemble(options);
    if d > 0 && task.Task? && c.limit != 0 && !(c.immediate && task.call(0).Fail?) {
      var imm := ImmediateCalls(c);
      var b := if c.limit > 0 then AtMost(c.limit - imm) else Unbounded;
      PeriodicPrefix(b, events, other, 0, task.call, imm, r);
      PeriodicDeterministic(b, other, 0, task.call, imm, r, Run(task, d, options, other));
    }
  }

  /** A pending run read the whole trace, and every event in it was a tick. */
  lemma PendingReadsOnlyTicks(task: Task, d: int, options: seq<Option>, events: seq<Event>)
    ensures var r := Run(task, d, options, events);
      r.verdict.Pending? ==> r.consumed == |events| && forall i :: 0 <= i < |events| ==> events[i] == Tick
  {
  }
}
