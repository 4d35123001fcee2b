/**
 The repository's test scenarios on concrete traces. A wall-clock schedule
 becomes the order of its events: with an interval of 100ms and a deadline at
 350ms the ticker fires three times before the context is done.
 */
module Scenarios {
  import opened Errors
  import opened Options
  import opened Ticker
  import opened TickerProperties

  /** A task that always succeeds. */
  const Succeeding: Behaviour := k => Ok

  /** A task that always fails with one opaque error. */
  const Failing: Behaviour := k => Fail(TaskError(1))

  /** `n` ticks. */
  function Ticks(n: nat): (ts: seq<Event>)
    ensures |ts| == n && forall i :: 0 <= i < n ==> ts[i] == Tick
  {
    seq(n, i => Tick)
  }

  /** `New` keeps a function and maps nil to nil; a nil task is then rejected
      by `Run` with `ErrNilFunction` once the interval is valid. */
  lemma NewScenario(d: int, options: seq<Option>, events: seq<Event>)
    requires d > 0
    ensures New(Func(Succeeding)).Task?
    ensures New(NilFunc).NilTask?
    ensures Run(New(NilFunc), d, options, events) == Report(Returned(Fail(NilFunction)), 0, 0)
  {
  }

  /** A negative interval is rejected with `ErrNonPositiveInterval`, and a nil
      task with a valid interval with `ErrNilFunction`; each matches its
      sentinel under `errors.Is`. */
  lemma InvalidArgumentScenarios()
    ensures OutcomeIs(Run(Task(Succeeding), -1000, [], []).verdict.result, Fail(NonPositiveInterval))
    ensures OutcomeIs(Run(NilTask, 1000, [], []).verdict.result, Fail(NilFunction))
    ensures !OutcomeIs(Run(NilTask, 1000, [], []).verdict.result, Fail(NonPositiveInterval))
  {
  }

  /** Limit 3 with a 350ms deadline on a 100ms ticker: three ticks come before
      the deadline, the run returns nil after three calls and never reads the
      `Done` that follows. */
  lemma RunWithLimitScenario()
    ensures Run(Task(Succeeding), 100, [WithLimit(3)], Ticks(3) + [Done(DeadlineExceeded)])
         == Report(Returned(Ok), 3, 3)
  {
    ApplyAllSnoc(Default, [], WithLimit(3));
    assert [] + [WithLimit(3)] == [WithLimit(3)];
    ExactLimit(Task(Succeeding), 100, [WithLimit(3)], Ticks(3) + [Done(DeadlineExceeded)]);
  }

  /** A task that fails, run with the immediate option: the first call's error
      is returned before any event is read. */
  lemma RunWithErrorScenario(events: seq<Event>)
    ensures Run(Task(Failing), 100, [WithImmediate(true)], events)
         == Report(Returned(Fail(TaskError(1))), 1, 0)
  {
    ApplyAllSnoc(Default, [], WithImmediate(true));
    assert [] + [WithImmediate(true)] == [WithImmediate(true)];
    ImmediateCallFirst(Task(Failing), 100, [WithImmediate(true)], events);
  }

  /** The immediate option with a 150ms deadline on a 100ms ticker: the
      immediate call and one tick's call, then the deadline error. */
  lemma WithImmediateScenario()
    ensures Run(Task(Succeeding), 100, [WithImmediate(true)], [Tick, Done(DeadlineExceeded)])
         == Report(Returned(Fail(ContextError(DeadlineExceeded))), 2, 2)
  {
    ApplyAllSnoc(Default, [], WithImmediate(true));
    assert [] + [WithImmediate(true)] == [WithImmediate(true)];
    CancellationPropagates(Task(Succeeding), 100, [WithImmediate(true)], [Tick, Done(DeadlineExceeded)], 1, DeadlineExceeded);
  }

  /** Limit 5 with a context that is never done: exactly five calls, then nil. */
  lemma WithLimitScenario()
    ensures Run(Task(Succeeding), 10, [WithLimit(5)], Ticks(5)) == Report(Returned(Ok), 5, 5)
  {
    ApplyAllSnoc(Default, [], WithLimit(5));
    assert [] + [WithLimit(5)] == [WithLimit(5)];
    ExactLimit(Task(Succeeding), 10, [WithLimit(5)], Ticks(5));
  }

  /** The package example: limit 5 with the immediate call, so four ticks
      suffice for five calls. */
  lemma ExampleScenario()
    ensures Run(Task(Succeeding), 1000, [WithLimit(5), WithImmediate(true)], Ticks(4))
         == Report(Returned(Ok), 5, 4)
  {
    ApplyAllPair(Default, WithLimit(5), WithImmediate(true));
    ExactLimit(Task(Succeeding), 1000, [WithLimit(5), WithImmediate(true)], Ticks(4));
  }

  /** Cancelling after 50ms on a 10ms ticker: however many ticks come before
      the cancel, each calls the task once, and the run returns
      `context.Canceled`; with at least one tick there is at least one call. */
  lemma ContextCancellationScenario(n: nat)
    ensures Run(Task(Succeeding), 10, [], Ticks(n) + [Done(Canceled)])
         == Report(Returned(Fail(ContextError(Canceled))), n, n + 1)
  {
    var events := Ticks(n) + [Done(Canceled)];
    assert events[n] == Done(Canceled);
    CancellationPropagates(Task(Succeeding), 10, [], events, n, Canceled);
  }
}
