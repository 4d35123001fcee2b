/**
 The periodic-task driver `Task.Run`, with time and the context replaced by an
 explicit trace of events.

 Where the running program waits in a `select` for the next ticker tick or for
 the context to be done, the model reads the next event of the trace: `Tick`
 or `Done(reason)`. The order of the trace stands for the order in which the
 two channels became ready, including the random choice `select` makes when
 both are. The task is the sequence of results its successive calls return.
 A run that reaches the end of the trace before a terminal state reports
 `Pending`: the trace says nothing about what happens next.
 */
module Ticker {
  import opened Errors
  import opened Options

  /** What the task's successive calls return: `call(k)` is the result of the
      call made when `k` calls have already been made. */
  type Behaviour = nat -> Outcome

  /** A Go `func() error` value, possibly nil. */
  datatype Func = NilFunc | Func(call: Behaviour)

  /** The `Task` type, possibly nil. */
  datatype Task = NilTask | Task(call: Behaviour)

  /** `New` converts a function to a Task: nil stays nil, and a function keeps
      its behaviour, so a nil function is only rejected later by `Run`. */
  function New(fn: Func): (t: Task)
    ensures t.NilTask? <==> fn.NilFunc?
    ensures t.Task? ==> forall k: nat :: t.call(k) == fn.call(k)
  {
    match fn
    case NilFunc => NilTask
    case Func(f) => Task(f)
  }

  /** What the `select` observes next: a tick of the ticker, or the context
      being done. */
  datatype Event = Tick | Done(reason: Reason)

  /** The error `Run` returns (nil is `Returned(Ok)`), or `Pending` when the
      trace ended first. */
  datatype Verdict = Returned(result: Outcome) | Pending

  /** The result of one run: its verdict, how many times the task was called
      and how many events of the trace were read. */
  datatype Report = Report(verdict: Verdict, invocations: nat, consumed: nat)

  /** How many more calls the periodic phase may make. */
  datatype Budget = Unbounded | AtMost(n: nat)

  /** After `n` ticks in the periodic phase the limit is not yet reached. */
  predicate Within(b: Budget, n: nat) {
    b.Unbounded? || n < b.n
  }

  /** The `n` events from `pos` are ticks and the `n` calls from `count` all
      succeed. */
  ghost predicate Quiet(events: seq<Event>, pos: nat, n: nat, call: Behaviour, count: nat) {
    && pos + n <= |events|
    && (forall i :: pos <= i < pos + n ==> events[i] == Tick)
    && (forall k: nat :: count <= k < count + n ==> call(k) == Ok)
  }

  /** The reports the periodic phase may end with, when it starts reading the
      trace at `pos` after `count` calls with budget `b`. Each tick calls the
      task once. The phase ends
      - with nil, once a bounded budget is spent by successful calls;
      - with the context's error, at the first `Done` read while the budget lasts;
      - with the task's error, at the first failing call;
      - pending, when the trace runs out while the budget lasts. */
  ghost predicate Periodic(b: Budget, events: seq<Event>, pos: nat, call: Behaviour, count: nat, r: Report) {
    match r.verdict
    case Pending =>
      && pos <= |events|
      && r.consumed == |events|
      && r.invocations == count + (|events| - pos)
      && Quiet(events, pos, |events| - pos, call, count)
      && Within(b, |events| - pos)
    case Returned(Ok) =>
      && b.AtMost?
      && r.consumed == pos + b.n
      && r.invocations == count + b.n
      && Quiet(events, pos, b.n, call, count)
    case Returned(Fail(e)) =>
      && pos < r.consumed <= |events|
      && Quiet(events, pos, r.consumed - 1 - pos, call, count)
      && Within(b, r.consumed - 1 - pos)
      && match events[r.consumed - 1]
         case Done(reason) =>
           e == ContextError(reason) && r.invocations == count + (r.consumed - 1 - pos)
         case Tick =>
           call(count + (r.consumed - 1 - pos)) == Fail(e) && r.invocations == count + (r.consumed - pos)
  }

  /** The budget left after one call. */
  function Spend(b: Budget): Budget
    requires Within(b, 0)
  {
    match b
    case Unbounded => Unbounded
    case AtMost(n) => AtMost(n - 1)
  }

  /** A successful tick-triggered call followed by any report the rest of the
      phase may end with is a report the whole phase may end with. */
  lemma PeriodicStep(b: Budget, events: seq<Event>, pos: nat, call: Behaviour, count: nat, r: Report)
    requires pos < |events| && events[pos] == Tick && call(count) == Ok && Within(b, 0)
    requires Periodic(Spend(b), events, pos + 1, call, count + 1, r)
    ensures Periodic(b, events, pos, call, count, r)
  {
    match r.verdict
    case Pending =>
      assert Quiet(events, pos, |events| - pos, call, count);
    case Returned(Ok) =>
      assert Quiet(events, pos, b.n, call, count);
    case Returned(Fail(e)) =>
      assert Quiet(events, pos, r.consumed - 1 - pos, call, count);
  }

  /** The loop of `runLimit`: `remaining` more calls are allowed. */
  function LimitLoop(remaining: nat, events: seq<Event>, pos: nat, call: Behaviour, count: nat): (r: Report)
    requires pos <= |events|
    ensures Periodic(AtMost(remaining), events, pos, call, count, r)
    decreases remaining
  {
    if remaining == 0 then Report(Returned(Ok), count, pos)
    else if pos == |events| then Report(Pending, count, pos)
    else match events[pos]
      case Done(reason) => Report(Returned(Fail(ContextError(reason))), count, pos + 1)
      case Tick =>
        if call(count).Fail? then Report(Returned(call(count)), count + 1, pos + 1)
        else
          var r := LimitLoop(remaining - 1, events, pos + 1, call, count + 1);
          PeriodicStep(AtMost(remaining), events, pos, call, count, r);
          r
  }

  /** The loop of `run`: no limit on the number of calls. */
  function Forever(events: seq<Event>, pos: nat, call: Behaviour, count: nat): (r: Report)
    requires pos <= |events|
    ensures Periodic(Unbounded, events, pos, call, count, r)
    decreases |events| - pos
  {
    if pos == |events| then Report(Pending, count, pos)
    else match events[pos]
      case Done(reason) => Report(Returned(Fail(ContextError(reason))), count, pos + 1)
      case Tick =>
        if call(count).Fail? then Report(Returned(call(count)), count + 1, pos + 1)
        else
          var r := Forever(events, pos + 1, call, count + 1);
          PeriodicStep(Unbounded, events, pos, call, count, r);
          r
  }

  /** The reports a whole run may end with once its arguments are valid and its
      configuration is `c`: nothing at all under a zero limit; otherwise the
      optional immediate call, which counts against the limit and ends the run
      on failure, then the periodic phase with what is left of the limit. */
  ghost predicate Follows(call: Behaviour, c: Config, events: seq<Event>, r: Report) {
    if c.limit == 0 then r == Report(Returned(Ok), 0, 0)
    else
      var b := if c.limit > 0 then AtMost(c.limit) else Unbounded;
      if c.immediate then
        if call(0).Fail? then r == Report(Returned(call(0)), 1, 0)
        else Periodic(Spend(b), events, 0, call, 1, r)
      else Periodic(b, events, 0, call, 0, r)
  }

  /** `runLimit`: at most `c.limit` calls. */
  function RunLimit(call: Behaviour, c: Config, events: seq<Event>): (r: Report)
    requires c.limit > 0
    ensures Follows(call, c, events, r)
  {
    if c.immediate then
      if call(0).Fail? then Report(Returned(call(0)), 1, 0)
      else if c.limit - 1 == 0 then Report(Returned(Ok), 1, 0)
      else LimitLoop(c.limit - 1, events, 0, call, 1)
    else LimitLoop(c.limit, events, 0, call, 0)
  }

  /** `run`: calls until the task fails or the context is done. */
  function RunForever(call: Behaviour, c: Config, events: seq<Event>): (r: Report)
    requires c.limit < 0
    ensures Follows(call, c, events, r)
  {
    if c.immediate then
      if call(0).Fail? then Report(Returned(call(0)), 1, 0)
      else Forever(events, 0, call, 1)
    else Forever(events, 0, call, 0)
  }

  /** `Task.Run(ctx, d, options...)`. The interval is checked before the task,
      and both before the options are looked at or anything is read or called;
      the interval matters only through its sign. */
  function Run(task: Task, d: int, options: seq<Option>, events: seq<Event>): (r: Report)
    ensures d <= 0 ==> r == Report(Returned(Fail(NonPositiveInterval)), 0, 0)
    ensures d > 0 && task.NilTask? ==> r == Report(Returned(Fail(NilFunction)), 0, 0)
    ensures d > 0 && task.Task? ==> Follows(task.call, Assemble(options), events, r)
  {
    if d <= 0 then Report(Returned(Fail(NonPositiveInterval)), 0, 0)
    else if task.NilTask? then Report(Returned(Fail(NilFunction)), 0, 0)
    else
      var c := Assemble(options);
      if c.limit == 0 then Report(Returned(Ok), 0, 0)
      else if c.limit > 0 then RunLimit(task.call, c, events)
      else RunForever(task.call, c, events)
  }
}
