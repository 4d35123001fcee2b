# ticker: a periodic-task driver, modelled in Dafny

`Task.Run(ctx, d, options...)` from the Go package `ticker` calls a
user-supplied `func() error` repeatedly, once per tick of a `time.Ticker`
with interval `d`. It stops when the task returns an error, when the context
is done, or when a configured number of calls has been made. This project
models that driver as pure functions and proves its validation, counting,
termination and error-propagation rules.

Time and the context are replaced by an explicit **event trace**. Each
`select` in the Go loops reads the next event: `Tick` (the ticker fired) or
`Done(reason)` (the context is done, with reason `Canceled` or
`DeadlineExceeded`). When both channels are ready, Go's `select` picks one
at random; the order of the trace stands for that choice. The task is
modelled by its **behaviour**: `call(k)` is what the task returns when it
has already been called `k` times. A run yields a `Report`: the error it
returned (`Returned(Ok)` is nil), how many times it called the task, and
how many events it read. A run that reaches the end of the trace before a
terminal state reports `Pending`.

Files, one module each:

- `errors.dfy` (`Errors`): the sentinels `ErrInvalidArgument`,
  `ErrNonPositiveInterval`, `ErrNilFunction`, the context errors, opaque
  task errors, and Go's `errors.Is` over the `%w` wrap chain.
- `options.dfy` (`Options`): the `config` record, the `WithImmediate` and
  `WithLimit` options, their `apply`, and the fold `Run` performs over them.
- `ticker.dfy` (`Ticker`): `New`, `Run`, `runLimit`, `run` and their two
  loops, plus `Periodic`, a declarative description of every report the
  periodic phase may end with. Each loop is proved to meet it.
- `ticker_properties.dfy` (`TickerProperties`): properties of `Run` over all
  inputs, and the proof that `Periodic` admits exactly one report.
- `driver.dfy` (`Driver`): the same driver written as the Go loops are, one
  event per `select`, proved equal to the functional model.
- `scenarios.dfy` (`Scenarios`): the repository's test cases, stated as
  lemmas about concrete traces.

The interval matters only through its sign.

When the context is done and a tick is pending at the same moment, the Go
code may still take the tick and call the task, once or more than once
(a call longer than the interval leaves another tick pending), because `select`
picks at random among ready cases. So "no call after cancellation" holds only
from the point where the `select` observes the cancellation. The model follows
the code: a `Done` event marks the `select` that took the context's case, and
a trace may hold ticks that were taken after the context was done but before
that `select`.

## Model

| member | source | states |
|---|---|---|
| Errors.InvalidArgumentKinds | task.go:121-129 | `errors.Is(err, ErrInvalidArgument)` holds exactly for the base sentinel and the two validation errors that wrap it. It fails for context errors and opaque task errors. |
| Errors.SentinelsDistinct | task.go:121-129 | The base sentinel matches neither validation error. The two validation errors do not match each other. |
| Errors.UnwrappedMatchesOnlyItself | task.go:121-129 | A context error or an opaque task error matches a target under `errors.Is` only if it is that very value. |
| Options.Apply | option.go:17-39 | `WithImmediate(v)` sets `Immediate` to `v` and leaves `Limit` unchanged. `WithLimit(v)` sets `Limit` to `v` and leaves `Immediate` unchanged. |
| Options.ApplyAllAppend | task.go:50-52 | Applying options `p` and then `q` gives the same configuration as applying `p + q`. |
| Options.Configure | task.go:47-52 | The option loop starts from `{Immediate: false, Limit: -1}` and applies the options in the order given. |
| Options.LastLimitWins | task.go:47-52 | After the fold, `Limit` is the argument of the last `WithLimit`, or -1 if there is none. |
| Options.LastImmediateWins | task.go:47-52 | After the fold, `Immediate` is the argument of the last `WithImmediate`, or false if there is none. |
| Options.DistinctFieldsCommute | option.go:23-39 | Adjacent `WithImmediate` and `WithLimit` options can be swapped anywhere in the list without changing the configuration. |
| Options.RepeatedOptionIdempotent | option.go:23-39 | Giving the same option twice in a row has the same effect as giving it once. |
| Ticker.New | task.go:20-25 | `New` returns a nil Task exactly when the function is nil. Otherwise the Task behaves like the function. |
| Ticker.LimitLoop | task.go:78-88 | The bounded `select` loop meets `Periodic` with budget `remaining`. It returns nil only after `remaining` ticks whose calls all succeeded. Otherwise it stops at the first `Done` or the first failing call, reading nothing after that. |
| Ticker.Forever | task.go:101-110 | The unbounded `select` loop meets `Periodic` with no budget. It never returns nil. It stops at the first `Done` or the first failing call. |
| Ticker.RunLimit | task.go:65-89 | `runLimit` makes the optional immediate call before reading any event, and that call counts against the limit. If it fails, `runLimit` returns its error. If the limit is then spent, `runLimit` returns nil. Otherwise the periodic phase runs with the rest of the limit. |
| Ticker.RunForever | task.go:93-111 | `run` makes the optional immediate call before reading any event and returns its error if it fails. Otherwise the unbounded periodic phase follows. |
| Ticker.Run | task.go:38-61 | A non-positive interval yields `ErrNonPositiveInterval` with no calls and no events read, even when the task is nil. Otherwise a nil task yields `ErrNilFunction`. Otherwise the run follows the assembled configuration: a zero limit, the immediate call and a budgeted periodic phase. |
| TickerProperties.PeriodicDeterministic | task.go:78-110 | Two reports that both meet `Periodic` for the same trace, behaviour and budget are equal. |
| TickerProperties.ValidationErrorsAreInvalidArgument | task.go:39-45 | A bad interval or a nil task yields an error that `errors.Is` matches to `ErrInvalidArgument`. This happens before any call and before any event is read. |
| TickerProperties.ReturnedErrorSource | task.go:65-111 | With valid arguments, every returned error is either the last call's error or the reason of the last event read, which is `Done`. An invalid-argument error can therefore only come from the task itself. |
| TickerProperties.ZeroLimitNeverCalls | task.go:54-56 | A final limit of 0 returns nil with no calls and no events read, even when `Immediate` is set. |
| TickerProperties.CallsBounded | task.go:65-89 | The run reads no more events than the trace holds. A positive limit caps the number of calls. Every call except the immediate one was triggered by an event read from the trace. |
| TickerProperties.ExactLimit | task.go:66-88 | Take a limit `n > 0`, all calls succeeding, and `n - (Immediate ? 1 : 0)` ticks at the head of the trace. Then the run returns nil after exactly `n` calls and reads only those ticks. Any `Done` after them is ignored. |
| TickerProperties.ImmediateCallFirst | task.go:67-75 | With `Immediate` and a non-zero limit, the first call is made before any event is read. If it fails, the run returns its error after one call and no events. With a limit of 1, a successful first call returns nil without reading the trace. |
| TickerProperties.DeferredCallWaitsForTick | task.go:76-83 | Without `Immediate`, a run that called the task read a `Tick` as its first event. |
| TickerProperties.TaskErrorPropagates | task.go:65-111 | Suppose call `k` is the first to fail, with error `e`, and the ticks it needs come before any `Done`. Then the run returns exactly `e` after exactly `k` calls. It reads no event after the tick that triggered call `k`. This holds in both variants and for the immediate call too. |
| TickerProperties.CancellationPropagates | task.go:78-110 | Suppose the first non-tick event is `Done(reason)`, reached before the limit with all calls succeeding. Then the run returns that reason's context error. It has made one call per earlier tick, plus one if `Immediate`. |
| TickerProperties.UnboundedNeverNil | task.go:93-111 | With a negative limit the run never returns nil. |
| TickerProperties.NegativeLimitsAgree | task.go:54-60 | Every negative final limit, wherever in the option list it was set, gives the same run as a final limit of -1. In particular a negative `WithLimit(v)` given last gives the same run as `WithLimit(-1)`. |
| TickerProperties.LimitLoopAgreesWithForever | task.go:78-110 | Until its limit is reached, the bounded loop takes the same steps as the unbounded loop. |
| TickerProperties.LimitOnlyCutsShort | task.go:54-60 | If a run did not return nil, it ends exactly as the same run with no limit. |
| TickerProperties.TerminalRunIgnoresRestOfTrace | task.go:78-110 | A run that reached a terminal state ends the same way on any trace that begins with the events it read. |
| TickerProperties.PendingReadsOnlyTicks | task.go:101-110 | A run is pending only when it read the whole trace and every event in it was a tick. |
| Driver.ExecuteLimit | task.go:65-89 | The imperative `runLimit` loop, with its decrementing counter, computes the same report as `RunLimit`. |
| Driver.ExecuteForever | task.go:93-111 | The imperative endless `select` loop computes the same report as `RunForever`. |
| Driver.Execute | task.go:38-61 | The imperative `Run` computes the same report as the functional `Run`. Its steps are validation, the option loop, the zero-limit return and the dispatch on the limit's sign. |
| Scenarios.NewScenario | task_test.go:36-47 | `New` maps a function to a non-nil Task and nil to nil. A nil Task run with a valid interval yields `ErrNilFunction`. |
| Scenarios.InvalidArgumentScenarios | task_test.go:61-72 | A negative interval yields an error matching `ErrNonPositiveInterval`. A nil task yields one matching `ErrNilFunction` and not `ErrNonPositiveInterval`. |
| Scenarios.RunWithLimitScenario | task_test.go:73-80 | Limit 3, with three ticks before the deadline, returns nil after three calls. |
| Scenarios.RunWithErrorScenario | task_test.go:81-87 | With `Immediate`, a failing task's error is returned after one call, whatever the trace. |
| Scenarios.WithImmediateScenario | task_test.go:106-125 | With `Immediate` and one tick before the deadline, the run makes two calls and returns `DeadlineExceeded`. |
| Scenarios.WithLimitScenario | task_test.go:128-146 | Limit 5 makes exactly five calls and returns nil. |
| Scenarios.ExampleScenario | task_test.go:13-33 | Limit 5 with `Immediate` makes five calls on four ticks and returns nil. |
| Scenarios.ContextCancellationScenario | task_test.go:149-173 | Cancelling after any number `n` of ticks returns `Canceled` after exactly `n` calls, so at least one call when a tick comes before the cancel. |

## Left out

- Wall-clock time: `time.NewTicker`, `t.Stop` and real durations. Ticks are events in the trace. The interval is used only through its sign, and releasing the ticker has no observable effect in the model.
- `context.Context` internals, goroutines and the random choice of `select` when both channels are ready. The order of the trace stands for them.
- Timing claims of the tests, such as "at least 2 executions in 150ms". They depend on the scheduler. The scenarios fix one ordering of events consistent with each test's timing.
- Error message texts (`fmt.Errorf` strings) and the example's printed output. Errors are an enumerated datatype.
- Side effects of the user's task beyond its result, and task errors that wrap other errors. An opaque task error (`TaskError`) wraps nothing.
- Go's `int` (32 or 64 bits, by platform) for the limit. It is never at risk of overflow at either width: it is only decremented from a positive value down to zero. `WithLimit` here accepts any integer, including values outside Go's range, which changes nothing since only the sign and the count down matter.
- Panics. A nil `Option` in the list makes `opt.apply(c)` panic (task.go:51); the `Option` datatype has no nil value, so the model's `Run` returns for every option list. A task that panics or never returns (task.go:68, 81, 95, 104) cannot be expressed either: a behaviour gives a result for every call.
