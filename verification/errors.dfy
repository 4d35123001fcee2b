/**
 The error values a periodic run can end with, and Go's `errors.Is` over them.

 The driver returns one Go `error` that is either nil or one of three kinds:
 - the argument-validation sentinels, `ErrNonPositiveInterval` and
   `ErrNilFunction`, both of which wrap the base sentinel `ErrInvalidArgument`;
 - the context's own error when cancellation is observed (`context.Canceled`
   or `context.DeadlineExceeded`), returned verbatim;
 - whatever error the task itself returned, also verbatim.
 */
module Errors {

  /** Why a context is done: an explicit cancel, or its deadline passing. */
  datatype Reason = Canceled | DeadlineExceeded

  /** A non-nil Go error value. A task may return any of these, including the
      sentinels; `TaskError(code)` stands for every other error value, which
      wraps nothing this model knows about. */
  datatype Error =
    | InvalidArgument
    | NonPositiveInterval
    | NilFunction
    | ContextError(reason: Reason)
    | TaskError(code: nat)

  /** A Go `error` result: nil (`Ok`) or a non-nil error. */
  datatype Outcome = Ok | Fail(error: Error)

  /** True of the errors built with `fmt.Errorf("%w: ...", ErrInvalidArgument)`. */
  predicate Wraps(e: Error) {
    e.NonPositiveInterval? || e.NilFunction?
  }

  /** `errors.Unwrap` on a wrapping error. */
  function Unwrap(e: Error): (inner: Error)
    requires Wraps(e)
    ensures !Wraps(inner)
  {
    InvalidArgument
  }

  /** Length of the wrap chain below `e`. */
  function Depth(e: Error): nat {
    if Wraps(e) then 1 else 0
  }

  /** `errors.Is(err, target)`: `err` or some error it wraps is `target`. */
  function Is(err: Error, target: Error): bool
    decreases Depth(err)
  {
    err == target || (Wraps(err) && Is(Unwrap(err), target))
  }

  /** `errors.Is(err, ErrInvalidArgument)`: the caller misused `Run`. */
  predicate IsInvalidArgument(err: Error) {
    Is(err, InvalidArgument)
  }

  /** `errors.Is` lifted to a possibly-nil error, as the tests use it:
      nil matches only nil. */
  predicate OutcomeIs(o: Outcome, target: Outcome) {
    match o
    case Ok => target.Ok?
    case Fail(e) => target.Fail? && Is(e, target.error)
  }

  /** The kinds of invalid argument are exactly the base sentinel and the two
      validation errors; context errors and opaque task errors are not. */
  lemma InvalidArgumentKinds(err: Error)
    ensures IsInvalidArgument(err) <==> err in {InvalidArgument, NonPositiveInterval, NilFunction}
  {
    if Wraps(err) {
      assert Is(Unwrap(err), InvalidArgument);
    }
  }

  /** Matching only ever goes down the wrap chain: the base sentinel matches no
      sub-kind, and the two validation errors do not match each other, so a
      caller can tell them apart. */
  lemma SentinelsDistinct()
    ensures !Is(InvalidArgument, NonPositiveInterval)
    ensures !Is(InvalidArgument, NilFunction)
    ensures !Is(NonPositiveInterval, NilFunction)
    ensures !Is(NilFunction, NonPositiveInterval)
  {
  }

  /** A context error or an opaque task error matches a target only when it is
      that very value: nothing is wrapped around it. */
  lemma UnwrappedMatchesOnlyItself(err: Error, target: Error)
    requires !Wraps(err)
    ensures Is(err, target) <==> err == target
  {
  }
}
