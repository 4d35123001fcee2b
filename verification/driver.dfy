/**
 `Task.Run`, `runLimit` and `run` written as the loops they are, reading the
 event trace one event per `select`, and proved to compute the same reports
 as the functional model in `Ticker`.
 */
module Driver {
  import opened Errors
  import opened Options
  import opened Ticker

  /** `runLimit`: the immediate call spends one unit of the limit; then each
      pass of the `for ; limit > 0; limit--` loop reads one event. */
  method ExecuteLimit(call: Behaviour, c: Config, events: seq<Event>) returns (r: Report)
    requires c.limit > 0
    ensures r == RunLimit(call, c, events)
  {
    var limit: nat := c.limit;
    var count: nat := 0;
    if c.immediate {
      var out := call(0);
      count := 1;
      if out.Fail? {
        return Report(Returned(out), count, 0);
      }
      limit := limit - 1;
      if limit == 0 {
        return Report(Returned(Ok), count, 0);
      }
    }
    var pos: nat := 0;
    while limit > 0
      invariant pos <= |events|
      invariant LimitLoop(limit, events, pos, call, count) == RunLimit(call, c, events)
      decreases limit
    {
      if pos == |events| {
        return Report(Pending, count, pos);
      }
      var ev := events[pos];
      pos := pos + 1;
      if ev.Done? {
        return Report(Returned(Fail(ContextError(ev.reason))), count, pos);
      }
      var out := call(count);
      count := count + 1;
      if out.Fail? {
        return Report(Returned(out), count, pos);
      }
      limit := limit - 1;
    }
    return Report(Returned(Ok), count, pos);
  }

  /** `run`: the optional immediate call, then the endless `select` loop. */
  method ExecuteForever(call: Behaviour, c: Config, events: seq<Event>) returns (r: Report)
    requires c.limit < 0
    ensures r == RunForever(call, c, events)
  {
    var count: nat := 0;
    if c.immediate {
      var out := call(0);
      count := 1;
      if out.Fail? {
        return Report(Returned(out), count, 0);
      }
    }
    var pos: nat := 0;
    while true
      invariant pos <= |events|
      invariant Forever(events, pos, call, count) == RunForever(call, c, events)
      decreases |events| - pos
    {
      if pos == |events| {
        return Report(Pending, count, pos);
      }
      var ev := events[pos];
      pos := pos + 1;
      if ev.Done? {
        return Report(Returned(Fail(ContextError(ev.reason))), count, pos);
      }
      var out := call(count);
      count := count + 1;
      if out.Fail? {
        return Report(Returned(out), count, pos);
      }
    }
  }

  /** `Task.Run`: validation, the option loop, the zero-limit return and the
      dispatch on the sign of the limit. */
  method Execute(task: Task, d: int, options: seq<Option>, events: seq<Event>) returns (r: Report)
    ensures r == Run(task, d, options, events)
  {
    if d <= 0 {
      return Report(Returned(Fail(NonPositiveInterval)), 0, 0);
    }
    if task.NilTask? {
      return Report(Returned(Fail(NilFunction)), 0, 0);
    }
    var c := Configure(options);
    if c.limit == 0 {
      return Report(Returned(Ok), 0, 0);
    }
    if c.limit > 0 {
      r := ExecuteLimit(task.call, c, events);
    } else {
      r := ExecuteForever(task.call, c, events);
    }
  }
}
