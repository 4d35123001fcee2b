/**
 The run configuration and the options that build it.

 A configuration starts as `{Immediate: false, Limit: -1}` and every option
 given to `Run` overwrites one field of it, in the order given. A limit of 0
 means "never invoke"; every negative limit means "no limit".
 */
module Options {

  datatype Config = Config(immediate: bool, limit: int)

  /** The two options, named after the constructors that build them. */
  datatype Option = WithImmediate(immediate: bool) | WithLimit(limit: int)

  /** The configuration before any option is applied. */
  const Default := Config(false, -1)

  /** The `apply` method of each option type: it writes the one field the
      option names and leaves the other alone. */
  function Apply(o: Option, c: Config): (r: Config)
    ensures o.WithImmediate? ==> r.immediate == o.immediate && r.limit == c.limit
    ensures o.WithLimit? ==> r.limit == o.limit && r.immediate == c.immediate
  {
    match o
    case WithImmediate(v) => c.(immediate := v)
    case WithLimit(v) => c.(limit := v)
  }

  /** Applies the options left to right, starting from `c`. */
  function ApplyAll(c: Config, options: seq<Option>): Config
    decreases |options|
  {
    if |options| == 0 then c else ApplyAll(Apply(options[0], c), options[1..])
  }

  /** The configuration `Run` assembles from its options. */
  function Assemble(options: seq<Option>): Config {
    ApplyAll(Default, options)
  }

  /** Applying `p` then `q` is applying `p + q`. */
  lemma {:induction false} ApplyAllAppend(c: Config, p: seq<Option>, q: seq<Option>)
    ensures ApplyAll(c, p + q) == ApplyAll(ApplyAll(c, p), q)
    decreases |p|
  {
    if |p| == 0 {
      assert p + q == q;
    } else {
      assert (p + q)[1..] == p[1..] + q;
      ApplyAllAppend(Apply(p[0], c), p[1..], q);
    }
  }

  /** One more option is applied after all the earlier ones. */
  lemma ApplyAllSnoc(c: Config, options: seq<Option>, o: Option)
    ensures ApplyAll(c, options + [o]) == Apply(o, ApplyAll(c, options))
  {
    ApplyAllAppend(c, options, [o]);
    assert ApplyAll(Apply(o, ApplyAll(c, options)), []) == Apply(o, ApplyAll(c, options));
  }

  /** Two options are applied first to last. */
  lemma ApplyAllPair(c: Config, first: Option, second: Option)
    ensures ApplyAll(c, [first, second]) == Apply(second, Apply(first, c))
  {
    ApplyAllSnoc(c, [first], second);
    assert [first] + [second] == [first, second];
    ApplyAllSnoc(c, [], first);
    assert [] + [first] == [first];
  }

  /** The loop of `Run` that builds the configuration, option by option. */
  method Configure(options: seq<Option>) returns (c: Config)
    ensures c == Assemble(options)
  {
    c := Default;
    var i := 0;
    while i < |options|
      invariant 0 <= i <= |options|
      invariant c == Assemble(options[..i])
    {
      ApplyAllSnoc(Default, options[..i], options[i]);
      assert options[..i + 1] == options[..i] + [options[i]];
      c := Apply(options[i], c);
      i := i + 1;
    }
    assert options[..i] == options;
  }

  /** Last write wins for the limit: it is the argument of the last
      `WithLimit`, or -1 when there is none. */
  lemma {:induction false} LastLimitWins(options: seq<Option>)
    ensures (forall i :: 0 <= i < |options| ==> !options[i].WithLimit?) ==> Assemble(options).limit == -1
    ensures forall i ::
              0 <= i < |options| && options[i].WithLimit? &&
              (forall j :: i < j < |options| ==> !options[j].WithLimit?)
              ==> Assemble(options).limit == options[i].limit
    decreases |options|
  {
    if |options| > 0 {
      var init := options[..|options| - 1];
      var last := options[|options| - 1];
      assert options == init + [last];
      ApplyAllSnoc(Default, init, last);
      LastLimitWins(init);
      forall i | 0 <= i < |options| && options[i].WithLimit? &&
                 (forall j :: i < j < |options| ==> !options[j].WithLimit?)
        ensures Assemble(options).limit == options[i].limit
      {
        if i < |options| - 1 {
          assert !last.WithLimit?;
          assert init[i] == options[i];
          assert forall j :: i < j < |init| ==> init[j] == options[j];
        }
      }
    }
  }

  /** Last write wins for immediacy: it is the argument of the last
      `WithImmediate`, or false when there is none. */
  lemma {:induction false} LastImmediateWins(options: seq<Option>)
    ensures (forall i :: 0 <= i < |options| ==> !options[i].WithImmediate?) ==> !Assemble(options).immediate
    ensures forall i ::
              0 <= i < |options| && options[i].WithImmediate? &&
              (forall j :: i < j < |options| ==> !options[j].WithImmediate?)
              ==> Assemble(options).immediate == options[i].immediate
    decreases |options|
  {
    if |options| > 0 {
      var init := options[..|options| - 1];
      var last := options[|options| - 1];
      assert options == init + [last];
      ApplyAllSnoc(Default, init, last);
      LastImmediateWins(init);
      forall i | 0 <= i < |options| && options[i].WithImmediate? &&
                 (forall j :: i < j < |options| ==> !options[j].WithImmediate?)
        ensures Assemble(options).immediate == options[i].immediate
      {
        if i < |options| - 1 {
          assert !last.WithImmediate?;
          assert init[i] == options[i];
          assert forall j :: i < j < |init| ==> init[j] == options[j];
        }
      }
    }
  }

  /** Options that write different fields commute, wherever they stand in the
      list. */
  lemma DistinctFieldsCommute(c: Config, p: seq<Option>, a: bool, b: int, s: seq<Option>)
    ensures ApplyAll(c, p + [WithImmediate(a), WithLimit(b)] + s)
         == ApplyAll(c, p + [WithLimit(b), WithImmediate(a)] + s)
  {
    var x := [WithImmediate(a), WithLimit(b)];
    var y := [WithLimit(b), WithImmediate(a)];
    ApplyAllAppend(c, p + x, s);
    ApplyAllAppend(c, p + y, s);
    ApplyAllAppend(c, p, x);
    ApplyAllAppend(c, p, y);
    var m := ApplyAll(c, p);
    ApplyAllPair(m, WithImmediate(a), WithLimit(b));
    ApplyAllPair(m, WithLimit(b), WithImmediate(a));
  }

  /** Giving the same option twice in a row is the same as giving it once. */
  lemma RepeatedOptionIdempotent(c: Config, p: seq<Option>, o: Option, s: seq<Option>)
    ensures ApplyAll(c, p + [o, o] + s) == ApplyAll(c, p + [o] + s)
  {
    ApplyAllAppend(c, p + [o, o], s);
    ApplyAllAppend(c, p + [o], s);
    ApplyAllAppend(c, p, [o, o]);
    ApplyAllAppend(c, p, [o]);
    var m := ApplyAll(c, p);
    ApplyAllPair(m, o, o);
    ApplyAllSnoc(m, [], o);
    assert [] + [o] == [o];
  }
}
