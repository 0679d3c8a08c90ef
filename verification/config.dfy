/** The per-entry configuration of a time-based pool: the ticker interval and the option
    that sets it. Durations and instants are integers counting nanoseconds. */
module Config {

  const Minute: int := 60_000_000_000

  /** The interval every entry starts with before options are applied: ten minutes. */
  const DefaultInterval: int := 10 * Minute

  /** The one configuration option there is, `SetTimeBasedStatefulServiceInterval(interval)`. */
  datatype IntervalOption = SetInterval(interval: int)

  /** The effect of one option on the configured interval: a non-positive duration is
      ignored, any other overwrites the interval. */
  function Apply(opt: IntervalOption, interval: int): (r: int)
    ensures r == interval || r == opt.interval
    ensures interval > 0 ==> r > 0
  {
    if opt.interval <= 0 then interval else opt.interval
  }

  /** The interval obtained by applying `opts`, in order, to the default. */
  function Configure(opts: seq<IntervalOption>): (r: int)
    ensures r > 0
    ensures r == DefaultInterval || exists i :: 0 <= i < |opts| && r == opts[i].interval
    decreases |opts|
  {
    if opts == [] then DefaultInterval
    else Apply(opts[|opts| - 1], Configure(opts[..|opts| - 1]))
  }

  /** The configured interval is the last positive option, or the default when there is
      none; in particular it is always positive, so the ticker can always be created. */
  lemma {:induction false} ConfigureIsLastPositive(opts: seq<IntervalOption>)
    ensures Configure(opts) > 0
    ensures (forall i :: 0 <= i < |opts| ==> opts[i].interval <= 0) ==> Configure(opts) == DefaultInterval
    ensures forall j :: 0 <= j < |opts| && opts[j].interval > 0 &&
                        (forall i :: j < i < |opts| ==> opts[i].interval <= 0)
                        ==> Configure(opts) == opts[j].interval
    decreases |opts|
  {
    if opts != [] {
      var n := |opts| - 1;
      var init := opts[..n];
      ConfigureIsLastPositive(init);
      assert forall i :: 0 <= i < n ==> init[i] == opts[i];
      if opts[n].interval <= 0 {
        forall j | 0 <= j < |opts| && opts[j].interval > 0 &&
                   (forall i :: j < i < |opts| ==> opts[i].interval <= 0)
          ensures Configure(opts) == opts[j].interval
        {
          assert j < n;
          assert init[j] == opts[j];
        }
      }
    }
  }

  /** The option loop of the entry constructor: start from the default and let every
      option update the interval in turn. */
  method ConfiguredInterval(opts: seq<IntervalOption>) returns (interval: int)
    ensures interval == Configure(opts)
    ensures interval > 0
  {
    interval := DefaultInterval;
    for i := 0 to |opts|
      invariant interval == Configure(opts[..i])
    {
      assert opts[..i + 1][..i] == opts[..i];
      interval := Apply(opts[i], interval);
    }
    assert opts[..|opts|] == opts;
    ConfigureIsLastPositive(opts);
  }
}
