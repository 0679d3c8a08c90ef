/** One pooled service together with its expiry monitor: the fields the monitor loop and
    the pool update in place, and the methods that update them. Each method is proved to
    perform the corresponding transition of the Monitor state machine. */
module Service {
  import opened Int32
  import Config
  import Monitor

  class Entry<P, V> {
    const p: P              // the key the entry was created for
    const v: V              // the shared service
    const interval: int     // the ticker interval from the configuration
    var count: int32
    var pre: int
    var armed: bool
    var running: bool
    var done: bool
    var events: seq<int32>
    var cancels: nat
    var eventCloses: nat

    function State(): Monitor.MonitorState
      reads this
    {
      Monitor.MonitorState(count, pre, armed, running, done, events, cancels, eventCloses)
    }

    ghost predicate Valid()
      reads this
    {
      Monitor.Inv(State()) && interval > 0
    }

    /** A new entry for `p` and `v` at instant `now`: the interval starts at the default
        and every option is applied; then one reference is sent and the monitor started. */
    constructor (p: P, v: V, opts: seq<Config.IntervalOption>, now: int)
      ensures this.p == p && this.v == v
      ensures interval == Config.Configure(opts)
      ensures State() == Monitor.Spawned(now)
      ensures Valid()
    {
      this.p := p;
      this.v := v;
      var configured := Config.ConfiguredInterval(opts);
      interval := configured;
      count := 0;
      pre := 0;
      armed := false;
      running := false;
      done := false;
      events := [];
      cancels := 0;
      eventCloses := 0;
      new;
      Add();
      Start(now);
    }

    /** `add`: send +1 unless done. */
    method Add()
      requires Valid()
      modifies this
      ensures Valid()
      ensures State() == Monitor.Add(old(State()))
    {
      if done {
        return;
      }
      events := events + [1];
    }

    /** `sub`: send -1 unless done. */
    method Sub()
      requires Valid()
      modifies this
      ensures Valid()
      ensures State() == Monitor.Sub(old(State()))
    {
      if done {
        return;
      }
      events := events + [-1];
    }

    /** `Start`: unless done, launch the monitor loop with a fresh ticker and the idle
        mark at `now`. It is called once, on a new entry whose count is still zero. */
    method Start(now: int)
      requires Valid() && !running && count == 0
      modifies this
      ensures Valid()
      ensures State() == Monitor.Start(old(State()), now)
    {
      if done {
        return;
      }
      running, armed, pre := true, true, now;
    }

    /** The event branch of the loop at instant `now`; `received` tells whether a delta
        was pending and the loop was there to take it. */
    method Receive(now: int) returns (received: bool)
      requires Valid()
      modifies this
      ensures Valid()
      ensures received == Monitor.CanReceive(old(State()))
      ensures State() == Monitor.Receive(old(State()), now)
    {
      received := running && !done && events != [];
      if !received {
        return;
      }
      count := AddInt32(count, events[0]);
      events := events[1..];
      if count <= 0 {
        pre := now;
        armed := true;
      } else {
        armed := false;
      }
    }

    /** The ticker branch with a tick stamped `ts`; `exit` tells whether the loop ended. */
    method Tick(ts: int) returns (exit: bool)
      requires Valid()
      modifies this
      ensures Valid()
      ensures exit == Monitor.TickEvicts(old(State()), ts)
      ensures State() == Monitor.Tick(old(State()), ts)
    {
      if !running || done || !armed {
        return false;
      }
      if pre > ts {
        return false;
      }
      running, armed := false, false;
      return true;
    }

    /** The cancellation branch; `exit` tells whether the loop ended. */
    method Cancel() returns (exit: bool)
      requires Valid()
      modifies this
      ensures Valid()
      ensures exit == Monitor.CancelEvicts(old(State()))
      ensures State() == Monitor.Cancel(old(State()))
    {
      if !running || done {
        return false;
      }
      running, armed := false, false;
      return true;
    }

    /** `Stop`: the call that sets the done flag cancels the context and closes the event
        channel; every later call returns at once. It is called after the loop ended. */
    method Stop() returns (first: bool)
      requires Valid() && !running
      modifies this
      ensures first == !old(done)
      ensures State() == Monitor.Stop(old(State()))
      ensures Valid()
    {
      if done {
        return false;
      }
      done := true;
      cancels := cancels + 1;
      eventCloses := eventCloses + 1;
      return true;
    }
  }
}
