/** The expiry monitor of one pooled service, as a state machine. Every branch of the
    monitor loop's `select` is one transition; the goroutine, the channel and the clock
    are replaced by explicit steps that carry their timestamps. */
module Monitor {
  import opened Int32

  /** What one entry and its monitor hold. */
  datatype MonitorState = MonitorState(
    count: int32,        // the reference count, changed only when the monitor receives a delta
    pre: int,            // the instant the count last dropped to zero or below (the idle mark)
    armed: bool,         // whether the ticker is running
    running: bool,       // whether the monitor loop is running
    done: bool,          // the done flag, set by the first Stop
    events: seq<int32>,  // deltas sent on the event channel and not yet received
    cancels: nat,        // how often the entry's context has been cancelled
    eventCloses: nat)    // how often the event channel has been closed

  /** A freshly allocated entry: count 0, no monitor yet, nothing sent. */
  function Initial(): MonitorState {
    MonitorState(0, 0, false, false, false, [], 0, 0)
  }

  /** The invariant of a monitor that was started at most once: only a running loop owns
      an armed ticker, and it keeps the ticker armed exactly while the count is at most
      zero; the done flag is set exactly when cancel and close have each run once. */
  ghost predicate Inv(s: MonitorState) {
    && (s.armed ==> s.running)
    && (s.running ==> !s.done && (s.armed <==> s.count <= 0))
    && s.cancels == (if s.done then 1 else 0)
    && s.eventCloses == (if s.done then 1 else 0)
  }

  /** `add` and `sub`: send a delta unless the done flag is set. */
  function Send(s: MonitorState, d: int32): (r: MonitorState)
    ensures Inv(s) ==> Inv(r)
    ensures r.count == s.count && r.running == s.running && r.armed == s.armed && r.pre == s.pre
    ensures !s.done ==> |r.events| == |s.events| + 1 && r.events[|s.events|] == d
  {
    if s.done then s else s.(events := s.events + [d])
  }

  function Add(s: MonitorState): (r: MonitorState)
    ensures Inv(s) ==> Inv(r)
    ensures r.count == s.count && r.running == s.running && r.armed == s.armed
    ensures s.done ==> r == s
    ensures !s.done ==> |r.events| == |s.events| + 1 && r.events[|s.events|] == 1
  {
    Send(s, 1)
  }

  function Sub(s: MonitorState): (r: MonitorState)
    ensures Inv(s) ==> Inv(r)
    ensures r.count == s.count && r.running == s.running && r.armed == s.armed
    ensures s.done ==> r == s
    ensures !s.done ==> |r.events| == |s.events| + 1 && r.events[|s.events|] == -1
  {
    Send(s, -1)
  }

  /** `Start`: unless done, launch the loop with an armed ticker and the idle mark at `now`. */
  function Start(s: MonitorState, now: int): (r: MonitorState)
    ensures Inv(s) && !s.running && s.count == 0 ==> Inv(r)
    ensures s.done ==> r == s
    ensures r.count == s.count && r.events == s.events
  {
    if s.done then s else s.(running := true, armed := true, pre := now)
  }

  /** The state of an entry right after construction at `now`: one +1 sent, monitor started. */
  function Spawned(now: int): (s: MonitorState)
    ensures Inv(s)
    ensures s.running && s.armed && !s.done
    ensures s.count == 0 && s.events == [1] && s.pre == now
  {
    Start(Add(Initial()), now)
  }

  predicate CanReceive(s: MonitorState) {
    s.running && !s.done && s.events != []
  }

  /** The event branch: add the oldest pending delta to the count; at or below zero, mark
      the entry idle at `now` and reset the ticker, above zero stop the ticker. */
  function Receive(s: MonitorState, now: int): (r: MonitorState)
    ensures Inv(s) ==> Inv(r)
    ensures r.running == s.running && r.done == s.done
    ensures !CanReceive(s) ==> r == s
    ensures CanReceive(s) ==> r.events == s.events[1..] && (r.count <= 0 ==> r.pre == now)
  {
    if !CanReceive(s) then s
    else
      var c := AddInt32(s.count, s.events[0]);
      if c <= 0 then s.(count := c, events := s.events[1..], pre := now, armed := true)
      else s.(count := c, events := s.events[1..], armed := false)
  }

  /** The ticker branch ends the loop unless the tick is older than the idle mark. */
  predicate TickEvicts(s: MonitorState, ts: int) {
    s.running && !s.done && s.armed && !(s.pre > ts)
  }

  /** The cancellation branch always ends a running loop. */
  predicate CancelEvicts(s: MonitorState) {
    s.running && !s.done
  }

  /** Leaving the loop; the deferred `ticker.Stop` disarms the ticker. */
  function Exit(s: MonitorState): MonitorState {
    s.(running := false, armed := false)
  }

  function Tick(s: MonitorState, ts: int): (r: MonitorState)
    ensures Inv(s) ==> Inv(r)
    ensures r != s ==> s.running && !r.running && s.pre <= ts
    ensures Inv(s) && r != s ==> s.count <= 0
    ensures r.count == s.count && r.events == s.events && r.done == s.done
  {
    if TickEvicts(s, ts) then Exit(s) else s
  }

  function Cancel(s: MonitorState): (r: MonitorState)
    ensures Inv(s) ==> Inv(r)
    ensures Inv(s) && s.running ==> !r.running
    ensures r.count == s.count && r.events == s.events && r.done == s.done
  {
    if CancelEvicts(s) then Exit(s) else s
  }

  /** `Stop`: only the call that sets the done flag cancels and closes the channel. */
  function Stop(s: MonitorState): (r: MonitorState)
    ensures r.done && r.running == s.running && r.count == s.count
    ensures s.done ==> r == s
    ensures r.cancels <= s.cancels + 1 && r.eventCloses <= s.eventCloses + 1
    ensures Inv(s) && !s.running ==> Inv(r)
  {
    if s.done then s else s.(done := true, cancels := s.cancels + 1, eventCloses := s.eventCloses + 1)
  }

  /** Everything that can happen to a started entry. A tick or cancellation that ends the
      loop is followed by the monitor's own `Stop`. */
  datatype Event = AddRef | SubRef | Deliver(now: int) | TickAt(ts: int) | Cancelled

  function Step(s: MonitorState, e: Event): (r: MonitorState)
    ensures s.done ==> r == s
    ensures r.count != s.count ==> e.Deliver?
    ensures !s.done && r.done ==> e.TickAt? || e.Cancelled?
  {
    match e
    case AddRef => Add(s)
    case SubRef => Sub(s)
    case Deliver(now) => Receive(s, now)
    case TickAt(ts) => if TickEvicts(s, ts) then Stop(Exit(s)) else s
    case Cancelled => if CancelEvicts(s) then Stop(Exit(s)) else s
  }

  function Run(s: MonitorState, trace: seq<Event>): MonitorState
    decreases |trace|
  {
    if trace == [] then s else Run(Step(s, trace[0]), trace[1..])
  }

  /** The references an entry holds once every pending delta has been received. */
  function Sum(ds: seq<int32>): int {
    if ds == [] then 0 else ds[0] as int + Sum(ds[1..])
  }

  function Refs(s: MonitorState): int {
    s.count as int + Sum(s.events)
  }

  lemma {:induction false} SumAppend(ds: seq<int32>, d: int32)
    ensures Sum(ds + [d]) == Sum(ds) + d as int
    decreases |ds|
  {
    if ds != [] {
      assert (ds + [d])[1..] == ds[1..] + [d];
      SumAppend(ds[1..], d);
    }
  }

  /** `add` on a live entry adds exactly one reference. */
  lemma AddAddsOneRef(s: MonitorState)
    requires !s.done
    ensures Refs(Add(s)) == Refs(s) + 1
    ensures Add(s).count == s.count
  {
    SumAppend(s.events, 1);
  }

  /** `sub` on a live entry releases exactly one reference. */
  lemma SubReleasesOneRef(s: MonitorState)
    requires !s.done
    ensures Refs(Sub(s)) == Refs(s) - 1
    ensures Sub(s).count == s.count
  {
    SumAppend(s.events, -1);
  }

  /** Receiving a delta moves it from the channel into the count without changing the
      number of references, unless the addition wraps around. */
  lemma ReceiveKeepsRefs(s: MonitorState, now: int)
    requires CanReceive(s)
    requires InRange(s.count as int + s.events[0] as int)
    ensures Refs(Receive(s, now)) == Refs(s)
    ensures Receive(s, now).count as int == s.count as int + s.events[0] as int
  {
  }

  /** Once the initial +1 of a new entry is received, its count is one and its ticker is
      stopped. */
  lemma FirstDeliveryCountsOne(start: int, now: int)
    ensures Receive(Spawned(start), now).count == 1
    ensures !Receive(Spawned(start), now).armed
    ensures Receive(Spawned(start), now).events == []
  {
  }

  /** Every transition keeps the invariant. */
  lemma StepPreservesInv(s: MonitorState, e: Event)
    requires Inv(s)
    ensures Inv(Step(s, e))
  {
  }

  lemma {:induction false} RunPreservesInv(s: MonitorState, trace: seq<Event>)
    requires Inv(s)
    ensures Inv(Run(s, trace))
    decreases |trace|
  {
    if trace != [] {
      StepPreservesInv(s, trace[0]);
      RunPreservesInv(Step(s, trace[0]), trace[1..]);
    }
  }

  /** Stop is idempotent: a second call changes nothing, so cancel and close run once. */
  lemma StopOnce(s: MonitorState)
    requires Inv(s)
    ensures Stop(Stop(s)) == Stop(s)
    ensures Stop(s).done && Stop(s).cancels == 1 && Stop(s).eventCloses == 1
  {
  }

  /** Once the done flag is set nothing changes the entry any more: `add`, `sub` and the
      loop branches are all inert. */
  lemma {:induction false} DoneIsTerminal(s: MonitorState, trace: seq<Event>)
    requires s.done
    ensures Run(s, trace) == s
    decreases |trace|
  {
    if trace != [] {
      assert Step(s, trace[0]) == s;
      DoneIsTerminal(s, trace[1..]);
    }
  }

  /** While an entry is referenced its ticker is stopped, so no number of ticks, whatever
      their timestamps, can evict it. */
  lemma {:induction false} ReferencedSurvivesTicks(s: MonitorState, trace: seq<Event>)
    requires Inv(s) && s.running && s.count > 0
    requires forall i :: 0 <= i < |trace| ==> trace[i].TickAt?
    ensures Run(s, trace) == s
    decreases |trace|
  {
    if trace != [] {
      assert Step(s, trace[0]) == s;
      ReferencedSurvivesTicks(s, trace[1..]);
    }
  }

  /** An idle entry (count at most zero) is evicted by a run of ticks exactly when one of
      them is not older than the idle mark; ticks older than the mark leave it untouched. */
  lemma {:induction false} IdleEvictedByFreshTick(s: MonitorState, trace: seq<Event>)
    requires Inv(s) && s.running && s.count <= 0
    requires forall i :: 0 <= i < |trace| ==> trace[i].TickAt?
    ensures Run(s, trace).done <==> exists i :: 0 <= i < |trace| && trace[i].ts >= s.pre
    ensures !Run(s, trace).done ==> Run(s, trace) == s
    decreases |trace|
  {
    if trace != [] {
      var rest := trace[1..];
      if trace[0].ts >= s.pre {
        DoneIsTerminal(Step(s, trace[0]), rest);
      } else {
        assert Step(s, trace[0]) == s;
        IdleEvictedByFreshTick(s, rest);
        if exists i :: 0 <= i < |trace| && trace[i].ts >= s.pre {
          var i :| 0 <= i < |trace| && trace[i].ts >= s.pre;
          assert rest[i - 1] == trace[i];
        }
        if exists i :: 0 <= i < |rest| && rest[i].ts >= s.pre {
          var i :| 0 <= i < |rest| && rest[i].ts >= s.pre;
          assert trace[i + 1] == rest[i];
        }
      }
    }
  }
}
