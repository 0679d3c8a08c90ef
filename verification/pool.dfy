/** The time-based pool: a map from the string form of a key to the entry holding the
    shared service, the operations Get, Put and Del, and the monitor steps that end in
    eviction. */
module Pool {
  import Config
  import Monitor
  import opened Service

  class TimeBasedPool<P, V> {
    const show: P -> string                  // the key's String method
    const create: P -> V                     // the factory
    const opts: seq<Config.IntervalOption>   // options applied to every new entry
    var entries: map<string, Entry<P, V>>
    var closed: seq<V>                       // the services handed to Close, in order
    var created: seq<P>                      // the keys handed to the factory, in order

    /** Every entry sits under the string form of its own key, and is a consistent,
        configured entry whose monitor has not stopped. */
    ghost predicate Valid()
      reads this, entries.Values
    {
      forall k :: k in entries ==>
        && show(entries[k].p) == k
        && entries[k].Valid()
        && !entries[k].done
        && entries[k].interval == Config.Configure(opts)
    }

    /** The entries an operation on key `k` may change. */
    function Slot(k: string): set<Entry<P, V>>
      reads this
    {
      if k in entries then {entries[k]} else {}
    }

    /** True when `e` is the entry currently stored under its own key. */
    ghost predicate Holds(e: Entry<P, V>)
      reads this
    {
      show(e.p) in entries && entries[show(e.p)] == e
    }

    /** `NewTimeBasedStatefulServicePool`: an empty pool. */
    constructor (show: P -> string, create: P -> V, opts: seq<Config.IntervalOption>)
      ensures this.show == show && this.create == create && this.opts == opts
      ensures entries == map[] && closed == [] && created == []
      ensures Valid()
    {
      this.show := show;
      this.create := create;
      this.opts := opts;
      entries := map[];
      closed := [];
      created := [];
    }

    /** `Get` at instant `now`. A resident entry gains one reference and its service is
        returned; otherwise the factory builds a service and a new entry is stored for it.
        No other key's entry is replaced or changed. */
    method Get(p: P, now: int) returns (v: V)
      requires Valid()
      modifies this, Slot(show(p))
      ensures Valid()
      ensures closed == old(closed)
      ensures old(show(p) in entries) ==>
        && entries == old(entries)
        && created == old(created)
        && v == entries[show(p)].v
        && entries[show(p)].State() == Monitor.Add(old(entries[show(p)].State()))
        && Monitor.Refs(entries[show(p)].State()) == old(Monitor.Refs(entries[show(p)].State())) + 1
      ensures old(show(p) !in entries) ==>
        && v == create(p)
        && created == old(created) + [p]
        && show(p) in entries
        && entries == old(entries)[show(p) := entries[show(p)]]
        && fresh(entries[show(p)])
        && entries[show(p)].p == p && entries[show(p)].v == v
        && entries[show(p)].State() == Monitor.Spawned(now)
      ensures forall k :: k in old(entries) && k != show(p) ==>
        k in entries && entries[k] == old(entries[k]) && entries[k].State() == old(entries[k].State())
    {
      var k := show(p);
      if k in entries {
        var e := entries[k];
        Monitor.AddAddsOneRef(e.State());
        e.Add();
        return e.v;
      }
      v := create(p);
      created := created + [p];
      var e := new Entry(p, v, opts, now);
      // an unconditional put
      entries := entries[k := e];
    }

    /** `Put` at instant `now`. A resident entry loses one reference; for an absent key a
        new entry bound to `v` is stored, with put-if-absent, so the key is never left
        absent and no resident entry is overwritten. */
    method Put(p: P, v: V, now: int)
      requires Valid()
      modifies this, Slot(show(p))
      ensures Valid()
      ensures closed == old(closed) && created == old(created)
      ensures old(show(p) in entries) ==>
        && entries == old(entries)
        && entries[show(p)].State() == Monitor.Sub(old(entries[show(p)].State()))
        && Monitor.Refs(entries[show(p)].State()) == old(Monitor.Refs(entries[show(p)].State())) - 1
      ensures old(show(p) !in entries) ==>
        && show(p) in entries
        && entries == old(entries)[show(p) := entries[show(p)]]
        && fresh(entries[show(p)])
        && entries[show(p)].p == p && entries[show(p)].v == v
        && entries[show(p)].State() == Monitor.Spawned(now)
      ensures forall k :: k in old(entries) && k != show(p) ==>
        k in entries && entries[k] == old(entries[k]) && entries[k].State() == old(entries[k].State())
    {
      var k := show(p);
      if k !in entries {
        var e := new Entry(p, v, opts, now);
        // put-if-absent: run right after the lookup missed, so in this sequential model it
        // always inserts; it differs from Get's unconditional put only under a race
        entries := if k in entries then entries else entries[k := e];
        return;
      }
      var e := entries[k];
      Monitor.SubReleasesOneRef(e.State());
      e.Sub();
    }

    /** `Del`: for a resident key, close its service once and remove that key only; for an
        absent key, nothing. The entry's monitor is not stopped. */
    method Del(p: P)
      requires Valid()
      modifies this
      ensures Valid()
      ensures created == old(created)
      ensures old(show(p) in entries) ==>
        entries == old(entries) - {show(p)} && closed == old(closed) + [old(entries[show(p)].v)]
      ensures old(show(p) !in entries) ==>
        entries == old(entries) && closed == old(closed)
    {
      var k := show(p);
      if k !in entries {
        return;
      }
      var e := entries[k];
      closed := closed + [e.v];
      entries := entries - {k};
    }

    /** The end of the monitor goroutine of `e` as the source writes it: delete whatever
        entry is stored under `e`'s key, then stop `e`. */
    method TeardownAsWritten(e: Entry<P, V>)
      requires Valid() && e.Valid() && !e.running
      modifies this, e
      ensures Valid() && !Holds(e)
      ensures created == old(created)
      ensures e.State() == Monitor.Stop(old(e.State()))
      ensures old(show(e.p) in entries) ==>
        entries == old(entries) - {show(e.p)} && closed == old(closed) + [old(entries[show(e.p)].v)]
      ensures old(show(e.p) !in entries) ==>
        entries == old(entries) && closed == old(closed)
    {
      Del(e.p);
      var _ := e.Stop();
    }

    /** The end of the monitor goroutine of `e`, deleting the entry under `e`'s key only if
        it is `e` itself; then stop `e`. */
    method Teardown(e: Entry<P, V>)
      requires Valid() && e.Valid() && !e.running
      modifies this, e
      ensures Valid() && !Holds(e)
      ensures created == old(created)
      ensures e.State() == Monitor.Stop(old(e.State()))
      ensures old(Holds(e)) ==>
        entries == old(entries) - {show(e.p)} && closed == old(closed) + [e.v]
      ensures !old(Holds(e)) ==>
        entries == old(entries) && closed == old(closed)
    {
      var k := show(e.p);
      if k in entries && entries[k] == e {
        Del(e.p);
      }
      var _ := e.Stop();
    }

    /** The monitor of `e` receives a tick stamped `ts`. A tick not older than the idle
        mark ends the loop, and `e` is torn down. */
    method OnTick(e: Entry<P, V>, ts: int) returns (evicted: bool)
      requires Valid() && e.Valid()
      modifies this, e
      ensures Valid()
      ensures created == old(created)
      ensures evicted == Monitor.TickEvicts(old(e.State()), ts)
      ensures e.State() == Monitor.Step(old(e.State()), Monitor.TickAt(ts))
      ensures evicted && old(Holds(e)) ==>
        entries == old(entries) - {show(e.p)} && closed == old(closed) + [e.v]
      ensures !(evicted && old(Holds(e))) ==>
        entries == old(entries) && closed == old(closed)
    {
      evicted := e.Tick(ts);
      if evicted {
        Teardown(e);
      }
    }

    /** The monitor of `e` observes the cancellation of its context: a running loop ends
        and `e` is torn down. */
    method OnCancel(e: Entry<P, V>) returns (evicted: bool)
      requires Valid() && e.Valid()
      modifies this, e
      ensures Valid()
      ensures created == old(created)
      ensures evicted == Monitor.CancelEvicts(old(e.State()))
      ensures e.State() == Monitor.Step(old(e.State()), Monitor.Cancelled)
      ensures evicted && old(Holds(e)) ==>
        entries == old(entries) - {show(e.p)} && closed == old(closed) + [e.v]
      ensures !(evicted && old(Holds(e))) ==>
        entries == old(entries) && closed == old(closed)
    {
      evicted := e.Cancel();
      if evicted {
        Teardown(e);
      }
    }

    /** `OnTick` with the teardown as the source writes it: a tick that ends the loop
        deletes whatever entry is stored under `e`'s key, then stops `e`. */
    method OnTickAsWritten(e: Entry<P, V>, ts: int) returns (evicted: bool)
      requires Valid() && e.Valid()
      modifies this, e
      ensures Valid()
      ensures created == old(created)
      ensures evicted == Monitor.TickEvicts(old(e.State()), ts)
      ensures e.State() == Monitor.Step(old(e.State()), Monitor.TickAt(ts))
      ensures evicted && old(show(e.p) in entries) ==>
        entries == old(entries) - {show(e.p)} && closed == old(closed) + [old(entries[show(e.p)].v)]
      ensures !(evicted && old(show(e.p) in entries)) ==>
        entries == old(entries) && closed == old(closed)
    {
      evicted := e.Tick(ts);
      if evicted {
        TeardownAsWritten(e);
      }
    }

    /** `OnCancel` with the teardown as the source writes it. */
    method OnCancelAsWritten(e: Entry<P, V>) returns (evicted: bool)
      requires Valid() && e.Valid()
      modifies this, e
      ensures Valid()
      ensures created == old(created)
      ensures evicted == Monitor.CancelEvicts(old(e.State()))
      ensures e.State() == Monitor.Step(old(e.State()), Monitor.Cancelled)
      ensures evicted && old(show(e.p) in entries) ==>
        entries == old(entries) - {show(e.p)} && closed == old(closed) + [old(entries[show(e.p)].v)]
      ensures !(evicted && old(show(e.p) in entries)) ==>
        entries == old(entries) && closed == old(closed)
    {
      evicted := e.Cancel();
      if evicted {
        TeardownAsWritten(e);
      }
    }
  }
}
