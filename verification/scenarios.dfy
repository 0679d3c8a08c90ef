/** Whole-pool scenarios, each run on a pool of its own: the reference count sequence of
    the pool's test, and a forced eviction followed by a re-creation of the same key. */
module Scenarios {
  import opened Int32
  import Config
  import Monitor
  import opened Service
  import opened Pool

  /** A Get on the resident key `p`, followed by the monitor receiving the +1. */
  method GetAndDeliver<P, V>(pool: TimeBasedPool<P, V>, p: P, e: Entry<P, V>, now: int) returns (v: V)
    requires pool.Valid() && pool.entries == map[pool.show(p) := e]
    requires e.running && e.events == [] && e.count < 100
    modifies pool, e
    ensures pool.Valid() && pool.entries == old(pool.entries)
    ensures pool.closed == old(pool.closed) && pool.created == old(pool.created)
    ensures v == e.v && e.running && e.events == [] && e.count == old(e.count) + 1
  {
    v := pool.Get(p, now);
    assert e.events == [1];
    var got := e.Receive(now);
  }

  /** A Put on the resident key `p`, followed by the monitor receiving the -1. */
  method PutAndDeliver<P, V>(pool: TimeBasedPool<P, V>, p: P, v: V, e: Entry<P, V>, now: int)
    requires pool.Valid() && pool.entries == map[pool.show(p) := e]
    requires e.running && e.events == [] && e.count > -100
    modifies pool, e
    ensures pool.Valid() && pool.entries == old(pool.entries)
    ensures pool.closed == old(pool.closed) && pool.created == old(pool.created)
    ensures e.running && e.events == [] && e.count == old(e.count) - 1
    ensures e.count <= 0 ==> e.running && e.armed && e.pre == now
  {
    pool.Put(p, v, now);
    assert e.events == [-1];
    var got := e.Receive(now);
  }

  /** Get, Get, Put, Put on one key, each followed by the monitor receiving its delta:
      the counts are 1, 2, 1, 0, the factory is called once and both Gets return the
      service it built, and
      the first tick after the last release evicts the key and closes that service once. */
  method ReferenceCountScenario<P, V>(show: P -> string, create: P -> V, p: P)
    returns (counts: seq<int32>, first: V, second: V, created: seq<P>, evicted: bool, resident: bool, closed: seq<V>)
    ensures counts == [1, 2, 1, 0]
    ensures first == create(p) && second == first && created == [p]
    ensures evicted && !resident && closed == [create(p)]
  {
    var pool := new TimeBasedPool(show, create, [Config.SetInterval(10_000_000_000)]);
    first := pool.Get(p, 0);
    var e := pool.entries[show(p)];
    var got := e.Receive(0);
    assert e.count == 1 && e.events == [];
    counts := [e.count];
    second := GetAndDeliver(pool, p, e, 1);
    counts := counts + [e.count];
    PutAndDeliver(pool, p, first, e, 2);
    counts := counts + [e.count];
    PutAndDeliver(pool, p, first, e, 3);
    counts := counts + [e.count];
    evicted := pool.OnTick(e, 3 + e.interval);
    resident := show(p) in pool.entries;
    created := pool.created;
    closed := pool.closed;
  }

  /** The situation of the finding, up to the stale tick: a key is fetched and released
      (its monitor now waits, ticker armed, idle since instant 1), forcibly deleted, and
      handed back with `w`, which creates a successor entry holding one reference. */
  method ForcedDeleteThenPut<P, V>(show: P -> string, create: P -> V, p: P, w: V)
    returns (pool: TimeBasedPool<P, V>, stale: Entry<P, V>, successor: Entry<P, V>)
    ensures pool.Valid() && stale.Valid() && successor.Valid()
    ensures pool.show == show && pool.entries == map[show(p) := successor]
    ensures pool.closed == [create(p)]
    ensures stale != successor && stale.p == p && successor.v == w
    ensures stale.running && stale.armed && stale.pre == 1
    ensures successor.count == 1 && !successor.done
    ensures fresh(pool) && fresh(stale) && fresh(successor)
  {
    pool := new TimeBasedPool(show, create, []);
    var v := pool.Get(p, 0);
    stale := pool.entries[show(p)];
    var got := stale.Receive(0);
    PutAndDeliver(pool, p, v, stale, 1);
    pool.Del(p);
    assert pool.entries == map[] && pool.closed == [create(p)];
    pool.Put(p, w, 2);
    successor := pool.entries[show(p)];
    got := successor.Receive(2);
  }

  /** As written, the stale monitor's tick deletes the successor and closes `w` although
      the successor still holds a reference. */
  method StaleMonitorEvictsSuccessor<P, V>(show: P -> string, create: P -> V, p: P, w: V)
    returns (closed: seq<V>, resident: bool, successorCount: int32)
    ensures closed == [create(p), w]
    ensures !resident && successorCount == 1
  {
    var pool, stale, successor := ForcedDeleteThenPut(show, create, p, w);
    var evicted := pool.OnTickAsWritten(stale, 3);
    assert evicted;
    closed := pool.closed;
    resident := show(p) in pool.entries;
    successorCount := successor.count;
  }

  /** With the corrected teardown the same tick stops the stale monitor only: the
      successor stays resident and `w` is not closed. */
  method StaleMonitorSparesSuccessor<P, V>(show: P -> string, create: P -> V, p: P, w: V)
    returns (closed: seq<V>, resident: bool, successorCount: int32)
    ensures closed == [create(p)]
    ensures resident && successorCount == 1
  {
    var pool, stale, successor := ForcedDeleteThenPut(show, create, p, w);
    var evicted := pool.OnTick(stale, 3);
    assert evicted;
    closed := pool.closed;
    resident := show(p) in pool.entries && pool.entries[show(p)] == successor;
    successorCount := successor.count;
  }
}
