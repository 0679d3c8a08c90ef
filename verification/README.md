# Time-based stateful service pool, modelled in Dafny

This project models the keyed, reference-counted service pool of `time_based.go`.
The pool maps the string form of a key (`p.String()`) to an entry. An entry holds
the shared service, a signed 32-bit reference count and a configured ticker interval.
Each entry has an expiry monitor: a loop that receives count deltas, owns a ticker,
and evicts the entry once it has been idle for a tick.

The model is sequential. Every branch of the monitor's `select` is an explicit step
that the caller performs, with its timestamp as an argument:

- a delta received from the event channel;
- a tick;
- a cancellation of the entry's context.

Time is an integer count of nanoseconds.

Modules:

- `Int32` (`int32.dfy`): the `int32` type and the wrapping addition of `atomic.AddInt32`.
- `Config` (`config.dfy`): the interval option, the ten-minute default and the option loop.
- `Monitor` (`monitor.dfy`): the monitor as a pure state machine.
  It has the invariant, a reference measure `Refs` (the count plus the deltas still
  in the channel), traces of events, and the lemmas about them.
- `Service` (`service.dfy`): the class `Entry`.
  It stands for `timeBasedStatefulService` together with its `refreshExpiryTimeGoroutine`.
  Its fields are updated in place, and each method is proved to perform one `Monitor`
  transition.
- `Pool` (`pool.dfy`): the class `TimeBasedPool`.
  Its field `entries: map<string, Entry>` is reassigned by `Get`, `Put` and `Del`.
  `OnTickAsWritten` and `OnCancelAsWritten` are the monitor branches that end in
  teardown, as the source writes them; `OnTick` and `OnCancel` are the same branches
  with the corrected teardown of the finding below.
- `Scenarios` (`scenarios.dfy`): whole-pool runs.
  One is the count sequence of the pool's test. Two more show the finding below.

The expiry policy is an idle timer.
A new entry starts with count 0 and a queued +1 event. Its monitor starts with an armed
ticker and the idle mark `pre` set to the start time.
When a received delta leaves the count at or below zero, `pre` becomes the current
instant and the ticker is reset. When the count goes above zero, the ticker is stopped.
The first tick that is not older than `pre` evicts the entry.

## Model

| member | source | states |
|---|---|---|
| `Int32.AddInt32` | time_based.go:52 | the new count is the old count plus the delta modulo 2^32, and exactly that sum whenever the sum fits in 32 bits |
| `Config.Apply` | time_based.go:17-24 | one option either keeps the interval or replaces it by its own duration, and keeps a positive interval positive |
| `Config.Configure` | time_based.go:135-137 | applying the options in order to the default yields a positive interval that is the default or one of the options' durations |
| `Config.ConfigureIsLastPositive` | time_based.go:17-24 | applying the options keeps the interval positive; a non-positive option is ignored and the last positive one wins; with none the interval stays at the 10-minute default |
| `Config.ConfiguredInterval` | time_based.go:124-137 | the option loop starting from 10 minutes yields the configured interval, which is positive |
| `Monitor.Add` | time_based.go:106-111 | `add` keeps the invariant, leaves the count and the loop alone, does nothing once done, and otherwise queues exactly one +1 at the end |
| `Monitor.Sub` | time_based.go:113-118 | `sub` keeps the invariant, leaves the count and the loop alone, does nothing once done, and otherwise queues exactly one -1 at the end |
| `Monitor.Start` | time_based.go:32-40 | starting a new entry keeps the invariant, leaves count and pending deltas alone, and does nothing once done |
| `Monitor.Receive` | time_based.go:51-58 | receiving keeps the invariant and never ends the loop; with a delta pending it consumes the oldest one and, when the count ends at or below 0, sets the idle mark to the current instant |
| `Monitor.Tick` | time_based.go:46-50 | a tick keeps the invariant; it changes the state only by ending a running loop, only when not older than the idle mark, and only for an entry whose count is at most 0 |
| `Monitor.Cancel` | time_based.go:44-45 | a cancellation keeps the invariant and always ends a running loop, leaving count and pending deltas alone |
| `Monitor.Stop` | time_based.go:71-77 | after Stop the entry is done; a second Stop changes nothing; cancel and close run at most once more; a stopped loop keeps the invariant |
| `Monitor.Step` | time_based.go:41-67 | a done entry is inert; only a received delta changes the count; only a tick or a cancellation sets done |
| `Monitor.Spawned` | time_based.go:127-141 | a new entry has count 0, exactly one pending +1, a running monitor with armed ticker and idle mark at its start time, and satisfies the invariant |
| `Monitor.FirstDeliveryCountsOne` | time_based.go:51-58 | once a new entry's initial +1 is received, its count is 1, nothing is pending and its ticker is stopped |
| `Monitor.AddAddsOneRef` | time_based.go:106-111 | `add` on an entry that is not done adds exactly one reference and leaves the count to the monitor |
| `Monitor.SubReleasesOneRef` | time_based.go:113-118 | `sub` on an entry that is not done removes exactly one reference |
| `Monitor.ReceiveKeepsRefs` | time_based.go:51-52 | receiving a delta adds it to the count and, without wrap-around, keeps the number of references |
| `Monitor.StepPreservesInv` | time_based.go:41-60 | every loop branch keeps the invariant: the ticker is armed exactly while the loop runs with count at most 0, and cancel and close have run once exactly when done is set |
| `Monitor.RunPreservesInv` | time_based.go:41-67 | any sequence of sends, receives, ticks and cancellations keeps that invariant |
| `Monitor.StopOnce` | time_based.go:71-77 | Stop is idempotent: after it the entry is done, cancelled once and its channel closed once, and a second Stop changes nothing |
| `Monitor.DoneIsTerminal` | time_based.go:106-118 | once done is set, no send, receive, tick or cancellation changes the entry |
| `Monitor.ReferencedSurvivesTicks` | time_based.go:53-58 | while the count is above 0 the ticker is stopped, so any number of ticks leaves the entry unchanged and resident |
| `Monitor.IdleEvictedByFreshTick` | time_based.go:46-50 | for an idle entry, a run of ticks evicts it exactly when one tick is not older than the idle mark; otherwise the entry is unchanged |
| `Service.Entry.constructor` | time_based.go:120-144 | a new entry carries the key and service, the configured interval, and the spawned state: one +1 queued, monitor started |
| `Service.Entry.Add` | time_based.go:106-111 | unless done, one +1 is appended to the pending deltas; nothing else changes |
| `Service.Entry.Sub` | time_based.go:113-118 | unless done, one -1 is appended to the pending deltas; nothing else changes |
| `Service.Entry.Start` | time_based.go:32-40 | unless done, the loop runs with an armed ticker and the idle mark at the start instant |
| `Service.Entry.Receive` | time_based.go:51-58 | the oldest pending delta is added to the count (wrapping); at or below 0 the idle mark is set and the ticker armed, above 0 the ticker is stopped |
| `Service.Entry.Tick` | time_based.go:46-50 | a tick older than the idle mark is ignored; otherwise a running loop with an armed ticker ends |
| `Service.Entry.Cancel` | time_based.go:44-45 | a cancellation ends a running loop |
| `Service.Entry.Stop` | time_based.go:71-77 | only the call that sets done cancels the context and closes the channel; it reports whether it was that call |
| `Pool.TimeBasedPool.constructor` | time_based.go:185-192 | a new pool is empty and keeps the factory, the key projection and the options |
| `Pool.TimeBasedPool.Get` | time_based.go:156-165 | on a hit the stored service is returned, the entry gains exactly one reference, and the map and factory log are unchanged; on a miss the factory is called once, and a new spawned entry bound to its result is stored under `p.String()`; other keys are untouched |
| `Pool.TimeBasedPool.Put` | time_based.go:167-174 | on a hit the entry loses exactly one reference; on a miss a new spawned entry bound to the supplied value is put if absent, so the key is then resident; other keys are untouched and nothing is closed |
| `Pool.TimeBasedPool.Del` | time_based.go:176-183 | an absent key changes nothing; a resident key's service is closed once and only that key is removed |
| `Pool.TimeBasedPool.TeardownAsWritten` | time_based.go:62-67 | deletes and closes whatever entry is stored under the monitor's key, then stops the monitor's entry |
| `Pool.TimeBasedPool.Teardown` | time_based.go:62-67 | deletes and closes the monitor's own entry only if it is still stored, then stops it |
| `Pool.TimeBasedPool.OnTickAsWritten` | time_based.go:46-67 | a tick that ends the loop deletes and closes whatever entry is stored under the monitor's key and stops the monitor's entry; any other tick changes nothing |
| `Pool.TimeBasedPool.OnCancelAsWritten` | time_based.go:44-67 | a cancellation of a running loop deletes and closes whatever entry is stored under the monitor's key and stops the monitor's entry |
| `Pool.TimeBasedPool.OnTick` | time_based.go:46-67 | with the corrected teardown: a tick that ends the loop evicts the monitor's own entry if it is still stored (removed once, closed once) and stops it; any other tick changes nothing |
| `Pool.TimeBasedPool.OnCancel` | time_based.go:44-67 | with the corrected teardown: a cancellation of a running loop evicts the monitor's own entry if it is still stored and stops it |
| `Scenarios.ReferenceCountScenario` | time_based_test.go:40-61 | Get, Get, Put, Put yield counts 1, 2, 1, 0; the factory is called exactly once and both Gets return the service it built; the next tick evicts the key and closes that service exactly once |
| `Scenarios.StaleMonitorEvictsSuccessor` | time_based.go:64 | as written, a stale monitor's tick closes and removes a successor entry that holds a reference |
| `Scenarios.StaleMonitorSparesSuccessor` | time_based.go:64 | with the corrected teardown the same tick leaves the successor resident and its service open |

## Left out

- Goroutines and `atomic` operations are not modelled. The model is sequential: each `select` branch is a step the caller takes, so the caller chooses the interleaving.
- The event channel is an unbounded sequence of pending deltas. Its capacity of 10, blocking sends, and the panic of a send on a closed channel are not modelled.
- Real clocks and `time.Ticker` are not modelled. A tick is a step with its timestamp as an argument, and the ticker is an `armed` flag plus the interval. A tick already buffered when the ticker is stopped is not delivered.
- Tick timestamps are unconstrained: nothing ties a tick to the last reset plus the interval, so a new entry can be evicted by a tick stamped at its own start time, which a real ticker cannot deliver before one interval has passed. The configured interval therefore affects no proved property.
- Context propagation is not modelled. Cancellation is an input step for one entry; cancelling the pool's context corresponds to `OnCancelAsWritten` on every entry (`OnCancel` with the corrected teardown).
- The concurrent map library is replaced by a Dafny `map<string, Entry>`. Its own atomicity is not modelled.
- The factory and `Close` are abstract. The factory is a function given to the pool, and its calls are logged in `created`; `Close` calls are logged in `closed`.
- The factory is deterministic: two calls for the same key give equal values, so neither equality of services nor the `closed` log can tell two instances apart; whether a service was rebuilt is read from the `created` log and from entry identity instead.
- Service.Entry.Start: requires a new entry (count 0, loop not yet running), the only way the source calls it; a second start, which would launch a second goroutine, is not modelled.
- The test's sleep-based check of eviction after ten seconds depends on wall-clock scheduling. `ReferenceCountScenario` replaces it with an explicit tick.
- Concurrent `Get` calls racing on one absent key are not modelled, because the model is sequential. For the same reason `Put`'s put-if-absent always inserts and differs from `Get`'s unconditional put only in text. In a race, the losing entry's monitor would keep running and could later delete the winner, as in the finding below.
- Pool.TimeBasedPool.OnTick: uses the corrected teardown, so a stale monitor's tick leaves the entry stored under its key alone; the source's path is `OnTickAsWritten` (`Entry.Tick` followed by `TeardownAsWritten`).
- Pool.TimeBasedPool.OnCancel: uses the corrected teardown in the same way; the source's path is `OnCancelAsWritten` (`Entry.Cancel` followed by `TeardownAsWritten`).

## Findings

| source | as written | input that shows it | evidently intended | confidence | as-written member | corrected member |
|---|---|---|---|---|---|---|
| time_based.go:64 | the monitor's teardown calls `pool.Del(p)`, which closes and removes whatever entry is stored under `p.String()` | `Get(k)`, `Put(k, v)` (count 0, ticker armed, idle mark t), `Del(k)` (monitor left running), `Put(k, w)` (successor entry, count 1), then the old monitor ticks at t or later: `w` is closed and `k` removed while referenced | the teardown removes only the monitor's own entry, as the comment before it says | medium; not executed | `Pool.TimeBasedPool.TeardownAsWritten` (through `OnTickAsWritten` and `OnCancelAsWritten`), exhibited by `Scenarios.StaleMonitorEvictsSuccessor` | `Pool.TimeBasedPool.Teardown`, used by `OnTick` and `OnCancel`, shown by `Scenarios.StaleMonitorSparesSuccessor` |
