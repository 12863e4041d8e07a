# Variable-change monitor of the flooding-alert client, in Dafny

This project models `AlagamentosGlobal`, the client in `API/lib/alagamentos.py`
that watches remote variables of the flooding-alert service ("alagamentos")
and calls registered callbacks when a variable's value changes. The model
covers its registry and the monitor's state machine:

- `event_pool`: key → append-only list of callbacks. A callback's handle is its
  position in that list.
- `ignore_pool`: key → list of retired handles. These are tombstones; the
  callback list is never compacted.
- `_last_values`: key → baseline, the last value seen.
- The monitor thread and the stop event, as two booleans `running` and
  `stopEvent`.

Files:

- `dispatch.dfy` (module `Dispatch`): the fan-out of one detected change.
  `Dispatched` is the specification of which callbacks a change reaches.
  `DispatchKey` is the dispatch loop, proved against it. Lemmas prove that
  exactly the live handles are called, in ascending order, and that a raising
  callback does not change who is called. `FreeIndex` is the "next free
  index" search that registration runs and then ignores.
- `alagamentos.dfy` (module `Alagamentos`): the class `Monitor` with
  `Watch` (`var_onchange`), `Unwatch` (`var_onchange_clear`), `PollKey` (one
  key's compare-and-dispatch step of `_monitor`), `Cycle` (one iteration of
  the `_monitor` loop) and `Stop` (`stop`). `CycleLog` specifies a whole
  poll cycle, and lemmas prove it sound, complete and insensitive to failing
  callbacks. `Refreshed` specifies the baselines a cycle leaves behind.
- `scenarios.dfy` (module `Scenarios`): concrete runs derived only from the
  method contracts. These are the water-level example, the two-callback
  "status" example, a failed fetch, and a stop followed by a new registration.

Modelling decisions:

- Every method is one atomic call. `Watch` and `Unwatch` are each one
  `with self._lock:` section of the source. `PollKey` is one key's step of
  the poller: the comparison and baseline update under the lock
  (lines 173-184), then the dispatch over the copied lists outside it
  (lines 186-193). `Stop` takes no lock: it sets the event, joins, and
  clears the four fields one at a time (lines 199-210). `Cycle` is a whole iteration of the
  `_monitor` loop run atomically: the key snapshot, and for each key the
  fetch, the comparison and the callback calls. In the source the fetches
  and the calls run outside the lock, and each key's callback lists are
  copied when that key is reached (lines 183-184). `Cycle` judges every key
  against the callbacks and tombstones as they were when the cycle began.
  The network fetch is a parameter of type `Option<V>`. `var_get` turns every transport
  error into `None` (alagamentos.py:57-61), so a failed fetch arrives as
  `None`, exactly like a missing or null value.
- A failed poll fetch is therefore not skipped. `None` is compared with the
  baseline like any other value, and a key whose baseline is a real value is
  reported as changed to `None`. The `except` at alagamentos.py:168-171 can
  never fire, because `var_get` never raises the error it catches. The model
  follows the code, not the "skip the key" intent stated in that comment.
- The handle that `var_onchange` returns is `len(event_pool[k]) - 1`
  (line 126). The free-index search at lines 105-107 computes a value and
  discards it; `Watch` does the same with `FreeIndex`.
- The order in which a cycle visits keys is the insertion order of the
  `event_pool` dictionary. The field `keys` records that order.
- A callback is an opaque token. Whether a call raises is an input
  `raises: (Cb, Option<V>) -> bool`. Every invocation is recorded in the
  returned log. Its `raised` flag stands for the error that line 193 logs
  for a call that raises.
- `running` is "the monitor thread exists and is alive". `_stop_event` is set
  by `stop` (line 201) and never cleared. A thread started by a later
  `var_onchange` leaves its `while` at line 158 at once, so in the model a
  poller never runs again after a stop (`running` stays false). A later
  `stop` then finds no live thread and changes nothing: the model takes the
  outcome in which that short-lived thread has already ended when `stop`
  checks `is_alive()` at line 199.

## Model

| member | source | states |
|---|---|---|
| `Alagamentos.Monitor.constructor` | API/lib/alagamentos.py:15-28 | a new monitor has empty callback, tombstone and baseline maps, no poller and a clear stop signal |
| `Alagamentos.Monitor.Watch` | API/lib/alagamentos.py:92-126 | appends the callback to the key's list and returns its position, the old list length, so handles for a key run 0, 1, 2, …; the key gets a baseline from the fetch only if it had none; an existing baseline, the tombstones and other keys are unchanged; a poller is started if none is alive, and it is alive only if the stop signal is clear |
| `Dispatch.FreeIndex` | API/lib/alagamentos.py:104-107 | the search yields the least non-negative integer that is not a retired handle of the key |
| `Alagamentos.Monitor.Unwatch` | API/lib/alagamentos.py:128-151 | for a known key and 0 <= h < length of its list, appends h to the key's tombstones; callbacks, baselines and poller are unchanged; an unknown key or an out-of-range h changes nothing |
| `Alagamentos.Monitor.PollKey` | API/lib/alagamentos.py:173-191 | with no baseline, the fetched value becomes the baseline and nothing is called; an equal value calls nothing and changes nothing; a different value becomes the baseline and the key's live callbacks are called with it; the callback and tombstone maps are never changed |
| `Dispatch.DispatchKey` | API/lib/alagamentos.py:183-193 | the dispatch loop over the copied callback list produces exactly the specified invocations, skipping retired handles and continuing past callbacks that raise |
| `Dispatch.DispatchedSound` | API/lib/alagamentos.py:186-191 | every invocation is of the key's own callback at a handle below the list length that is not retired, is made with the new value and records that callback's outcome; there are at most as many invocations as slots |
| `Dispatch.DispatchedReachesExactlyActive` | API/lib/alagamentos.py:186-191 | a handle is called if and only if it is a position of the list and not retired, so a retired handle is never called |
| `Dispatch.DispatchedAscending` | API/lib/alagamentos.py:186 | handles are called in strictly ascending order, so each live handle is called exactly once |
| `Dispatch.DispatchedIgnoresFailures` | API/lib/alagamentos.py:190-193 | the (key, handle) pairs called do not depend on which callbacks raise |
| `Alagamentos.Monitor.Cycle` | API/lib/alagamentos.py:158-193 | with a live poller, polls every key of the snapshot in insertion order and returns the specified cycle log; afterwards every polled key's baseline is its fetched value and nothing else changes; with no live poller (never started or stopped) nothing happens |
| `Alagamentos.RefreshedSound` | API/lib/alagamentos.py:173-182 | after a cycle over keys that all have baselines, the same keys have baselines, every polled key's baseline is its fetched value and every other key keeps its old one |
| `Alagamentos.CycleLogSound` | API/lib/alagamentos.py:162-191 | every invocation in a cycle is of a live callback of a snapshot key whose fetched value differs from its baseline, made with that fetched value |
| `Alagamentos.CycleLogComplete` | API/lib/alagamentos.py:164-191 | every live callback of every snapshot key whose fetched value differs from its baseline is called in the cycle |
| `Alagamentos.CycleLogIgnoresFailures` | API/lib/alagamentos.py:164-193 | a callback that raises stops neither later callbacks of its key nor the later keys of the cycle: the (key, handle) pairs called are the same whichever callbacks raise |
| `Alagamentos.Monitor.Stop` | API/lib/alagamentos.py:195-210 | with a live poller, raises the stop signal, empties callbacks, tombstones and baselines and releases the poller; with none, changes nothing, so a second stop is a no-op |
| `Scenarios.NivelAgua` | API/lib/alagamentos.py:92-193 | watching "nivel_agua" at 10 gives handle 0; a change to 25 calls the callback once with 25; after handle 0 is retired, a change to 40 calls nothing |
| `Scenarios.StatusRegistry` | API/lib/alagamentos.py:92-151 | three registrations with a retirement in between get handles 0, 1, 2: the retired position is not reused |
| `Scenarios.Status` | API/lib/alagamentos.py:128-193 | with handle 0 retired, a change calls only handles 1 and 2, and handle 1 raising does not prevent the call of handle 2 |
| `Scenarios.FailedFetch` | API/lib/alagamentos.py:57-61 | a fetch that fails while polling yields None, which differs from the baseline 7, so the callback is called with None |
| `Scenarios.StopIsSticky` | API/lib/alagamentos.py:195-210 | after a stop and a second stop, a new registration gets handle 0 in the emptied registry, but the next cycle calls nothing because the stop signal is never cleared |

## Left out

- HTTP transport: `_make_request`, `var_set`, `var_del` and the network side of
  `var_get` (alagamentos.py:30-90) are calls into `requests` plus error logging.
  A fetch is a parameter `Option<V>`. `var_set` and `var_del` only turn a request
  error into `False` and touch no monitor state.
- A 2xx response whose body is not JSON makes `response.json()` raise, and
  `var_get` does not catch that error. It would escape `var_onchange` after the
  callback was appended, or end the monitor thread. The model assumes every
  fetch yields a value or `None`.
- Threads and timing: the lock, the daemon thread, `time.sleep(poll_interval)`,
  `join(timeout=poll_interval + 1)` and `__del__` are not modelled. All
  operations are atomic calls, so the model does not capture a stop that
  lands in the middle of a cycle. In that case, a poller that outlives the
  join can write baselines for its old snapshot into the cleared baseline
  map (line 175). Those keys have no callbacks, since `event_pool` was
  cleared at line 207, but a later `var_onchange` for such a key keeps that
  stale baseline instead of fetching one (lines 119-120).
- In the model, `PollKey`'s first-observation branch is never taken for a
  key with callbacks, because `Valid` gives every key in `eventPool` a
  baseline. The source reaches that branch for such a key only by paths
  left out here. One is a `var_onchange` that lands between lines 207 and
  210 of a `stop`, so its baseline is cleared at line 210 and a late poller
  then polls the key. The other is a `var_onchange` whose baseline fetch
  at line 120 raises on a non-JSON body after the append at line 109.
- Constructor parameters `poll_interval` and `host` are not modelled: they only
  drive timing and the transport.
- Logging has no effect on state and is left out. The error logged for a raising
  callback is represented only by the `raised` flag of its invocation.
- A callback's own effects are not modelled. This includes a callback that
  calls back into the monitor. The source copies a key's lists before
  calling that key's callbacks, so such a call does not change the current
  key's dispatch, and the model agrees there.
- `Alagamentos.Monitor.Cycle`: a registration or retirement that happens
  between two keys of one cycle, from a callback or from another thread,
  is not captured. The source would use the new lists for the later keys;
  `Cycle` uses the lists from the start of the cycle. Such an interleaving
  can be built from `PollKey` calls with `Watch` or `Unwatch` between them.
- `Alagamentos.Monitor.Stop`: when a `stop` follows a stop and a later
  `var_onchange`, the thread that `var_onchange` started may still be alive
  at line 199. The source then sets the event again, joins, and clears the
  registry (lines 207-210). The model's no-op branch covers only the
  outcome where that thread has already ended; the other is left out with
  threading. The source also clears its four fields one at a time and
  without the lock (lines 207-210), while `Stop` clears them at once. A
  `var_onchange` that lands between lines 207 and 210 is not captured: it
  would leave a key with callbacks and no baseline, a state `Valid` rules
  out.
- Callback failure is a function of the callback and the value it is called
  with, not of each individual call.
- `Dispatch.DispatchedIgnoresFailures` and `Alagamentos.CycleLogIgnoresFailures`:
  `raises` means "raises an `Exception`", the only kind caught at line 192.
  A `BaseException` that is not an `Exception`, such as `SystemExit` or
  `KeyboardInterrupt`, escapes the handler and ends the poller. That case is
  not modelled, and these lemmas do not cover it.
- `Alagamentos.Monitor.PollKey`: Python's `==` at line 178 is not reflexive
  for a NaN decoded from JSON, so the source reports such a value as changed
  on every cycle. Equality on `V` is reflexive, so the model never does.
- `modelo.py` (a model-training experiment with floats, foreign libraries and
  plots), `main.ts` (an HTTP/SQLite server whose only logic is glue inside
  route handlers) and the two test files (integration tests against a live
  server) are outside the monitor and not modelled.
