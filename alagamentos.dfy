/** The variable-change monitor `AlagamentosGlobal`: a registry of callbacks
    per remote variable, tombstones for retired callback handles, the last
    value seen of each variable, and the running/stopped state of the single
    poller. Every operation is one atomic method here. In the source only
    registration and retirement are single locked sections: a key's poll
    step compares under the lock and dispatches outside it, and stop takes no
    lock at all. A whole poll cycle, whose fetches and callback calls run
    outside the lock in the source, is one atomic method too: every key of
    the cycle is judged against the callbacks and tombstones as they were
    when the cycle began. The network fetch
    arrives as a parameter of type Option<V> (a failed fetch is None, like a
    missing or null value). */
module Alagamentos {
  import opened Dispatch

  /** `event_pool.get(k, [])` */
  function Pool<Cb>(ep: map<string, seq<Cb>>, k: string): seq<Cb>
  {
    if k in ep then ep[k] else []
  }

  /** `ignore_pool.get(k, [])` */
  function Retired(ip: map<string, seq<int>>, k: string): seq<int>
  {
    if k in ip then ip[k] else []
  }

  /** The invocations one poll of key `k` makes when the fetch yields
      `current`: none on the first observation, none when `current` equals the
      baseline, otherwise every callback of `k` that is not retired. */
  function PollLog<Cb, V(==)>(ep: map<string, seq<Cb>>, ip: map<string, seq<int>>, lv: map<string, Option<V>>,
                              k: string, current: Option<V>, raises: (Cb, Option<V>) -> bool): seq<Invocation<Cb, V>>
  {
    if k !in lv || current == lv[k] then []
    else Dispatched(k, Pool(ep, k), Retired(ip, k), current, raises, |Pool(ep, k)|)
  }

  /** The invocations of one poll cycle over the key snapshot `ks`, in
      snapshot order, with every key compared against the baselines `lv`
      that held when the cycle began. */
  function CycleLog<Cb, V(==)>(ks: seq<string>, ep: map<string, seq<Cb>>, ip: map<string, seq<int>>,
                               lv: map<string, Option<V>>, fetch: string -> Option<V>,
                               raises: (Cb, Option<V>) -> bool): seq<Invocation<Cb, V>>
    decreases |ks|
  {
    if ks == [] then []
    else
      var k := ks[|ks| - 1];
      CycleLog(ks[..|ks| - 1], ep, ip, lv, fetch, raises) + PollLog(ep, ip, lv, k, fetch(k), raises)
  }

  /** Polling one more key appends that key's invocations. */
  lemma CycleLogSnoc<Cb, V>(ks: seq<string>, k: string, ep: map<string, seq<Cb>>, ip: map<string, seq<int>>,
                            lv: map<string, Option<V>>, fetch: string -> Option<V>, raises: (Cb, Option<V>) -> bool)
    ensures CycleLog(ks + [k], ep, ip, lv, fetch, raises)
         == CycleLog(ks, ep, ip, lv, fetch, raises) + PollLog(ep, ip, lv, k, fetch(k), raises)
  {
    assert (ks + [k])[..|ks|] == ks;
  }

  /** The baselines after polling the keys `ks` in turn, starting from `lv`:
      every polled key's baseline becomes its fetched value. */
  function Refreshed<V>(lv: map<string, Option<V>>, ks: seq<string>, fetch: string -> Option<V>): map<string, Option<V>>
    decreases |ks|
  {
    if ks == [] then lv
    else
      var k := ks[|ks| - 1];
      Refreshed(lv, ks[..|ks| - 1], fetch)[k := fetch(k)]
  }

  /** Polling one more key moves that key's baseline. */
  lemma RefreshedSnoc<V>(lv: map<string, Option<V>>, ks: seq<string>, k: string, fetch: string -> Option<V>)
    ensures Refreshed(lv, ks + [k], fetch) == Refreshed(lv, ks, fetch)[k := fetch(k)]
  {
    assert (ks + [k])[..|ks|] == ks;
  }

  /** A key not yet polled keeps its old baseline, or its lack of one. */
  lemma {:induction false} RefreshedUntouched<V>(lv: map<string, Option<V>>, ks: seq<string>, k: string,
                                                 fetch: string -> Option<V>)
    requires k !in ks
    ensures k in Refreshed(lv, ks, fetch) <==> k in lv
    ensures k in lv ==> Refreshed(lv, ks, fetch)[k] == lv[k]
    decreases |ks|
  {
    if ks != [] {
      assert ks == ks[..|ks| - 1] + [ks[|ks| - 1]];
      RefreshedUntouched(lv, ks[..|ks| - 1], k, fetch);
    }
  }

  /** Polling a key that earlier keys of the cycle did not touch compares it
      with the baseline it had when the cycle began. */
  lemma PollLogUntouched<Cb, V>(ep: map<string, seq<Cb>>, ip: map<string, seq<int>>, lv: map<string, Option<V>>,
                                ks: seq<string>, k: string, fetch: string -> Option<V>,
                                raises: (Cb, Option<V>) -> bool)
    requires k !in ks
    ensures PollLog(ep, ip, Refreshed(lv, ks, fetch), k, fetch(k), raises) == PollLog(ep, ip, lv, k, fetch(k), raises)
  {
    RefreshedUntouched(lv, ks, k, fetch);
  }

  /** A cycle over keys that all have baselines keeps the set of keys with a
      baseline, leaves every polled key at its fetched value and every other
      key at its old baseline. */
  lemma {:induction false} RefreshedSound<V>(lv: map<string, Option<V>>, ks: seq<string>, fetch: string -> Option<V>)
    requires forall k :: k in ks ==> k in lv
    ensures Refreshed(lv, ks, fetch).Keys == lv.Keys
    ensures forall k :: k in ks ==> Refreshed(lv, ks, fetch)[k] == fetch(k)
    ensures forall k :: k in lv && k !in ks ==> Refreshed(lv, ks, fetch)[k] == lv[k]
    decreases |ks|
  {
    if ks != [] {
      var front, last := ks[..|ks| - 1], ks[|ks| - 1];
      assert ks == front + [last];
      RefreshedSound(lv, front, fetch);
    }
  }

  /** Soundness of a cycle: every invocation is of a live callback of a
      snapshot key whose fetched value differs from its baseline, made with
      that fetched value. */
  lemma {:induction false} CycleLogSound<Cb, V>(ks: seq<string>, ep: map<string, seq<Cb>>, ip: map<string, seq<int>>,
                                              lv: map<string, Option<V>>, fetch: string -> Option<V>,
                                              raises: (Cb, Option<V>) -> bool)
    ensures forall inv <- CycleLog(ks, ep, ip, lv, fetch, raises) ::
      inv.key in ks && inv.key in lv && inv.arg == fetch(inv.key) && inv.arg != lv[inv.key] &&
      inv.handle < |Pool(ep, inv.key)| && inv.handle !in Retired(ip, inv.key) &&
      inv.callback == Pool(ep, inv.key)[inv.handle]
    decreases |ks|
  {
    if ks != [] {
      var front, k := ks[..|ks| - 1], ks[|ks| - 1];
      CycleLogSound(front, ep, ip, lv, fetch, raises);
      assert ks == front + [k];
      CycleLogSnoc(front, k, ep, ip, lv, fetch, raises);
      if k in lv && fetch(k) != lv[k] {
        DispatchedSound(k, Pool(ep, k), Retired(ip, k), fetch(k), raises, |Pool(ep, k)|);
      }
    }
  }

  /** A cycle over a single key is that key's poll. */
  lemma CycleLogSingle<Cb, V>(k: string, ep: map<string, seq<Cb>>, ip: map<string, seq<int>>,
                              lv: map<string, Option<V>>, fetch: string -> Option<V>, raises: (Cb, Option<V>) -> bool)
    ensures CycleLog([k], ep, ip, lv, fetch, raises) == PollLog(ep, ip, lv, k, fetch(k), raises)
  {
    assert [k][..0] == [];
  }

  /** Failure isolation across a cycle: a callback that raises stops neither
      the later callbacks of its key nor the later keys of the cycle. */
  lemma {:induction false} CycleLogIgnoresFailures<Cb, V>(ks: seq<string>, ep: map<string, seq<Cb>>,
                                                            ip: map<string, seq<int>>, lv: map<string, Option<V>>,
                                                            fetch: string -> Option<V>,
                                                            r1: (Cb, Option<V>) -> bool, r2: (Cb, Option<V>) -> bool)
    ensures Targets(CycleLog(ks, ep, ip, lv, fetch, r1)) == Targets(CycleLog(ks, ep, ip, lv, fetch, r2))
    decreases |ks|
  {
    if ks != [] {
      var k := ks[|ks| - 1];
      CycleLogIgnoresFailures(ks[..|ks| - 1], ep, ip, lv, fetch, r1, r2);
      TargetsAppend(CycleLog(ks[..|ks| - 1], ep, ip, lv, fetch, r1), PollLog(ep, ip, lv, k, fetch(k), r1));
      TargetsAppend(CycleLog(ks[..|ks| - 1], ep, ip, lv, fetch, r2), PollLog(ep, ip, lv, k, fetch(k), r2));
      if k in lv && fetch(k) != lv[k] {
        DispatchedIgnoresFailures(k, Pool(ep, k), Retired(ip, k), fetch(k), r1, r2, |Pool(ep, k)|);
      }
    }
  }

  /** Completeness of a cycle: every live callback of every snapshot key
      whose fetched value differs from its baseline is invoked. */
  lemma {:induction false} CycleLogComplete<Cb, V>(ks: seq<string>, ep: map<string, seq<Cb>>,
                                                 ip: map<string, seq<int>>, lv: map<string, Option<V>>,
                                                 fetch: string -> Option<V>, raises: (Cb, Option<V>) -> bool,
                                                 k: string, h: nat)
    requires k in ks && k in lv && fetch(k) != lv[k]
    requires h < |Pool(ep, k)| && h !in Retired(ip, k)
    ensures (k, h) in Targets(CycleLog(ks, ep, ip, lv, fetch, raises))
    decreases |ks|
  {
    var front, last := ks[..|ks| - 1], ks[|ks| - 1];
    assert ks == front + [last];
    CycleLogSnoc(front, last, ep, ip, lv, fetch, raises);
    TargetsAppend(CycleLog(front, ep, ip, lv, fetch, raises), PollLog(ep, ip, lv, last, fetch(last), raises));
    if last == k {
      DispatchedReachesExactlyActive(k, Pool(ep, k), Retired(ip, k), fetch(k), raises, |Pool(ep, k)|, h);
    } else {
      assert k in front;
      CycleLogComplete(front, ep, ip, lv, fetch, raises, k, h);
    }
  }

  ghost predicate Distinct(ks: seq<string>)
  {
    forall i, j :: 0 <= i < j < |ks| ==> ks[i] != ks[j]
  }

  /** `ks` lists exactly the keys of `ep`. */
  ghost predicate KeysListed<Cb>(ep: map<string, seq<Cb>>, ks: seq<string>)
  {
    forall k :: k in ep <==> k in ks
  }

  /** Every tombstone of a key names one of that key's positions. */
  ghost predicate TombstonesInRange<Cb>(ep: map<string, seq<Cb>>, ip: map<string, seq<int>>)
  {
    forall k, h :: k in ip && h in ip[k] ==> k in ep && 0 <= h < |ep[k]|
  }

  lemma DistinctAppend(ks: seq<string>, k: string)
    requires Distinct(ks) && k !in ks
    ensures Distinct(ks + [k])
  {
  }

  lemma TombstonesAfterAppend<Cb>(ep: map<string, seq<Cb>>, ip: map<string, seq<int>>, k: string, slots: seq<Cb>)
    requires TombstonesInRange(ep, ip) && |Pool(ep, k)| <= |slots|
    ensures TombstonesInRange(ep[k := slots], ip)
  {
  }

  lemma TombstonesAfterRetire<Cb>(ep: map<string, seq<Cb>>, ip: map<string, seq<int>>, k: string, h: int)
    requires TombstonesInRange(ep, ip) && k in ep && 0 <= h < |ep[k]|
    ensures TombstonesInRange(ep, ip[k := Retired(ip, k) + [h]])
  {
  }

  /** The monitor. `keys` is the insertion order of `eventPool`'s keys (the
      order in which a poll cycle visits them); `running` says a live poller
      exists; `stopEvent` is the stop signal, which nothing ever clears. */
  class Monitor<Cb, V(==)> {
    var eventPool: map<string, seq<Cb>>
    var ignorePool: map<string, seq<int>>
    var lastValues: map<string, Option<V>>
    var keys: seq<string>
    var running: bool
    var stopEvent: bool

    /** Handles are positions in append-only lists; tombstones name existing
        positions; every monitored key has a baseline; a poller is alive
        exactly when keys are monitored and the stop signal is clear. */
    ghost predicate Valid()
      reads this
    {
      Distinct(keys) && KeysListed(eventPool, keys) &&
      eventPool.Keys <= lastValues.Keys &&
      TombstonesInRange(eventPool, ignorePool) &&
      running == (!stopEvent && keys != [])
    }

    constructor ()
      ensures Valid()
      ensures eventPool == map[] && ignorePool == map[] && lastValues == map[] && keys == []
      ensures !running && !stopEvent
    {
      eventPool, ignorePool, lastValues, keys := map[], map[], map[], [];
      running, stopEvent := false, false;
    }

    /** `var_onchange`: append `cb` to the key's list and return its position.
        `fetched` is what `var_get(k)` yields; it is consulted only when `k`
        has no baseline yet. A poller is started when none is alive, but one
        started after a stop sees the stop signal and exits at once. */
    method Watch(k: string, cb: Cb, fetched: Option<V>) returns (h: nat)
      requires Valid()
      modifies this
      ensures Valid()
      ensures h == |old(Pool(eventPool, k))|
      ensures eventPool == old(eventPool)[k := old(Pool(eventPool, k)) + [cb]]
      ensures keys == if k in old(eventPool) then old(keys) else old(keys) + [k]
      ensures ignorePool == old(ignorePool)
      ensures lastValues == if k in old(lastValues) then old(lastValues) else old(lastValues)[k := fetched]
      ensures stopEvent == old(stopEvent) && running == (old(running) || !stopEvent)
    {
      if k !in eventPool {
        DistinctAppend(keys, k);
        keys := keys + [k];
      }
      var unused := FreeIndex(Retired(ignorePool, k));
      var slots := Pool(eventPool, k) + [cb];
      TombstonesAfterAppend(eventPool, ignorePool, k, slots);
      eventPool := eventPool[k := slots];
      if k !in lastValues {
        lastValues := lastValues[k := fetched];
      }
      if !running {
        running := !stopEvent;
      }
      h := |slots| - 1;
    }

    /** `var_onchange_clear`: tombstone handle `h` of key `k` when `k` is
        monitored and `h` is one of its positions; otherwise nothing changes.
        The callback list is never compacted. */
    method Unwatch(k: string, h: int)
      requires Valid()
      modifies this
      ensures Valid()
      ensures ignorePool == if k in old(eventPool) && 0 <= h < |old(eventPool)[k]|
                            then old(ignorePool)[k := old(Retired(ignorePool, k)) + [h]]
                            else old(ignorePool)
      ensures eventPool == old(eventPool) && lastValues == old(lastValues) && keys == old(keys)
      ensures running == old(running) && stopEvent == old(stopEvent)
    {
      if k !in eventPool {
        return;
      }
      if 0 <= h < |eventPool[k]| {
        TombstonesAfterRetire(eventPool, ignorePool, k, h);
        ignorePool := ignorePool[k := Retired(ignorePool, k) + [h]];
      }
    }

    /** One key's step of a poll cycle, given the fetched value `current`:
        set the baseline on first observation; do nothing when the value is
        unchanged; otherwise move the baseline and dispatch to the live
        callbacks. In every case the baseline ends equal to `current`. */
    method PollKey(k: string, current: Option<V>, raises: (Cb, Option<V>) -> bool)
      returns (log: seq<Invocation<Cb, V>>)
      requires Valid()
      modifies this
      ensures Valid()
      ensures log == PollLog(old(eventPool), old(ignorePool), old(lastValues), k, current, raises)
      ensures k !in old(lastValues) ==> log == []
      ensures k in old(lastValues) && current == old(lastValues)[k] ==> log == [] && lastValues == old(lastValues)
      ensures k in old(lastValues) && current != old(lastValues)[k] ==>
        log == Dispatched(k, old(Pool(eventPool, k)), old(Retired(ignorePool, k)), current, raises, |old(Pool(eventPool, k))|)
      ensures lastValues == old(lastValues)[k := current]
      ensures eventPool == old(eventPool) && ignorePool == old(ignorePool) && keys == old(keys)
      ensures running == old(running) && stopEvent == old(stopEvent)
    {
      if k !in lastValues {
        lastValues := lastValues[k := current];
        return [];
      }
      if current == lastValues[k] {
        return [];
      }
      lastValues := lastValues[k := current];
      var cbs := Pool(eventPool, k);
      var ignored := Retired(ignorePool, k);
      log := DispatchKey(k, cbs, ignored, current, raises);
    }

    /** One iteration of the poller's loop: when a poller is alive, snapshot
        the keys and poll each in turn with the value `fetch` gives for it.
        With no live poller (never started, or stopped) nothing happens. The
        cycle runs atomically, against the callbacks and tombstones it found
        at its start; interleavings of other calls between two keys are
        sequences of `PollKey` and those calls. */
    method Cycle(fetch: string -> Option<V>, raises: (Cb, Option<V>) -> bool)
      returns (log: seq<Invocation<Cb, V>>)
      requires Valid()
      modifies this
      ensures Valid()
      ensures !old(running) ==> log == [] && lastValues == old(lastValues)
      ensures old(running) ==> log == CycleLog(old(keys), old(eventPool), old(ignorePool), old(lastValues), fetch, raises)
      ensures lastValues.Keys == old(lastValues).Keys
      ensures old(running) ==> forall k :: k in old(eventPool) ==> lastValues[k] == fetch(k)
      ensures forall k :: k in lastValues && k !in old(eventPool) ==> lastValues[k] == old(lastValues)[k]
      ensures eventPool == old(eventPool) && ignorePool == old(ignorePool) && keys == old(keys)
      ensures running == old(running) && stopEvent == old(stopEvent)
    {
      log := [];
      if !running {
        return;
      }
      var snapshot := keys;
      var i := 0;
      while i < |snapshot|
        invariant 0 <= i <= |snapshot|
        invariant Valid()
        invariant eventPool == old(eventPool) && ignorePool == old(ignorePool) && keys == snapshot
        invariant running == old(running) && stopEvent == old(stopEvent)
        invariant lastValues == Refreshed(old(lastValues), snapshot[..i], fetch)
        invariant log == CycleLog(snapshot[..i], eventPool, ignorePool, old(lastValues), fetch, raises)
      {
        var k := snapshot[i];
        assert snapshot[..i + 1] == snapshot[..i] + [k];
        assert k !in snapshot[..i];
        PollLogUntouched(eventPool, ignorePool, old(lastValues), snapshot[..i], k, fetch, raises);
        CycleLogSnoc(snapshot[..i], k, eventPool, ignorePool, old(lastValues), fetch, raises);
        RefreshedSnoc(old(lastValues), snapshot[..i], k, fetch);
        var step := PollKey(k, fetch(k), raises);
        log := log + step;
        i := i + 1;
      }
      assert snapshot[..i] == snapshot;
      RefreshedSound(old(lastValues), snapshot, fetch);
    }

    /** `stop`: with a live poller, raise the stop signal and clear the whole
        registry; with none, change nothing. */
    method Stop()
      requires Valid()
      modifies this
      ensures Valid()
      ensures old(running) ==> eventPool == map[] && ignorePool == map[] && lastValues == map[] && keys == []
      ensures old(running) ==> !running && stopEvent
      ensures !old(running) ==> eventPool == old(eventPool) && ignorePool == old(ignorePool) &&
                                lastValues == old(lastValues) && keys == old(keys) &&
                                running == old(running) && stopEvent == old(stopEvent)
    {
      if running {
        stopEvent := true;
        eventPool, ignorePool, lastValues, keys := map[], map[], map[], [];
        running := false;
      }
    }
  }
}
