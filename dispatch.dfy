/** The per-key fan-out of the variable monitor: which registered callbacks a
    detected change reaches, in what order, and the discarded "free index"
    search of registration. Everything here is pure or changes no state. */
module Dispatch {

  datatype Option<+T> = None | Some(value: T)

  /** One callback invocation made by the poller: the monitored key, the
      callback's handle (its position in the key's callback list), the callback
      itself, the value it was called with, and whether it raised (the error is
      caught and logged with key and handle, then dispatch goes on). */
  datatype Invocation<Cb, V> = Invocation(key: string, handle: nat, callback: Cb, arg: Option<V>, raised: bool)

  /** The (key, handle) pairs a log reaches, forgetting callbacks' outcomes. */
  function Targets<Cb, V>(log: seq<Invocation<Cb, V>>): seq<(string, nat)>
  {
    seq(|log|, i requires 0 <= i < |log| => (log[i].key, log[i].handle))
  }

  /** The invocations made when the value of `key` changes to `v`, walking the
      first `n` slots of `cbs` in ascending handle order and skipping every
      handle retired in `ignored`. `raises` says which calls raise; a call that
      raises is recorded and the walk continues. */
  function Dispatched<Cb, V>(key: string, cbs: seq<Cb>, ignored: seq<int>, v: Option<V>,
                             raises: (Cb, Option<V>) -> bool, n: nat): seq<Invocation<Cb, V>>
    requires n <= |cbs|
    decreases n
  {
    if n == 0 then []
    else
      var h := n - 1;
      Dispatched(key, cbs, ignored, v, raises, h) +
      (if h in ignored then [] else [Invocation(key, h, cbs[h], v, raises(cbs[h], v))])
  }

  /** Every invocation is of the key's own callback at a live handle below
      `n`, with the new value, and records that callback's outcome. */
  lemma {:induction false} DispatchedSound<Cb, V>(key: string, cbs: seq<Cb>, ignored: seq<int>, v: Option<V>,
                                                raises: (Cb, Option<V>) -> bool, n: nat)
    requires n <= |cbs|
    ensures |Dispatched(key, cbs, ignored, v, raises, n)| <= n
    ensures forall inv <- Dispatched(key, cbs, ignored, v, raises, n) ::
      inv.key == key && inv.handle < n && inv.handle !in ignored &&
      inv.callback == cbs[inv.handle] && inv.arg == v && inv.raised == raises(inv.callback, v)
    decreases n
  {
    if n > 0 {
      DispatchedSound(key, cbs, ignored, v, raises, n - 1);
    }
  }

  lemma TargetsAppend<Cb, V>(a: seq<Invocation<Cb, V>>, b: seq<Invocation<Cb, V>>)
    ensures Targets(a + b) == Targets(a) + Targets(b)
  {
  }

  /** A handle is invoked if and only if it is a slot below `n` that was not
      retired. */
  lemma {:induction false} DispatchedReachesExactlyActive<Cb, V>(key: string, cbs: seq<Cb>, ignored: seq<int>,
                                                               v: Option<V>, raises: (Cb, Option<V>) -> bool,
                                                               n: nat, h: nat)
    requires n <= |cbs|
    ensures (key, h) in Targets(Dispatched(key, cbs, ignored, v, raises, n)) <==> h < n && h !in ignored
    decreases n
  {
    if n > 0 {
      var prev := Dispatched(key, cbs, ignored, v, raises, n - 1);
      var step: seq<Invocation<Cb, V>> := if n - 1 in ignored then [] else [Invocation(key, n - 1, cbs[n - 1], v, raises(cbs[n - 1], v))];
      DispatchedReachesExactlyActive(key, cbs, ignored, v, raises, n - 1, h);
      TargetsAppend(prev, step);
      assert Targets(step) == if n - 1 in ignored then [] else [(key, n - 1)];
    }
  }

  /** Handles are invoked in strictly ascending order, hence each at most once. */
  lemma {:induction false} DispatchedAscending<Cb, V>(key: string, cbs: seq<Cb>, ignored: seq<int>,
                                                    v: Option<V>, raises: (Cb, Option<V>) -> bool, n: nat)
    requires n <= |cbs|
    ensures forall i, j :: 0 <= i < j < |Dispatched(key, cbs, ignored, v, raises, n)| ==>
      Dispatched(key, cbs, ignored, v, raises, n)[i].handle < Dispatched(key, cbs, ignored, v, raises, n)[j].handle
    decreases n
  {
    if n > 0 {
      DispatchedAscending(key, cbs, ignored, v, raises, n - 1);
      DispatchedSound(key, cbs, ignored, v, raises, n - 1);
      var prev := Dispatched(key, cbs, ignored, v, raises, n - 1);
      var log := Dispatched(key, cbs, ignored, v, raises, n);
      assert forall i :: 0 <= i < |prev| ==> log[i] == prev[i];
    }
  }

  /** Failure isolation: which handles are invoked does not depend on which
      callbacks raise. */
  lemma {:induction false} DispatchedIgnoresFailures<Cb, V>(key: string, cbs: seq<Cb>, ignored: seq<int>, v: Option<V>,
                                                          r1: (Cb, Option<V>) -> bool, r2: (Cb, Option<V>) -> bool, n: nat)
    requires n <= |cbs|
    ensures Targets(Dispatched(key, cbs, ignored, v, r1, n)) == Targets(Dispatched(key, cbs, ignored, v, r2, n))
    decreases n
  {
    if n > 0 {
      DispatchedIgnoresFailures(key, cbs, ignored, v, r1, r2, n - 1);
      var a := Dispatched(key, cbs, ignored, v, r1, n);
      var b := Dispatched(key, cbs, ignored, v, r2, n);
      var a' := Dispatched(key, cbs, ignored, v, r1, n - 1);
      var b' := Dispatched(key, cbs, ignored, v, r2, n - 1);
      assert |a| == |b| by {
        assert |Targets(a')| == |Targets(b')|;
      }
      forall i | 0 <= i < |a|
        ensures Targets(a)[i] == Targets(b)[i]
      {
        if i < |a'| {
          assert a[i] == a'[i] && b[i] == b'[i];
          assert Targets(a')[i] == Targets(b')[i];
        }
      }
    }
  }

  /** The dispatch loop of one key: walk the copied callback list, skip
      retired handles, call each remaining callback with the new value, and
      keep going when a call raises. */
  method DispatchKey<Cb, V>(key: string, cbs: seq<Cb>, ignored: seq<int>, v: Option<V>,
                            raises: (Cb, Option<V>) -> bool) returns (log: seq<Invocation<Cb, V>>)
    ensures log == Dispatched(key, cbs, ignored, v, raises, |cbs|)
  {
    log := [];
    var ix := 0;
    while ix < |cbs|
      invariant 0 <= ix <= |cbs|
      invariant log == Dispatched(key, cbs, ignored, v, raises, ix)
    {
      if ix !in ignored {
        var raised := raises(cbs[ix], v);
        log := log + [Invocation(key, ix, cbs[ix], v, raised)];
      }
      ix := ix + 1;
    }
  }

  /** The "next available index" search of registration: the least
      non-negative integer not among the retired handles. Registration
      computes it and then does not use it. */
  method FreeIndex(ignored: seq<int>) returns (ix: nat)
    ensures ix !in ignored
    ensures forall j :: 0 <= j < ix ==> j in ignored
  {
    ix := 0;
    while ix in ignored
      invariant forall j :: 0 <= j < ix ==> j in ignored
      decreases set j | j in ignored && j >= ix
    {
      ghost var before := set j | j in ignored && j >= ix;
      ix := ix + 1;
      assert (set j | j in ignored && j >= ix) < before by {
        assert ix - 1 in before;
      }
    }
  }
}
