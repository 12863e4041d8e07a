/** Clients of the monitor that follow concrete runs: what callers can
    conclude from the method contracts alone. Callbacks are named by strings
    and values are integers. */
module Scenarios {
  import opened Dispatch
  import opened Alagamentos

  /** No callback raises. */
  function Quiet(c: string, v: Option<int>): bool { false }

  /** Only the callback named "b" raises. */
  function FailsB(c: string, v: Option<int>): bool { c == "b" }

  function Reads25(k: string): Option<int> { Some(25) }
  function Reads40(k: string): Option<int> { Some(40) }
  function Reads2(k: string): Option<int> { Some(2) }
  function ReadFails(k: string): Option<int> { None }

  lemma NivelAguaDispatch()
    ensures Dispatched("nivel_agua", ["cb"], [], Some(25), Quiet, 1) == [Invocation("nivel_agua", 0, "cb", Some(25), false)]
    ensures Dispatched("nivel_agua", ["cb"], [0], Some(40), Quiet, 1) == []
  {
    assert Dispatched("nivel_agua", ["cb"], [], Some(25), Quiet, 0) == [];
    assert Dispatched("nivel_agua", ["cb"], [0], Some(40), Quiet, 0) == [];
  }

  lemma StatusDispatch()
    ensures Dispatched("status", ["a", "b", "c"], [0], Some(2), FailsB, 3)
         == [Invocation("status", 1, "b", Some(2), true), Invocation("status", 2, "c", Some(2), false)]
  {
    assert Dispatched("status", ["a", "b", "c"], [0], Some(2), FailsB, 1) == [];
    assert Dispatched("status", ["a", "b", "c"], [0], Some(2), FailsB, 2) == [Invocation("status", 1, "b", Some(2), true)];
  }

  lemma FailedFetchDispatch()
    ensures Dispatched("x", ["cb"], [], None, Quiet, 1) == [Invocation("x", 0, "cb", None, false)]
  {
    assert Dispatched("x", ["cb"], [], None, Quiet, 0) == [];
  }

  /** Watching a water level whose value is 10 gives handle 0; a change to
      25 calls the callback once with 25 and moves the baseline to 25. */
  method NivelAguaChange() returns (m: Monitor<string, int>, h: nat, first: seq<Invocation<string, int>>)
    ensures fresh(m) && m.Valid()
    ensures h == 0
    ensures first == [Invocation("nivel_agua", 0, "cb", Some(25), false)]
    ensures m.keys == ["nivel_agua"] && m.running
    ensures m.eventPool == map["nivel_agua" := ["cb"]] && m.ignorePool == map[]
    ensures m.lastValues == map["nivel_agua" := Some(25)]
  {
    m := new Monitor<string, int>();
    h := m.Watch("nivel_agua", "cb", Some(10));
    assert Pool(map[], "nivel_agua") + ["cb"] == ["cb"];
    assert m.eventPool == map["nivel_agua" := ["cb"]];
    first := m.Cycle(Reads25, Quiet);
    CycleLogSingle("nivel_agua", map["nivel_agua" := ["cb"]], map[], map["nivel_agua" := Some(10)], Reads25, Quiet);
    NivelAguaDispatch();
  }

  /** After handle 0 of the water level is retired, a change to 40 calls
      nothing. */
  method NivelAgua() returns (h: nat, first: seq<Invocation<string, int>>, second: seq<Invocation<string, int>>)
    ensures h == 0
    ensures first == [Invocation("nivel_agua", 0, "cb", Some(25), false)]
    ensures second == []
  {
    var m;
    m, h, first := NivelAguaChange();
    m.Unwatch("nivel_agua", 0);
    assert Retired(map[], "nivel_agua") + [0] == [0];
    assert m.ignorePool == map["nivel_agua" := [0]];
    second := m.Cycle(Reads40, Quiet);
    CycleLogSingle("nivel_agua", map["nivel_agua" := ["cb"]], map["nivel_agua" := [0]], map["nivel_agua" := Some(25)], Reads40, Quiet);
    NivelAguaDispatch();
  }

  /** Two registrations for "status" get handles 0 and 1; retiring handle 0
      tombstones it without shrinking the list. */
  method StatusTwoThenRetire() returns (m: Monitor<string, int>, h0: nat, h1: nat)
    ensures fresh(m) && m.Valid()
    ensures h0 == 0 && h1 == 1
    ensures m.keys == ["status"] && m.running
    ensures m.eventPool == map["status" := ["a", "b"]]
    ensures m.ignorePool == map["status" := [0]]
    ensures m.lastValues == map["status" := Some(1)]
  {
    m := new Monitor<string, int>();
    h0 := m.Watch("status", "a", Some(1));
    assert Pool(map[], "status") + ["a"] == ["a"];
    h1 := m.Watch("status", "b", None);
    assert ["a"] + ["b"] == ["a", "b"];
    m.Unwatch("status", 0);
    assert Retired(map[], "status") + [0] == [0];
  }

  /** A third registration after the retirement gets handle 2: the retired
      position is not handed out again. */
  method StatusRegistry() returns (m: Monitor<string, int>, h0: nat, h1: nat, h2: nat)
    ensures fresh(m) && m.Valid()
    ensures h0 == 0 && h1 == 1 && h2 == 2
    ensures m.keys == ["status"] && m.running
    ensures m.eventPool == map["status" := ["a", "b", "c"]]
    ensures m.ignorePool == map["status" := [0]]
    ensures m.lastValues == map["status" := Some(1)]
  {
    m, h0, h1 := StatusTwoThenRetire();
    h2 := m.Watch("status", "c", None);
    assert ["a", "b"] + ["c"] == ["a", "b", "c"];
  }

  /** On the next change of "status" only the live handles 1 and 2 are
      called, and the callback behind handle 1 raising does not keep handle 2
      from its call. */
  method Status() returns (log: seq<Invocation<string, int>>)
    ensures log == [Invocation("status", 1, "b", Some(2), true), Invocation("status", 2, "c", Some(2), false)]
  {
    var m, h0, h1, h2 := StatusRegistry();
    log := m.Cycle(Reads2, FailsB);
    CycleLogSingle("status", map["status" := ["a", "b", "c"]], map["status" := [0]], map["status" := Some(1)], Reads2, FailsB);
    StatusDispatch();
  }

  /** A fetch that fails while polling yields None, which is compared like
      any other value: a key whose baseline is 7 is reported as changed to
      None. */
  method FailedFetch() returns (log: seq<Invocation<string, int>>)
    ensures log == [Invocation("x", 0, "cb", None, false)]
  {
    var m := new Monitor<string, int>();
    var h := m.Watch("x", "cb", Some(7));
    assert Pool(map[], "x") + ["cb"] == ["cb"];
    assert m.keys == ["x"] && m.running;
    assert m.eventPool == map["x" := ["cb"]] && m.ignorePool == map[];
    assert m.lastValues == map["x" := Some(7)];
    log := m.Cycle(ReadFails, Quiet);
    CycleLogSingle("x", map["x" := ["cb"]], map[], map["x" := Some(7)], ReadFails, Quiet);
    FailedFetchDispatch();
  }

  /** A second stop is a no-op, and the stop signal is never cleared: a
      callback registered after a stop gets handle 0 in the emptied registry
      but no poller ever runs for it again. */
  method StopIsSticky() returns (h: nat, log: seq<Invocation<string, int>>)
    ensures h == 0
    ensures log == []
  {
    var m := new Monitor<string, int>();
    var first := m.Watch("x", "cb", Some(1));
    m.Stop();
    m.Stop();
    h := m.Watch("x", "cb", Some(1));
    log := m.Cycle(Reads2, Quiet);
  }
}
