/** The main loop of turbostat over the machine it keeps. */
module TurbostatMain {
  import opened CounterList
  import opened Turbostat
  import opened TurbostatLoop

  /** The loop from the first snapshot on; `goal` is what the run comes to. */
  method LoopFrom(m: Machine, ghost s0: State, ticks: seq<Tick>, ghost goal: (seq<Report>, bool))
    returns (reports: seq<Report>, exited: bool)
    requires m.OnCourse(false, [], s0, true, ticks, goal)
    modifies m, m.even, m.odd, m.delta
    ensures m.Valid() && (reports, exited) == goal
  {
    ghost var s := s0;
    var rest, top := ticks, true;
    reports, exited := [], false;
    while rest != [] && !exited
      invariant m.OnCourse(exited, reports, s, top, rest, goal)
      decreases |rest|
    {
      exited, reports, top, s := m.PrintTurn(top, s, reports, rest, goal);
      rest := rest[1..];
    }
  }

  /** turbostat_loop over the ticks it lives to see. */
  method Loop(m: Machine, first: Tick, ticks: seq<Tick>) returns (reports: seq<Report>, exited: bool)
    requires m.Valid() && m.numCpus > 0 && Listed(ticks)
    modifies m, m.even, m.odd, m.delta
    ensures m.Valid()
    ensures var keys := old(Keys(m.even.nodes));
            var s := State(keys, ReadAll(keys, first.read), old(m.needReinitialize) || first.faulty, true);
            (reports, exited) == Run(s, ticks)
  {
    m.Snapshot(first, m.even);
    ghost var s := State(Keys(m.even.nodes), m.even.vals, m.needReinitialize, true);
    reports, exited := LoopFrom(m, s, ticks, RunFrom([], s, ticks));
    RunFromIsRun([], s, ticks);
    assert [] + Run(s, ticks).0 == Run(s, ticks).0;
  }
}
