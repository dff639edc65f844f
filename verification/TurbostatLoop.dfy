/**
 turbostat in the form of the program: three linked lists rebuilt whenever the topology changes,
 two of them filled in turn with snapshots and the third with differences.
 */
module TurbostatLoop {
  import Bytes
  import opened CounterList
  import opened Turbostat

  // ----- walks over one list

  /** get_counters: read every cpu of the list. */
  method GetCounters(list: List, read: int -> Sample)
    requires list.Linked() && list.Filled()
    modifies list`vals
    ensures list.vals == ReadAll(Keys(list.nodes), read)
  {
    var cnt, i := list.head, 0;
    while cnt != null
      invariant 0 <= i <= |list.nodes| && |list.vals| == |list.nodes|
      invariant i < |list.nodes| ==> cnt == list.nodes[i]
      invariant i == |list.nodes| ==> cnt == null
      invariant forall j :: 0 <= j < i ==> list.vals[j] == read(list.nodes[j].key.cpu)
      decreases |list.nodes| - i
    {
      list.vals := list.vals[i := read(cnt.key.cpu)];
      assert i < |list.nodes| - 1 ==> list.nodes[i].next == list.nodes[i + 1];
      cnt, i := cnt.next, i + 1;
    }
  }

  datatype DeltaResult = Done | ConfigurationChanged | SlowTsc

  /** The walk of compute_delta along the three lists together, for any difference and any reason
      to stop. */
  method WalkTogether(after: List, before: List, delta: List,
                      diff: (Sample, Sample) -> Sample, stop: (Sample, Sample) -> bool)
    returns (r: DeltaResult)
    requires after.Linked() && before.Linked() && delta.Linked() && delta != after && delta != before
    requires after.Filled() && before.Filled() && delta.Filled()
    requires Keys(after.nodes) == Keys(before.nodes) && |delta.nodes| == |after.nodes| == |before.nodes|
    modifies delta`vals
    ensures r != ConfigurationChanged && delta.Filled()
    ensures r == SlowTsc <==> AnyPair(stop, after.vals, before.vals)
    ensures r == Done ==> delta.vals == MapPairs(diff, after.vals, before.vals)
  {
    var a, b, d, i := after.head, before.head, delta.head, 0;
    ghost var n := |after.nodes|;
    while a != null && b != null && d != null
      invariant 0 <= i <= n && |delta.vals| == n
      invariant i < n ==> a == after.nodes[i] && b == before.nodes[i] && d == delta.nodes[i]
      invariant i == n ==> a == null
      invariant forall j :: 0 <= j < i ==> !stop(after.vals[j], before.vals[j])
      invariant forall j :: 0 <= j < i ==> delta.vals[j] == diff(after.vals[j], before.vals[j])
      decreases n - i
    {
      assert Keys(after.nodes)[i] == Keys(before.nodes)[i];
      if b.key.cpu != a.key.cpu {
        return ConfigurationChanged;
      }
      if stop(after.vals[i], before.vals[i]) {
        return SlowTsc;
      }
      delta.vals := delta.vals[i := diff(after.vals[i], before.vals[i])];
      if i < n - 1 {
        assert after.nodes[i].next == after.nodes[i + 1];
        assert before.nodes[i].next == before.nodes[i + 1];
        assert delta.nodes[i].next == delta.nodes[i + 1];
      }
      a, b, d, i := a.next, b.next, d.next, i + 1;
    }
    r := Done;
  }

  /** compute_delta: with lists of equal keys it never finds the cpu configuration changed. */
  method ComputeDelta(after: List, before: List, delta: List) returns (r: DeltaResult)
    requires after.Linked() && before.Linked() && delta.Linked() && delta != after && delta != before
    requires after.Filled() && before.Filled() && delta.Filled()
    requires Keys(after.nodes) == Keys(before.nodes) && |delta.nodes| == |after.nodes| == |before.nodes|
    modifies delta`vals
    ensures r != ConfigurationChanged && delta.Filled()
    ensures r == SlowTsc <==> AnyTooSlow(after.vals, before.vals)
    ensures r == Done ==> delta.vals == Deltas(after.vals, before.vals)
  {
    r := WalkTogether(after, before, delta, Delta, TooSlow);
  }

  // ----- the average

  function Plus(a: word, b: word): (r: word) {
    (a + b) % WORD
  }

  /** `sum->x += delta->x` for every averaged counter. */
  function AddAll(sum: Sample, d: Sample): (r: Sample) {
    Sample(Plus(sum.tsc, d.tsc), Plus(sum.aperf, d.aperf), Plus(sum.mperf, d.mperf), Plus(sum.c1, d.c1),
           Plus(sum.c3, d.c3), Plus(sum.c6, d.c6), Plus(sum.c7, d.c7),
           Plus(sum.pc2, d.pc2), Plus(sum.pc3, d.pc3), Plus(sum.pc6, d.pc6), Plus(sum.pc7, d.pc7), 0)
  }

  function DivideAll(sum: Sample, n: nat): (r: Sample)
    requires n > 0
  {
    Sample(sum.tsc / n, sum.aperf / n, sum.mperf / n, sum.c1 / n, sum.c3 / n, sum.c6 / n, sum.c7 / n,
           sum.pc2 / n, sum.pc3 / n, sum.pc6 / n, sum.pc7 / n, 0)
  }

  ghost predicate SumsTo(sum: Sample, ds: seq<Sample>) {
    forall c: Counter :: Get(sum, c) == Total(ds, c) % WORD
  }

  lemma AddOne(sum: Sample, d: Sample, c: Counter)
    ensures Get(AddAll(sum, d), c) == Plus(Get(sum, c), Get(d, c))
  {
  }

  lemma PlusMod(a: nat, b: word)
    ensures Plus(a % WORD, b) == (a + b) % WORD
  {
    ModShift(a % WORD + b, a / WORD);
  }

  lemma SumStep(sum: Sample, ds: seq<Sample>, d: Sample)
    requires SumsTo(sum, ds)
    ensures SumsTo(AddAll(sum, d), ds + [d])
  {
    forall c: Counter ensures Get(AddAll(sum, d), c) == Total(ds + [d], c) % WORD {
      assert (ds + [d])[..|ds|] == ds;
      assert Total(ds + [d], c) == Total(ds, c) + Get(d, c);
      PlusMod(Total(ds, c), Get(d, c));
      AddOne(sum, d, c);
    }
  }

  lemma SumDivided(sum: Sample, ds: seq<Sample>)
    requires ds != [] && SumsTo(sum, ds)
    ensures DivideAll(sum, |ds|) == Average(ds)
  {
    assert Get(sum, Tsc) == Total(ds, Tsc) % WORD && Get(sum, Aperf) == Total(ds, Aperf) % WORD;
    assert Get(sum, Mperf) == Total(ds, Mperf) % WORD && Get(sum, C1) == Total(ds, C1) % WORD;
    assert Get(sum, C3) == Total(ds, C3) % WORD && Get(sum, C6) == Total(ds, C6) % WORD;
    assert Get(sum, C7) == Total(ds, C7) % WORD && Get(sum, Pc2) == Total(ds, Pc2) % WORD;
    assert Get(sum, Pc3) == Total(ds, Pc3) % WORD && Get(sum, Pc6) == Total(ds, Pc6) % WORD;
    assert Get(sum, Pc7) == Total(ds, Pc7) % WORD;
  }

  /** compute_average. */
  method ComputeAverage(delta: List, numCpus: nat) returns (avg: Sample)
    requires delta.Linked() && delta.Filled() && numCpus == |delta.nodes| > 0
    ensures avg == Average(delta.vals)
  {
    var sum := ZERO;
    var d, i := delta.head, 0;
    ghost var vs := delta.vals;
    while d != null
      invariant 0 <= i <= |vs|
      invariant i < |vs| ==> d == delta.nodes[i]
      invariant i == |vs| ==> d == null
      invariant SumsTo(sum, vs[..i])
      decreases |vs| - i
    {
      SumStep(sum, vs[..i], vs[i]);
      assert vs[..i] + [vs[i]] == vs[..i + 1];
      sum := AddAll(sum, delta.vals[i]);
      assert i < |vs| - 1 ==> delta.nodes[i].next == delta.nodes[i + 1];
      d, i := d.next, i + 1;
    }
    assert vs[..i] == vs;
    SumDivided(sum, vs);
    avg := DivideAll(sum, numCpus);
  }

  // ----- the three lists

  ghost predicate Apart(a: seq<Counters>, b: seq<Counters>) {
    (forall n :: n in a ==> n !in b) && (forall n :: n in b ==> n !in a)
  }

  /** calloc and insert_counters: a new node in one list leaves the two others alone, and apart. */
  method AllocBeside(list: List, key: Key, ghost x: List, ghost y: List) returns (ghost node: Counters)
    requires list.Valid() && list.Filled() && x.Valid() && y.Valid() && Sorted(Keys(list.nodes))
    requires list != x && list != y && Apart(list.nodes, x.nodes) && Apart(list.nodes, y.nodes)
    modifies list, list.nodes`next
    ensures list.Valid() && list.Filled() && Keys(list.nodes) == Insert(old(Keys(list.nodes)), key)
    ensures fresh(node) && forall n :: n in list.nodes ==> n in old(list.nodes) || n == node
    ensures x.Valid() && y.Valid() && Apart(list.nodes, x.nodes) && Apart(list.nodes, y.nodes)
  {
    var node' := new Counters(key);
    node := node';
    list.InsertCounters(node');
    forall i | 0 <= i < |x.nodes| ensures x.nodes[i].next == old(x.nodes[i].next) {
      assert x.nodes[i] in x.nodes;
    }
    forall i | 0 <= i < |y.nodes| ensures y.nodes[i].next == old(y.nodes[i].next) {
      assert y.nodes[i] in y.nodes;
    }
  }

  /** Run with the reports already printed. */
  ghost function RunFrom(log: seq<Report>, s: State, ticks: seq<Tick>): (r: (seq<Report>, bool))
    requires Proper(s) && Listed(ticks)
    decreases |ticks|
  {
    if ticks == [] then (log, false)
    else match Turn(s, ticks[0])
      case Restart(next) => RunFrom(log, next, ticks[1..])
      case Exit => (log, true)
      case Print(report, next) => RunFrom(log + [report], next, ticks[1..])
  }

  lemma RunFromStep(log: seq<Report>, s: State, ticks: seq<Tick>)
    requires Proper(s) && Listed(ticks) && ticks != []
    ensures var step := Turn(s, ticks[0]);
            var printed := if step.Print? then [step.report] else [];
            RunFrom(log, s, ticks)
            == if step.Exit? then (log + printed, true) else RunFrom(log + printed, step.next, ticks[1..])
  {
    assert log + [] == log;
  }

  lemma KeysLength(nodes: seq<Counters>)
    ensures |Keys(nodes)| == |nodes|
  {
  }

  class Machine {
    const even: List
    const odd: List
    const delta: List
    var average: Sample
    var numCpus: nat
    var needReinitialize: bool
    ghost var Repr: set<Counters>

    /** The three lists are acyclic, share no node and hold the same keys in ascending order. */
    ghost predicate Aligned()
      reads even`head, even`nodes, odd`head, odd`nodes, delta`head, delta`nodes
      reads even.nodes`next, odd.nodes`next, delta.nodes`next
    {
      && even != odd && odd != delta && delta != even
      && even.Valid() && odd.Valid() && delta.Valid()
      && Apart(even.nodes, odd.nodes) && Apart(odd.nodes, delta.nodes) && Apart(delta.nodes, even.nodes)
      && Keys(even.nodes) == Keys(odd.nodes) == Keys(delta.nodes)
      && Sorted(Keys(even.nodes))
    }

    ghost predicate Owned()
      reads this`Repr, even`nodes, odd`nodes, delta`nodes
    {
      && (forall n :: n in even.nodes ==> n in Repr)
      && (forall n :: n in odd.nodes ==> n in Repr)
      && (forall n :: n in delta.nodes ==> n in Repr)
    }

    ghost predicate Filled()
      reads even`vals, even`nodes, odd`vals, odd`nodes, delta`vals, delta`nodes
    {
      even.Filled() && odd.Filled() && delta.Filled()
    }

    ghost predicate Valid()
      reads this`Repr, this`numCpus, even, odd, delta, even.nodes`next, odd.nodes`next, delta.nodes`next
    {
      Aligned() && Owned() && Filled() && numCpus == |even.nodes|
    }

    constructor ()
      ensures Valid() && even.nodes == [] && fresh(even) && fresh(odd) && fresh(delta) && Repr == {}
    {
      even := new List();
      odd := new List();
      delta := new List();
      average, numCpus, needReinitialize, Repr := ZERO, 0, false, {};
    }

    /** alloc_new_counters: a node for the cpu in each list. */
    method AllocNewCounters(key: Key) returns (ghost a: Counters, ghost b: Counters, ghost c: Counters)
      requires Aligned() && Filled()
      modifies even, odd, delta, even.nodes`next, odd.nodes`next, delta.nodes`next
      ensures Aligned() && Filled() && Keys(even.nodes) == Insert(old(Keys(even.nodes)), key)
      ensures fresh(a) && fresh(b) && fresh(c)
      ensures forall n :: n in odd.nodes ==> n in old(odd.nodes) || n == a
      ensures forall n :: n in even.nodes ==> n in old(even.nodes) || n == b
      ensures forall n :: n in delta.nodes ==> n in old(delta.nodes) || n == c
    {
      hide List.Linked, Distinct, Insert;
      InsertSorted(Keys(even.nodes), key);
      a := AllocBeside(odd, key, even, delta);
      b := AllocBeside(even, key, delta, odd);
      c := AllocBeside(delta, key, odd, even);
    }

    method AllocOwned(key: Key)
      requires Aligned() && Filled() && Owned()
      modifies this`Repr, even, odd, delta, Repr`next
      ensures Aligned() && Filled() && Owned() && Keys(even.nodes) == Insert(old(Keys(even.nodes)), key)
      ensures forall n :: n in Repr ==> n in old(Repr) || fresh(n)
    {
      hide List.Valid, List.Linked, Distinct, Sorted, Insert, Keys;
      ghost var a, b, c := AllocNewCounters(key);
      Repr := Repr + {a, b, c};
    }

    /** for_all_cpus(alloc_new_counters): the cpus in the order of /proc/stat, counted. */
    method ForAllCpus(cpus: seq<Key>) returns (cpuCount: nat)
      requires Aligned() && Filled() && Owned() && Keys(even.nodes) == []
      modifies this`Repr, even, odd, delta, Repr`next
      ensures Aligned() && Filled() && Owned() && Keys(even.nodes) == InsertAll([], cpus) && cpuCount == |cpus|
      ensures forall n :: n in Repr ==> n in old(Repr) || fresh(n)
    {
      cpuCount := 0;
      while cpuCount < |cpus|
        invariant cpuCount <= |cpus| && Aligned() && Filled() && Owned()
        invariant InsertAll(Keys(even.nodes), cpus[cpuCount..]) == InsertAll([], cpus)
        invariant forall n :: n in Repr ==> n in old(Repr) || fresh(n)
      {
        AllocOwned(cpus[cpuCount]);
        assert cpus[cpuCount..][1..] == cpus[cpuCount + 1..];
        cpuCount := cpuCount + 1;
      }
    }

    /** re_initialize: whatever the lists held, they are rebuilt in step. */
    method ReInitialize(cpus: seq<Key>)
      requires Aligned()
      modifies this, even, odd, delta
      ensures Valid() && Keys(even.nodes) == InsertAll([], cpus) && numCpus == |cpus| && !needReinitialize
      ensures fresh(Repr)
    {
      InsertAllSorted([], cpus);
      FreeAll();
      var cpuCount := ForAllCpus(cpus);
      KeysLength(even.nodes);
      SetCount(cpuCount);
    }

    method SetCount(cpuCount: nat)
      requires Aligned() && Filled() && Owned() && cpuCount == |even.nodes|
      modifies this`numCpus, this`needReinitialize
      ensures Valid() && numCpus == cpuCount && !needReinitialize
    {
      numCpus, needReinitialize := cpuCount, false;
    }

    method FreeAll()
      requires Aligned()
      modifies this`Repr, even, odd, delta
      ensures Aligned() && Filled() && Owned() && Keys(even.nodes) == [] && Repr == {}
    {
      hide List.Linked, Distinct;
      var freed := even.Free();
      freed := odd.Free();
      freed := delta.Free();
      Repr := {};
    }

    /** A snapshot into one of the two buffers. */
    method Snapshot(t: Tick, list: List)
      requires list.Linked() && list.Filled()
      modifies this`needReinitialize, list`vals
      ensures needReinitialize == (old(needReinitialize) || t.faulty)
      ensures list.vals == ReadAll(Keys(list.nodes), t.read)
    {
      GetCounters(list, t.read);
      needReinitialize := needReinitialize || t.faulty;
    }

    /** The restart label: rebuild, then take the first snapshot. */
    method Restart(t: Tick)
      requires Valid() && t.cpus != []
      modifies this, even, odd, delta
      ensures Valid() && fresh(Repr) && numCpus > 0 && needReinitialize == t.faulty
      ensures Keys(even.nodes) == Restarted(t).keys && even.vals == Restarted(t).prev
    {
      ReInitialize(t.cpus);
      Snapshot(t, even);
      assert Keys(even.nodes) == Restarted(t).keys;
    }

    /** One half of the loop body: a snapshot into the older buffer, its difference to the newer, and
        the average. */
    method Half(t: Tick, after: List, before: List) returns (r: DeltaResult, report: Report)
      requires after.Linked() && before.Linked() && delta.Linked()
      requires after.Filled() && before.Filled() && delta.Filled()
      requires delta != after && after != before && before != delta
      requires Keys(after.nodes) == Keys(before.nodes)
      requires |delta.nodes| == |after.nodes| == |before.nodes| == numCpus > 0
      modifies this`needReinitialize, this`average, after`vals, delta`vals
      ensures after.Filled() && delta.Filled() && needReinitialize == (old(needReinitialize) || t.faulty)
      ensures after.vals == ReadAll(Keys(after.nodes), t.read) && r != ConfigurationChanged
      ensures r == SlowTsc <==> AnyTooSlow(after.vals, before.vals)
      ensures r == Done ==> report.deltas == delta.vals == Deltas(after.vals, before.vals)
      ensures r == Done ==> report.average == average == Average(delta.vals)
    {
      Snapshot(t, after);
      r := ComputeDelta(after, before, delta);
      report := Report([], ZERO);
      if r == Done {
        average := ComputeAverage(delta, numCpus);
        report := Report(delta.vals, average);
      }
    }

    /** The newer snapshot is in even at the top of the loop and in odd in its middle. */
    ghost predicate Tracks(s: State)
      reads this`needReinitialize, even`nodes, even`vals, odd`vals
    {
      && s.keys == Keys(even.nodes) && s.needReinit == needReinitialize
      && s.prev == if s.top then even.vals else odd.vals
    }

    /** The top half samples into odd, the other half into even. */
    method SampleTurn(t: Tick, top: bool, ghost s: State) returns (r: DeltaResult, report: Report)
      requires Valid() && numCpus > 0 && Tracks(s) && s.top == top && t.cpus != [] && !Restarts(s, t)
      modifies this`needReinitialize, this`average, even`vals, odd`vals, delta`vals
      ensures Valid() && r != ConfigurationChanged
      ensures r == SlowTsc ==> Turn(s, t) == Exit
      ensures r == Done ==> Turn(s, t).Print? && report == Turn(s, t).report && Tracks(Turn(s, t).next)
    {
      assert |Keys(even.nodes)| == |Keys(odd.nodes)| == |Keys(delta.nodes)|;
      ghost var cur := ReadAll(s.keys, t.read);
      if top {
        r, report := Half(t, odd, even);
      } else {
        r, report := Half(t, even, odd);
      }
      assert r == SlowTsc <==> AnyTooSlow(cur, s.prev);
    }

    /** One turn of the loop: count the cpus at the top, rebuild or sample. */
    method OneTurn(t: Tick, top: bool, ghost s: State) returns (exited: bool, reports: seq<Report>, top': bool)
      requires Valid() && numCpus > 0 && Tracks(s) && s.top == top && |s.prev| == |s.keys| == numCpus && t.cpus != []
      modifies this, even, odd, delta
      ensures Valid() && numCpus > 0
      ensures exited <==> Turn(s, t).Exit?
      ensures !exited ==> Tracks(Turn(s, t).next) && top' == Turn(s, t).next.top && |Turn(s, t).next.keys| == numCpus
      ensures reports == if Turn(s, t).Print? then [Turn(s, t).report] else []
    {
      exited, reports, top' := false, [], true;
      if top && |t.cpus| != numCpus {
        needReinitialize := true;
      }
      if needReinitialize {
        assert Restarts(s, t);
        Restart(t);
      } else {
        assert !Restarts(s, t);
        var r, report := SampleTurn(t, top, s);
        if r == Done {
          reports, top' := [report], !top;
        } else {
          exited := true;
        }
      }
      assert |Keys(even.nodes)| == numCpus;
    }

    /** The loop stands where the state says. */
    ghost predicate Stands(s: State, top: bool)
      reads this`needReinitialize, this`numCpus, even`nodes, even`vals, odd`vals
    {
      Tracks(s) && s.top == top && |s.prev| == |s.keys| == numCpus > 0
    }

    /** The run that comes to `goal` has printed `reports` and stands before `rest`, or has exited. */
    ghost predicate OnCourse(exited: bool, reports: seq<Report>, s: State, top: bool, rest: seq<Tick>,
                             goal: (seq<Report>, bool))
      reads this, even, odd, delta, even.nodes`next, odd.nodes`next, delta.nodes`next
    {
      && Valid() && Listed(rest)
      && if exited then (reports, true) == goal else Stands(s, top) && RunFrom(reports, s, rest) == goal
    }

    /** One turn, with what it prints. */
    method PrintTurn(top: bool, ghost s: State, reports: seq<Report>, rest: seq<Tick>, ghost goal: (seq<Report>, bool))
      returns (exited: bool, reports': seq<Report>, top': bool, ghost s': State)
      requires rest != [] && OnCourse(false, reports, s, top, rest, goal)
      modifies this, even, odd, delta
      ensures OnCourse(exited, reports', s', top', rest[1..], goal)
    {
      RunFromStep(reports, s, rest);
      ghost var step := Turn(s, rest[0]);
      var printed;
      exited, printed, top' := OneTurn(rest[0], top, s);
      reports' := reports + printed;
      s' := if exited then s else step.next;
    }
  }

  lemma RunStep(s: State, ticks: seq<Tick>)
    requires Proper(s) && Listed(ticks) && ticks != []
    ensures var step := Turn(s, ticks[0]);
            var printed := if step.Print? then [step.report] else [];
            Run(s, ticks)
            == if step.Exit? then ([], true) else (printed + Run(step.next, ticks[1..]).0, Run(step.next, ticks[1..]).1)
  {
    var step := Turn(s, ticks[0]);
    if step.Restart? {
      assert [] + Run(step.next, ticks[1..]).0 == Run(step.next, ticks[1..]).0;
    }
  }

  lemma {:induction false} RunFromIsRun(log: seq<Report>, s: State, ticks: seq<Tick>)
    requires Proper(s) && Listed(ticks)
    ensures RunFrom(log, s, ticks) == (log + Run(s, ticks).0, Run(s, ticks).1)
    decreases |ticks|
  {
    if ticks == [] {
      assert log + [] == log;
    } else {
      var step := Turn(s, ticks[0]);
      RunFromStep(log, s, ticks);
      RunStep(s, ticks);
      if !step.Exit? {
        var printed := if step.Print? then [step.report] else [];
        RunFromIsRun(log + printed, step.next, ticks[1..]);
        Bytes.Associate(log, printed, Run(step.next, ticks[1..]).0);
      }
    }
  }
}
