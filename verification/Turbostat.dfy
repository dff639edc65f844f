/**
 turbostat's sampling: differences of 64-bit counters, their averages, and the endless loop as a
 function of what the machine shows it, with one previous and one current snapshot.
 */
module Turbostat {
  import opened CounterList

  // ----- differences

  function Minus(after: word, before: word): (r: word) {
    (after - before) % WORD
  }

  /** compute_delta for one cpu. */
  function Delta(after: Sample, before: Sample): (r: Sample) {
    var tsc := Minus(after.tsc, before.tsc);
    var c3, c6, c7 := Minus(after.c3, before.c3), Minus(after.c6, before.c6), Minus(after.c7, before.c7);
    var mperf := Minus(after.mperf, before.mperf);
    Sample(tsc, Minus(after.aperf, before.aperf), if mperf == 0 then 1 else mperf,
           if mperf > tsc then 0 else (tsc - mperf - c3 - c6 - c7) % WORD,
           c3, c6, c7,
           Minus(after.pc2, before.pc2), Minus(after.pc3, before.pc3),
           Minus(after.pc6, before.pc6), Minus(after.pc7, before.pc7), after.extra)
  }

  /** The program exits when a cpu's TSC advances by less than a million. */
  predicate TooSlow(after: Sample, before: Sample) {
    Minus(after.tsc, before.tsc) < 1_000_000
  }

  predicate AnyPair(p: (Sample, Sample) -> bool, cur: seq<Sample>, prev: seq<Sample>)
    requires |cur| == |prev|
  {
    exists i :: 0 <= i < |cur| && p(cur[i], prev[i])
  }

  function MapPairs(f: (Sample, Sample) -> Sample, cur: seq<Sample>, prev: seq<Sample>): (ds: seq<Sample>)
    requires |cur| == |prev|
    ensures |ds| == |cur| && forall i :: 0 <= i < |cur| ==> ds[i] == f(cur[i], prev[i])
  {
    seq(|cur|, i requires 0 <= i < |cur| => f(cur[i], prev[i]))
  }

  predicate AnyTooSlow(cur: seq<Sample>, prev: seq<Sample>)
    requires |cur| == |prev|
  {
    AnyPair(TooSlow, cur, prev)
  }

  function Deltas(cur: seq<Sample>, prev: seq<Sample>): (ds: seq<Sample>)
    requires |cur| == |prev|
    ensures |ds| == |cur|
  {
    MapPairs(Delta, cur, prev)
  }

  // ----- counters by name

  datatype Counter = Tsc | Aperf | Mperf | C1 | C3 | C6 | C7 | Pc2 | Pc3 | Pc6 | Pc7

  function Get(s: Sample, c: Counter): (r: word) {
    match c
    case Tsc => s.tsc case Aperf => s.aperf case Mperf => s.mperf case C1 => s.c1
    case C3 => s.c3 case C6 => s.c6 case C7 => s.c7
    case Pc2 => s.pc2 case Pc3 => s.pc3 case Pc6 => s.pc6 case Pc7 => s.pc7
  }

  function Total(ds: seq<Sample>, c: Counter): (r: nat) {
    if ds == [] then 0 else Total(ds[..|ds| - 1], c) + Get(ds[|ds| - 1], c)
  }

  /** One field of compute_average: a 64-bit sum divided by the number of cpus. */
  function Mean(ds: seq<Sample>, c: Counter): (r: word)
    requires ds != []
  {
    (Total(ds, c) % WORD) / |ds|
  }

  function Average(ds: seq<Sample>): (r: Sample)
    requires ds != []
  {
    Sample(Mean(ds, Tsc), Mean(ds, Aperf), Mean(ds, Mperf), Mean(ds, C1), Mean(ds, C3), Mean(ds, C6), Mean(ds, C7),
           Mean(ds, Pc2), Mean(ds, Pc3), Mean(ds, Pc6), Mean(ds, Pc7), 0)
  }

  // ----- denominators and averages

  /** Every difference the program goes on with has a usable denominator. */
  lemma DeltaDenominators(after: Sample, before: Sample)
    requires !TooSlow(after, before)
    ensures Delta(after, before).tsc >= 1_000_000 && Delta(after, before).mperf >= 1
  {
  }

  lemma Distribute(n: nat, x: nat)
    ensures (n + 1) * x == n * x + x
  {
  }

  lemma {:induction false} TotalBounds(ds: seq<Sample>, c: Counter, lo: nat, hi: nat)
    requires forall i :: 0 <= i < |ds| ==> lo <= Get(ds[i], c) <= hi
    ensures |ds| * lo <= Total(ds, c) <= |ds| * hi
  {
    if ds != [] {
      var n := |ds| - 1;
      var init, last := ds[..n], ds[n];
      assert forall i :: 0 <= i < n ==> init[i] == ds[i];
      TotalBounds(init, c, lo, hi);
      Distribute(n, lo);
      Distribute(n, hi);
      assert Total(ds, c) == Total(init, c) + Get(last, c);
    }
  }

  lemma Cancel(n: nat, a: int, b: int)
    requires n > 0 && n * a < n * b
    ensures a < b
  {
  }

  lemma QuotientBounds(total: nat, n: nat, lo: nat, hi: nat)
    requires n > 0 && n * lo <= total <= n * hi
    ensures lo <= total / n <= hi
  {
    var q := total / n;
    assert n * q <= total < n * (q + 1) && n * hi < n * (hi + 1);
    Cancel(n, lo, q + 1);
    Cancel(n, q, hi + 1);
  }

  lemma MeanIsQuotient(ds: seq<Sample>, c: Counter)
    requires ds != [] && Total(ds, c) < WORD
    ensures Mean(ds, c) == Total(ds, c) / |ds|
  {
    assert Total(ds, c) % WORD == Total(ds, c);
  }

  /** As long as the sum does not wrap, an average lies between the extremes of the cpus. */
  lemma MeanBounds(ds: seq<Sample>, c: Counter, lo: nat, hi: nat)
    requires ds != [] && Total(ds, c) < WORD
    requires forall i :: 0 <= i < |ds| ==> lo <= Get(ds[i], c) <= hi
    ensures lo <= Mean(ds, c) <= hi
  {
    TotalBounds(ds, c, lo, hi);
    QuotientBounds(Total(ds, c), |ds|, lo, hi);
    MeanIsQuotient(ds, c);
  }

  /** No denominator of the average line is zero either, unless a sum wraps. */
  lemma AverageDenominators(cur: seq<Sample>, prev: seq<Sample>)
    requires |cur| == |prev| > 0 && !AnyTooSlow(cur, prev)
    ensures var ds := Deltas(cur, prev);
            && (Total(ds, Tsc) < WORD ==> Average(ds).tsc >= 1_000_000)
            && (Total(ds, Mperf) < WORD ==> Average(ds).mperf >= 1)
  {
    var ds := Deltas(cur, prev);
    forall i | 0 <= i < |ds| ensures 1_000_000 <= Get(ds[i], Tsc) && 1 <= Get(ds[i], Mperf) {
      DeltaDenominators(cur[i], prev[i]);
    }
    if Total(ds, Tsc) < WORD {
      MeanBounds(ds, Tsc, 1_000_000, WORD);
    }
    if Total(ds, Mperf) < WORD {
      MeanBounds(ds, Mperf, 1, WORD);
    }
  }

  lemma QuotientZero(total: nat, n: nat)
    requires n > 0
    ensures total / n == 0 <==> total < n
  {
    if total >= n {
      assert total == n * (total / n) + total % n;
    }
  }

  /** A field of the average line is zero exactly if what is left of its sum modulo 2^64 is less than
      the number of cpus. */
  lemma MeanZero(ds: seq<Sample>, c: Counter)
    requires ds != []
    ensures Mean(ds, c) == 0 <==> Total(ds, c) % WORD < |ds|
  {
    QuotientZero(Total(ds, c) % WORD, |ds|);
  }

  /** Whether both denominators of the average line can be divided by. */
  ghost predicate Usable(cur: seq<Sample>, prev: seq<Sample>)
    requires |cur| == |prev| > 0
  {
    var avg := Average(Deltas(cur, prev));
    avg.tsc != 0 && avg.mperf != 0
  }

  /** MPERF readings of `n` cpus whose differences from zero add up to exactly 2^64. */
  function Wrapping(n: nat): (cur: seq<Sample>)
    requires 2 <= n < WORD
    ensures |cur| == n
  {
    seq(n, i => ZERO.(tsc := 1_000_000, mperf := if i == 0 then WORD - (n - 1) else 1))
  }

  function Zeros(n: nat): (prev: seq<Sample>)
    ensures |prev| == n
  {
    seq(n, _ => ZERO)
  }

  lemma WrappingAt(n: nat, i: nat)
    requires i < n && 2 <= n < WORD
    ensures var d := Delta(Wrapping(n)[i], Zeros(n)[i]);
            d.tsc == 1_000_000 && d.mperf == if i == 0 then WORD - (n - 1) else 1
  {
  }

  lemma {:induction false} WrappingTotal(n: nat, k: nat)
    requires 1 <= k <= n && 2 <= n < WORD
    ensures Total(Deltas(Wrapping(n), Zeros(n))[..k], Mperf) == WORD - (n - 1) + (k - 1)
    decreases k
  {
    var ds := Deltas(Wrapping(n), Zeros(n));
    WrappingAt(n, k - 1);
    assert ds[..k][..k - 1] == ds[..k - 1] && ds[..k][k - 1] == ds[k - 1];
    if k == 1 {
      assert ds[..0] == [];
    } else {
      WrappingTotal(n, k - 1);
    }
  }

  lemma TotalOne(ds: seq<Sample>, c: Counter)
    requires |ds| == 1
    ensures Total(ds, c) == Get(ds[0], c)
  {
    assert Total(ds[..0], c) == 0;
  }

  lemma OneCpuUsable(cur: seq<Sample>, prev: seq<Sample>)
    requires |cur| == |prev| == 1 && !AnyTooSlow(cur, prev)
    ensures Usable(cur, prev)
  {
    hide Delta, Total, Mean;
    var ds := Deltas(cur, prev);
    assert !TooSlow(cur[0], prev[0]);
    DeltaDenominators(cur[0], prev[0]);
    TotalOne(ds, Tsc);
    TotalOne(ds, Mperf);
    MeanZero(ds, Tsc);
    MeanZero(ds, Mperf);
  }

  /** Exactly when no run can bring a zero denominator into the average line: with one cpu.  With more,
      accepted differences can add up to 2^64.  The number of cpus is an int. */
  lemma DenominatorCondition(n: nat)
    requires 1 <= n < 0x8000_0000
    ensures (forall cur, prev | |cur| == |prev| == n && !AnyTooSlow(cur, prev) :: Usable(cur, prev)) <==> n == 1
  {
    if n == 1 {
      forall cur: seq<Sample>, prev | |cur| == |prev| == n && !AnyTooSlow(cur, prev) ensures Usable(cur, prev) {
        OneCpuUsable(cur, prev);
      }
    } else {
      var cur, prev := Wrapping(n), Zeros(n);
      forall i | 0 <= i < n ensures !TooSlow(cur[i], prev[i]) {
        WrappingAt(n, i);
      }
      var ds := Deltas(cur, prev);
      WrappingTotal(n, n);
      assert ds[..n] == ds;
      MeanZero(ds, Mperf);
      assert !Usable(cur, prev);
    }
  }

  // ----- the loop

  /** One snapshot: what /proc/stat lists before it, the counters it reads, and whether a cpu could
      not be read. */
  datatype Tick = Tick(cpus: seq<Key>, read: int -> Sample, faulty: bool)

  datatype Report = Report(deltas: seq<Sample>, average: Sample)

  function ReadAll(keys: seq<Key>, read: int -> Sample): (vs: seq<Sample>)
    ensures |vs| == |keys|
  {
    seq(|keys|, i requires 0 <= i < |keys| => read(keys[i].cpu))
  }

  /** `top`: the next turn starts at the top of the loop, where the cpus are counted. */
  datatype State = State(keys: seq<Key>, prev: seq<Sample>, needReinit: bool, top: bool)

  ghost predicate Proper(s: State) {
    |s.prev| == |s.keys| > 0
  }

  ghost predicate Listed(ticks: seq<Tick>) {
    forall i :: 0 <= i < |ticks| ==> ticks[i].cpus != []
  }

  predicate Restarts(s: State, t: Tick) {
    s.needReinit || (s.top && |t.cpus| != |s.keys|)
  }

  function Restarted(t: Tick): (r: State) {
    var keys := InsertAll([], t.cpus);
    State(keys, ReadAll(keys, t.read), t.faulty, true)
  }

  datatype Step = Restart(next: State) | Print(report: Report, next: State) | Exit

  /** One turn: a rebuild after a change of topology, or a snapshot reported against the one before. */
  function Turn(s: State, t: Tick): (r: Step)
    requires |s.prev| == |s.keys| > 0 && t.cpus != []
    ensures !r.Exit? ==> |r.next.prev| == |r.next.keys| > 0
  {
    if Restarts(s, t) then
      InsertAllSorted([], t.cpus);
      Restart(Restarted(t))
    else
      var cur := ReadAll(s.keys, t.read);
      if AnyTooSlow(cur, s.prev) then Exit
      else Print(Report(Deltas(cur, s.prev), Average(Deltas(cur, s.prev))), State(s.keys, cur, t.faulty, !s.top))
  }

  /** The reports of a run, and whether it exited on a slow TSC. */
  function Run(s: State, ticks: seq<Tick>): (r: (seq<Report>, bool))
    requires |s.prev| == |s.keys| > 0 && forall i :: 0 <= i < |ticks| ==> ticks[i].cpus != []
    decreases |ticks|
  {
    if ticks == [] then ([], false)
    else match Turn(s, ticks[0])
      case Restart(next) => Run(next, ticks[1..])
      case Exit => ([], true)
      case Print(report, next) =>
        var (rest, exited) := Run(next, ticks[1..]);
        ([report] + rest, exited)
  }

  // ----- telescoping

  /** No restart happens before the ticks are used up. */
  ghost predicate Steady(s: State, ticks: seq<Tick>)
    requires |s.prev| == |s.keys|
    decreases |ticks|
  {
    ticks == [] ||
    (!Restarts(s, ticks[0]) &&
     Steady(State(s.keys, ReadAll(s.keys, ticks[0].read), ticks[0].faulty, !s.top), ticks[1..]))
  }

  /** The snapshot before the k-th tick. */
  function Before(s: State, ticks: seq<Tick>, k: nat): (vs: seq<Sample>)
    requires |s.prev| == |s.keys| && k <= |ticks|
    ensures |vs| == |s.keys|
  {
    if k == 0 then s.prev else ReadAll(s.keys, ticks[k - 1].read)
  }

  lemma UniqueRemainder(a: int, q: int, r: int)
    requires a == q * WORD + r && 0 <= r < WORD
    ensures a % WORD == r
  {
  }

  lemma ModShift(a: int, k: int)
    ensures (a + k * WORD) % WORD == a % WORD
  {
    var q := a / WORD;
    assert a + k * WORD == (q + k) * WORD + a % WORD;
    UniqueRemainder(a + k * WORD, q + k, a % WORD);
  }

  lemma MinusCompose(last: word, mid: word, first: word, x: int, y: int)
    requires x == Minus(last, mid) && y % WORD == Minus(mid, first)
    ensures (y + x) % WORD == Minus(last, first)
  {
    var a, b := mid - first, last - mid;
    var ka, ky, kb := a / WORD, y / WORD, b / WORD;
    assert a == ka * WORD + a % WORD && y == ky * WORD + y % WORD && b == kb * WORD + b % WORD;
    assert y + x == (a + b) + (ky - ka - kb) * WORD;
    ModShift(a + b, ky - ka - kb);
  }

  /** One turn without a restart reports the latest snapshot minus the one just before it. */
  lemma TurnReports(s: State, ticks: seq<Tick>)
    requires Proper(s) && Listed(ticks) && ticks != [] && !Restarts(s, ticks[0])
    ensures var cur := ReadAll(s.keys, ticks[0].read);
            var next := State(s.keys, cur, ticks[0].faulty, !s.top);
            var ds := Deltas(cur, s.prev);
            && (!Run(s, ticks).1 ==> !Run(next, ticks[1..]).1)
            && (!Run(s, ticks).1 ==> Run(s, ticks).0 == [Report(ds, Average(ds))] + Run(next, ticks[1..]).0)
  {
  }

  /** Within a segment without restarts every tick is reported, as its snapshot minus the one just
      before it. */
  lemma {:induction false} SteadyReports(s: State, ticks: seq<Tick>)
    requires Proper(s) && Listed(ticks) && Steady(s, ticks) && !Run(s, ticks).1
    ensures var reports := Run(s, ticks).0;
            && |reports| == |ticks|
            && forall k :: 0 <= k < |ticks| ==>
                 reports[k].deltas == Deltas(Before(s, ticks, k + 1), Before(s, ticks, k))
    decreases |ticks|
  {
    hide Turn, Deltas;
    if ticks != [] {
      var next := State(s.keys, ReadAll(s.keys, ticks[0].read), ticks[0].faulty, !s.top);
      TurnReports(s, ticks);
      SteadyReports(next, ticks[1..]);
      forall k | 0 < k < |ticks|
        ensures Run(s, ticks).0[k].deltas == Deltas(Before(s, ticks, k + 1), Before(s, ticks, k))
      {
        assert Run(s, ticks).0[k] == Run(next, ticks[1..]).0[k - 1];
        assert Before(next, ticks[1..], k) == Before(s, ticks, k + 1);
        assert Before(next, ticks[1..], k - 1) == Before(s, ticks, k);
      }
    }
  }

  function SumWords(ws: seq<word>): (r: nat) {
    if ws == [] then 0 else SumWords(ws[..|ws| - 1]) + ws[|ws| - 1]
  }

  lemma {:induction false} DifferencesTelescope(ds: seq<word>, vs: seq<word>)
    requires |vs| == |ds| + 1 && forall j :: 0 <= j < |ds| ==> ds[j] == Minus(vs[j + 1], vs[j])
    ensures SumWords(ds) % WORD == Minus(vs[|ds|], vs[0])
    decreases |ds|
  {
    if ds != [] {
      var k := |ds| - 1;
      DifferencesTelescope(ds[..k], vs[..k + 1]);
      assert ds[k] == Minus(vs[k + 1], vs[k]);
      MinusCompose(vs[k + 1], vs[k], vs[0], ds[k], SumWords(ds[..k]));
    }
  }

  /** A cpu's reported differences of one counter. */
  function Series(reports: seq<Report>, i: nat, c: Counter): (ws: seq<word>)
    ensures |ws| == |reports|
  {
    seq(|reports|, j requires 0 <= j < |reports| => if i < |reports[j].deltas| then Get(reports[j].deltas[i], c) else 0)
  }

  lemma DeltaIsDifference(after: Sample, before: Sample, c: Counter)
    requires c != Mperf && c != C1
    ensures Get(Delta(after, before), c) == Minus(Get(after, c), Get(before, c))
  {
  }

  lemma MinusPlus(after: word, before: word)
    ensures (before + Minus(after, before)) % WORD == after
  {
    UniqueRemainder(before + Minus(after, before), -((after - before) / WORD), after);
  }

  /** No reading is lost in the difference: it takes the earlier one to the later one, even if the
      counter passed 2^64 in between. */
  lemma DeltaRecovers(after: Sample, before: Sample, c: Counter)
    requires c != Mperf && c != C1
    ensures (Get(before, c) + Get(Delta(after, before), c)) % WORD == Get(after, c)
  {
    MinusPlus(Get(after, c), Get(before, c));
  }

  /** Every TSC cycle of a delta is spent in one state, C1 taking the rest, unless the MPERF cycles
      exceed them, when C1 is none. */
  lemma DeltaConserves(after: Sample, before: Sample)
    ensures var d, busy := Delta(after, before), Minus(after.mperf, before.mperf);
            && d.mperf == (if busy == 0 then 1 else busy)
            && if busy > d.tsc then d.c1 == 0 else (busy + d.c1 + d.c3 + d.c6 + d.c7) % WORD == d.tsc
  {
    var d, busy := Delta(after, before), Minus(after.mperf, before.mperf);
    if busy <= d.tsc {
      var rest := d.tsc - busy - d.c3 - d.c6 - d.c7;
      UniqueRemainder(busy + d.c1 + d.c3 + d.c6 + d.c7, -(rest / WORD), d.tsc);
    }
  }

  /** ... so that the differences of a counter add up to its last reading minus its first, modulo
      2^64, on every cpu. */
  lemma Telescopes(s: State, ticks: seq<Tick>, i: nat, c: Counter)
    requires Proper(s) && Listed(ticks) && Steady(s, ticks) && !Run(s, ticks).1
    requires i < |s.keys| && c != Mperf && c != C1
    ensures |Run(s, ticks).0| == |ticks|
    ensures SumWords(Series(Run(s, ticks).0, i, c)) % WORD
         == Minus(Get(Before(s, ticks, |ticks|)[i], c), Get(s.prev[i], c))
  {
    hide Run, Delta, Steady;
    SteadyReports(s, ticks);
    var reports := Run(s, ticks).0;
    var ds := Series(reports, i, c);
    var vs: seq<word> := seq(|ticks| + 1, j requires 0 <= j <= |ticks| => Get(Before(s, ticks, j)[i], c));
    forall j | 0 <= j < |ds| ensures ds[j] == Minus(vs[j + 1], vs[j]) {
      assert reports[j].deltas == Deltas(Before(s, ticks, j + 1), Before(s, ticks, j));
      DeltaIsDifference(Before(s, ticks, j + 1)[i], Before(s, ticks, j)[i], c);
    }
    DifferencesTelescope(ds, vs);
  }
}
