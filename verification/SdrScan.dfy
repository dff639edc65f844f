/**
 What the cache's answers say about the whole repository: when the scan it works through is the scan
 of every record, that a link that serves in the end completes every operation, and that a dump, loaded
 again, answers without the device.
 */
module SdrScan {
  import opened Bytes
  import opened SdrReader
  import opened SdrCache
  import opened SdrFile

  // ----- records behind one with an empty body

  /** Every supported record with a body in the first `n` positions. */
  function WholeKept(repo: seq<Record>, n: nat): (list: seq<Entry>)
    requires n <= |repo|
  {
    if n == 0 then []
    else WholeKept(repo, n - 1) + if repo[n - 1].body == [] then [] else Shown(repo, n - 1)
  }

  function WholeScan(repo: seq<Record>): (list: seq<Entry>) {
    WholeKept(repo, |repo|)
  }

  /** No supported record with a body stands behind one without. */
  ghost predicate NothingHidden(repo: seq<Record>) {
    forall p, q :: 0 <= p < q < |repo| && repo[p].body == [] ==> repo[q].body == [] || !Supported(repo[q].kind)
  }

  lemma {:induction false} KeptWhole(repo: seq<Record>, n: nat)
    requires n <= VisibleLength(repo)
    ensures Kept(repo, n, {}) == WholeKept(repo, n)
  {
    if n > 0 {
      KeptWhole(repo, n - 1);
    }
  }

  lemma {:induction false} WholePrefix(repo: seq<Record>, n: nat, m: nat)
    requires n <= m <= |repo|
    ensures WholeKept(repo, n) <= WholeKept(repo, m)
    decreases m
  {
    if n < m {
      WholePrefix(repo, n, m - 1);
    }
  }

  lemma MoreMatches(a: seq<Entry>, b: seq<Entry>, q: Query)
    requires a <= b
    ensures |AllMatches(a, q)| <= |AllMatches(b, q)|
  {
    assert b == a + b[|a|..];
    AllMatchesConcat(a, b[|a|..], q);
  }

  lemma {:induction false} WholeBehind(repo: seq<Record>, n: nat)
    requires NothingHidden(repo) && VisibleLength(repo) <= n <= |repo|
    ensures WholeKept(repo, n) == WholeKept(repo, VisibleLength(repo))
    decreases n
  {
    if n > VisibleLength(repo) {
      WholeBehind(repo, n - 1);
      assert repo[n - 1].body == [] || !Supported(repo[n - 1].kind);
    }
  }

  lemma {:induction false} MatchOne(e: Entry, q: Query)
    ensures AllMatches([e], q) == if Matches(q, e) then [e] else []
  {
    assert [e][..0] == [];
  }

  lemma ShownMatches(repo: seq<Record>, h: nat)
    requires h < |repo| && repo[h].body != [] && Supported(repo[h].kind)
    ensures var q := ByType(repo[h].kind);
            |AllMatches(WholeKept(repo, h), q)| < |AllMatches(WholeKept(repo, h + 1), q)|
  {
    var q := ByType(repo[h].kind);
    AllMatchesConcat(WholeKept(repo, h), Shown(repo, h), q);
    MatchOne(Shown(repo, h)[0], q);
  }

  /** A hidden record is missing from the scan of the cache, and from its list by type. */
  lemma HiddenMissing(repo: seq<Record>, p: nat, h: nat)
    requires p < h < |repo| && repo[p].body == [] && repo[h].body != [] && Supported(repo[h].kind)
    ensures var q := ByType(repo[h].kind);
            |AllMatches(Scan(repo, {}), q)| < |AllMatches(WholeScan(repo), q)|
  {
    hide AllMatches, Shown;
    var q := ByType(repo[h].kind);
    var v := VisibleLength(repo);
    assert v <= p;
    KeptWhole(repo, v);
    WholePrefix(repo, v, h);
    WholePrefix(repo, h + 1, |repo|);
    MoreMatches(WholeKept(repo, v), WholeKept(repo, h), q);
    MoreMatches(WholeKept(repo, h + 1), WholeScan(repo), q);
    ShownMatches(repo, h);
  }

  /** Exactly when the scan the cache works through is the scan of the whole repository. */
  lemma ScanIsWhole(repo: seq<Record>)
    ensures Scan(repo, {}) == WholeScan(repo) <==> NothingHidden(repo)
  {
    KeptWhole(repo, VisibleLength(repo));
    if NothingHidden(repo) {
      WholeBehind(repo, |repo|);
    } else {
      var p, h :| 0 <= p < h < |repo| && repo[p].body == [] && repo[h].body != [] && Supported(repo[h].kind);
      HiddenMissing(repo, p, h);
    }
  }

  /** Two records, the first without a body: nothing is ever cached. */
  lemma EmptyBodyHides()
    ensures var repo := [Record(1, 0x51, 1, []), Record(2, 0x51, 1, [7])];
            Repository(repo) && Scan(repo, {}) == [] && WholeScan(repo) == [Entry(2, 1, [7])]
  {
    var repo := [Record(1, 0x51, 1, []), Record(2, 0x51, 1, [7])];
    assert VisibleLength(repo) == 0;
    assert WholeKept(repo, 0) == [] && WholeKept(repo, 1) == [];
    assert WholeKept(repo, 2) == [] + Shown(repo, 1);
  }

  /** The answer of a scan of the whole repository. */
  function WholeReference(repo: seq<Record>, op: Op): (ans: Answer) {
    match op
    case First(q) => One(FirstMatch(WholeScan(repo), q))
    case All(q) => Many(AllMatches(WholeScan(repo), q))
    case FillAll => Filled
  }

  // ----- enough service completes every operation

  /** Served requests for the records from position `p` on, read in pieces of `m` bytes: one for each
      header and one for each piece. */
  function Cost(repo: seq<Record>, p: nat, m: nat): (n: nat)
    requires p <= VisibleLength(repo) && m > 0
    decreases VisibleLength(repo) - p
  {
    if p == VisibleLength(repo) then 0 else 1 + Pieces(|repo[p].body|, m) + Cost(repo, p + 1, m)
  }

  /** What is still to be served before the whole visible repository is cached. */
  function Needs(repo: seq<Record>, c: Cache, m: nat): (n: nat)
    requires c.pos <= VisibleLength(repo) && m > 0
  {
    (if c.itr.None? then 1 else 0) + Cost(repo, c.pos, m)
  }

  /** What it takes at most to find out that there is no more: five tries for an empty repository. */
  function EndCost(repo: seq<Record>): (n: nat)
    ensures n >= 1
  {
    if repo == [] then TRIES else 1
  }

  /** `n` times a cost, one at a time. */
  function Times(cost: nat, n: nat): (total: nat) {
    if n == 0 then 0 else cost + Times(cost, n - 1)
  }

  lemma {:induction false} TimesIsProduct(cost: nat, n: nat)
    ensures Times(cost, n) == cost * n
  {
    if n > 0 {
      TimesIsProduct(cost, n - 1);
    }
  }

  /** A cache over an obliging link whose refusals leave requests of at least `m` bytes. */
  ghost predicate Ready(repo: seq<Record>, c: Cache, m: nat) {
    Repository(repo) && Valid(repo, c) && Obliging(c.wire.script) && Keeps(m, c.wire) && c.lost == {}
  }

  /** Ready, with what is needed still to be served and `left` requests besides. */
  ghost predicate Funded(repo: seq<Record>, c: Cache, m: nat, left: nat) {
    Ready(repo, c, m) && Serves(c.wire.script) >= Needs(repo, c, m) + left
  }

  /** A header or the end of the repository, found with the service it takes. */
  lemma HeaderCompletes(repo: seq<Record>, c: Cache, m: nat)
    requires Ready(repo, c, m) && c.itr.Some?
    requires Serves(c.wire.script) >= EndCost(repo)
    ensures var (h, c') := NextHeader(repo, c);
            var cost := if c.pos < VisibleLength(repo) then 1 else EndCost(repo);
            && h == (if c.pos < VisibleLength(repo) then Found(c.pos) else Stop)
            && c'.lost == c.lost && Obliging(c'.wire.script) && Keeps(m, c'.wire)
            && Serves(c.wire.script) <= Serves(c'.wire.script) + cost
  {
    hide Find, GetHeader, Serves, Refusals, Kept, VisibleLength;
    FindKey(repo, c.pos);
    HeaderServed(c.pos < |repo|, TRIES, c.wire);
  }

  /** A record whose header has been found is read with the service it costs. */
  lemma TurnReads(repo: seq<Record>, q: Option<Query>, c: Cache, m: nat)
    requires c.itr.Some? && c.pos < |repo| && repo[c.pos].body != []
    requires var (h, c1) := NextHeader(repo, c);
             && h == Found(c.pos) && c1.pos == c.pos + 1 && Obliging(c1.wire.script) && Keeps(m, c1.wire)
             && Serves(c1.wire.script) >= Pieces(|repo[c.pos].body|, m)
    ensures var t, w := Turn(repo, q, c), NextHeader(repo, c).1.wire;
            && (t.On? || t.out.Hit?) && t.c.pos == c.pos + 1 && Keeps(m, t.c.wire)
            && Serves(w.script) <= Serves(t.c.wire.script) + Pieces(|repo[c.pos].body|, m)
  {
    hide NextHeader, Read, Obliging, Serves, Pieces, Full;
    ReadCompletes(repo[c.pos], 0, [], NextHeader(repo, c).1.wire, m);
  }

  lemma TurnEnds(repo: seq<Record>, q: Option<Query>, c: Cache)
    requires c.itr.Some? && NextHeader(repo, c).0 == Stop
    ensures Turn(repo, q, c) == Over(End, NextHeader(repo, c).1)
  {
  }

  /** One turn: what the next record costs, at the end what it takes to see it. */
  lemma TurnCompletes(repo: seq<Record>, q: Option<Query>, c: Cache, m: nat, left: nat)
    requires c.itr.Some? && Funded(repo, c, m, EndCost(repo) + left)
    requires q.Some? ==> FirstMatch(c.list, q.value) == None
    ensures var t := Turn(repo, q, c);
            if c.pos < VisibleLength(repo) then (t.On? || t.out.Hit?) && Funded(repo, t.c, m, EndCost(repo) + left)
            else t.Over? && t.out == End && Funded(repo, t.c, m, left)
  {
    hide Turn, NextHeader, GetHeader, GetRecord, Obliging, Serves, Pieces, VisibleLength, FirstMatch;
    TurnValid(repo, q, c);
    TurnServed(repo, q, c);
    HeaderCompletes(repo, c, m);
    NextHeaderValid(repo, c);
    if c.pos < VisibleLength(repo) {
      TurnReads(repo, q, c, m);
    } else {
      TurnEnds(repo, q, c);
    }
  }

  lemma {:induction false} FillCompletes(repo: seq<Record>, q: Option<Query>, c: Cache, m: nat, left: nat)
    requires c.itr.Some? && Funded(repo, c, m, EndCost(repo) + left)
    requires q.Some? ==> FirstMatch(c.list, q.value) == None
    ensures var (out, c') := Fill(repo, q, c); !Stuck(out) && Funded(repo, c', m, left)
    decreases |c.wire.script|
  {
    hide Turn, Obliging, Serves, FirstMatch, Cost, Kept;
    TurnCompletes(repo, q, c, m, left);
    TurnValid(repo, q, c);
    var t := Turn(repo, q, c);
    if t.On? {
      FillCompletes(repo, q, t.c, m, left);
    }
  }

  lemma PerformCompletes(repo: seq<Record>, op: Op, c: Cache, m: nat, left: nat)
    requires Funded(repo, c, m, EndCost(repo) + left)
    ensures var (ans, c') := Perform(repo, op, c); ans != NoAnswer && Funded(repo, c', m, left)
  {
    hide Fill, Cost, Kept, VisibleLength, FirstMatch, AllMatches, Matches;
    var (ready, c1) := Open(c);
    assert ready.Some? && Funded(repo, c1, m, EndCost(repo) + left);
    if ready.value && !(op.First? && FirstMatch(c1.list, op.q).Some?) {
      FillCompletes(repo, if op.First? then Some(op.q) else None, c1, m, left);
    }
  }

  lemma RunNext(repo: seq<Record>, ops: seq<Op>, c: Cache, m: nat) returns (next: Cache)
    requires ops != [] && Funded(repo, c, m, Times(EndCost(repo), |ops|))
    ensures Funded(repo, next, m, Times(EndCost(repo), |ops| - 1))
    ensures |Run(repo, ops, c)| == 1 + |Run(repo, ops[1..], next)|
  {
    PerformCompletes(repo, ops[0], c, m, Times(EndCost(repo), |ops| - 1));
    next := Perform(repo, ops[0], c).1;
  }

  lemma {:induction false} RunLength(repo: seq<Record>, ops: seq<Op>, c: Cache, m: nat)
    requires Funded(repo, c, m, Times(EndCost(repo), |ops|))
    ensures |Run(repo, ops, c)| == |ops|
    decreases |ops|
  {
    hide Perform, Funded;
    if ops != [] {
      var next := RunNext(repo, ops, c, m);
      RunLength(repo, ops[1..], next, m);
    }
  }

  /** One served request to open, one for every header and every piece of a record, and one for each
      operation (five if there are no records) complete any run, whatever is refused or renewed in
      between, as long as the refusals leave pieces of `m` bytes.  Every answer is the scan's, except
      that at most the first four operations can fail to open the iterator. */
  lemma RunCompletes(repo: seq<Record>, ops: seq<Op>, c: Cache, m: nat)
    requires Ready(repo, c, m) && Serves(c.wire.script) >= Needs(repo, c, m) + EndCost(repo) * |ops|
    ensures var run := Run(repo, ops, c);
            |run| == |ops| && forall i :: 0 <= i < |ops| ==> Answered(run[i].0, Reference(repo, ops[i]), c, i)
  {
    TimesIsProduct(EndCost(repo), |ops|);
    RunLength(repo, ops, c, m);
    RunIsScan(repo, ops, c);
  }

  function Service(n: nat): (script: seq<Event>)
    ensures Obliging(script) && Serves(script) == n && Refusals(script) == 0
    ensures n > 0 ==> script != [] && script[0] == Serve
  {
    if n == 0 then [] else
    var script := [Serve] + Service(n - 1);
    assert script[1..] == Service(n - 1) && (|script| >= TRIES ==> script[..TRIES][0] == Serve);
    script
  }

  /** What a caller wants of every run over an obliging link. */
  ghost predicate AnswersWhole(repo: seq<Record>, ops: seq<Op>, script: seq<Event>) {
    var run := Run(repo, ops, Fresh(script));
    forall i :: 0 <= i < |run| ==> Answered(run[i].0, WholeReference(repo, ops[i]), Fresh(script), i)
  }

  /** A hidden record is missing from an answer. */
  lemma HiddenUnanswered(repo: seq<Record>, p: nat, h: nat) returns (ops: seq<Op>, script: seq<Event>)
    requires Repository(repo) && p < h < |repo|
    requires repo[p].body == [] && repo[h].body != [] && Supported(repo[h].kind)
    ensures Obliging(script) && !AnswersWhole(repo, ops, script)
  {
    ops := [All(ByType(repo[h].kind))];
    script := Service(1 + Cost(repo, 0, ENTIRE_RECORD) + EndCost(repo));
    HiddenMissing(repo, p, h);
    assert Ready(repo, Fresh(script), ENTIRE_RECORD);
    RunCompletes(repo, ops, Fresh(script), ENTIRE_RECORD);
    var run := Run(repo, ops, Fresh(script));
    assert Answered(run[0].0, Reference(repo, ops[0]), Fresh(script), 0);
    assert run[0].0 == Reference(repo, ops[0]) != WholeReference(repo, ops[0]);
  }

  /** Exactly when every answer of every run over an obliging link is that of a scan of the whole
      repository. */
  lemma RunCondition(repo: seq<Record>)
    requires Repository(repo)
    ensures (forall ops, script | Obliging(script) :: AnswersWhole(repo, ops, script)) <==> NothingHidden(repo)
  {
    if NothingHidden(repo) {
      ScanIsWhole(repo);
      forall ops, script | Obliging(script) ensures AnswersWhole(repo, ops, script) {
        RunIsScan(repo, ops, Fresh(script));
      }
    } else {
      var p, h :| 0 <= p < h < |repo| && repo[p].body == [] && repo[h].body != [] && Supported(repo[h].kind);
      var ops, script := HiddenUnanswered(repo, p, h);
    }
  }

  // ----- dump, load, look up

  /** The first `n` records as the collecting loop of ipmi_sdr_dump_bin names them. */
  function Named(repo: seq<Record>, n: nat): (recs: seq<Record>)
    requires n <= |repo|
    ensures |recs| == n
  {
    seq(n, p requires 0 <= p < n => repo[p].(id := Key(repo, p)))
  }

  datatype Collected = Collected(recs: seq<Record>) | Crashed | NotYet

  /** The collecting loop, over an iterator that caches nothing: every record it passes counts as lost
      to the cache.  Crashed: a record whose body could not be read is written from a null pointer. */
  function Collect(repo: seq<Record>, c: Cache, recs: seq<Record>): (r: (Collected, Cache))
    requires c.itr.Some?
    decreases |c.wire.script|
  {
    var (h, c1) := NextHeader(repo, c);
    match h
    case Stop => (Collected(recs), c1)
    case Wait => (NotYet, c1)
    case Found(p) =>
      ReadShortens(repo[p], c1.wire);
      var (r, w) := GetRecord(repo[p], c1.wire);
      var c2 := c1.(wire := w, lost := c1.lost + {p});
      match r
      case Body(b) => Collect(repo, c2, recs + [Record(c.itr.value, repo[p].version, repo[p].kind, b)])
      case Unfinished => (NotYet, c2)
      case _ => (Crashed, c2)
  }

  lemma NamedNext(repo: seq<Record>, p: nat)
    requires p < |repo|
    ensures Named(repo, p) + [repo[p].(id := Key(repo, p))] == Named(repo, p + 1)
  {
  }

  /** A record that has been passed and read. */
  lemma RecordRead(repo: seq<Record>, c: Cache, c1: Cache, p: nat)
    requires Repository(repo) && Valid(repo, c) && c.pos == p < VisibleLength(repo) && c1.pos == p + 1
    requires c1.list == c.list && c1.lost == c.lost && c1.itr == Some(Key(repo, p + 1)) && IsSize(c1.wire.max)
    ensures var (r, w) := GetRecord(repo[p], c1.wire);
            && |w.script| <= |c1.wire.script| && (r.Body? ==> r.bytes == repo[p].body)
            && Valid(repo, c1.(wire := w, lost := c1.lost + {p}))
            && (Obliging(c1.wire.script) ==> Obliging(w.script))
  {
    ReadShortens(repo[p], c1.wire);
    ReadExact(repo[p], 0, c1.wire);
    if Obliging(c1.wire.script) {
      ReadServed(repo[p], 0, [], c1.wire);
    }
    AdvanceValid(repo, c, c1.(wire := GetRecord(repo[p], c1.wire).1, lost := c1.lost + {p}));
  }

  /** One record on, or the end. */
  lemma CollectNext(repo: seq<Record>, c: Cache) returns (next: Option<Cache>)
    requires Repository(repo) && Valid(repo, c) && c.itr.Some?
    ensures next.Some? ==>
              && Valid(repo, next.value) && next.value.itr.Some?
              && |next.value.wire.script| < |c.wire.script|
              && (Obliging(c.wire.script) ==> Obliging(next.value.wire.script))
              && Collect(repo, c, Named(repo, c.pos)) == Collect(repo, next.value, Named(repo, next.value.pos))
    ensures var (r, c') := Collect(repo, c, Named(repo, c.pos));
            next.None? && r.Collected? ==>
              && c'.pos == c.pos && r.recs == Named(repo, c.pos)
              && (Obliging(c.wire.script) ==> c'.pos == VisibleLength(repo))
  {
    hide NextHeader, GetRecord, Obliging, VisibleLength, Named, Kept;
    next := None;
    var (h, c1) := NextHeader(repo, c);
    NextHeaderValid(repo, c);
    if Obliging(c.wire.script) {
      NextHeaderServed(repo, c);
    }
    if h.Found? {
      RecordRead(repo, c, c1, h.p);
      var (r, w) := GetRecord(repo[h.p], c1.wire);
      if r.Body? {
        NamedNext(repo, h.p);
        next := Some(c1.(wire := w, lost := c1.lost + {h.p}));
      }
    }
  }

  /** Over any link, what is collected is the records passed, each exact. */
  lemma {:induction false} CollectNamed(repo: seq<Record>, c: Cache)
    requires Repository(repo) && Valid(repo, c) && c.itr.Some?
    ensures var (r, c') := Collect(repo, c, Named(repo, c.pos));
            r.Collected? ==>
              && c'.pos <= VisibleLength(repo) && r.recs == Named(repo, c'.pos)
              && (Obliging(c.wire.script) ==> c'.pos == VisibleLength(repo))
    decreases |c.wire.script|
  {
    hide Collect, NextHeader;
    var next := CollectNext(repo, c);
    if next.Some? {
      CollectNamed(repo, next.value);
    }
  }

  lemma {:induction false} EntriesAppend(recs: seq<Record>, r: Record)
    ensures Entries(recs + [r])
         == Entries(recs) + if Supported(r.kind) then [Entry(r.id, r.kind, r.body)] else []
  {
    if recs == [] {
      assert recs + [r] == [r] && [r][1..] == [];
    } else {
      var last := if Supported(r.kind) then [Entry(r.id, r.kind, r.body)] else [];
      var first := if Supported(recs[0].kind) then [Entry(recs[0].id, recs[0].kind, recs[0].body)] else [];
      assert (recs + [r])[1..] == recs[1..] + [r] && (recs + [r])[0] == recs[0];
      EntriesAppend(recs[1..], r);
      Associate(first, Entries(recs[1..]), last);
    }
  }

  lemma {:induction false} NamedEntries(repo: seq<Record>, n: nat)
    requires n <= VisibleLength(repo)
    ensures Entries(Named(repo, n)) == Kept(repo, n, {})
  {
    if n > 0 {
      NamedEntries(repo, n - 1);
      NamedNext(repo, n - 1);
      EntriesAppend(Named(repo, n - 1), repo[n - 1].(id := Key(repo, n - 1)));
    }
  }

  /** Loading the dump of a repository with known versions gives the list a full cache would hold. */
  lemma LoadedScan(repo: seq<Record>)
    requires Repository(repo) && forall p :: 0 <= p < VisibleLength(repo) ==> KnownVersion(repo[p].version)
    ensures Load(Dump(Named(repo, VisibleLength(repo)))) == Loaded(Scan(repo, {}), 0)
  {
    var recs := Named(repo, VisibleLength(repo));
    LoadDumpWhole(recs);
    NamedEntries(repo, VisibleLength(repo));
  }

  /** After a load the iterator is at its end, so that every lookup is answered from the file alone,
      whatever the link does, and as a scan of the dumped repository would. */
  lemma LoadedAnswers(repo: seq<Record>, device: seq<Record>, op: Op, wire: Wire)
    requires Repository(repo) && forall p :: 0 <= p < VisibleLength(repo) ==> KnownVersion(repo[p].version)
    ensures var list := Load(Dump(Named(repo, VisibleLength(repo)))).list;
            Perform(device, op, Cache(list, Some(END), 0, {}, wire)).0 == Reference(repo, op)
  {
    LoadedScan(repo);
  }
}
