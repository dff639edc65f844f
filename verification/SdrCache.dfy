/**
 The lazily filled record cache of the sensor data repository: one global list, one iterator that
 fills it on demand, five lookups, the listing and the cache fill, all over the unreliable link of
 SdrReader.  The reference is a plain scan of the records up to the first with an empty body; when that is
 the whole repository is the subject of SdrScan.
 */
module SdrCache {
  import opened Bytes
  import opened SdrReader

  // ----- cached records and what the lookups compare

  datatype Entry = Entry(id: nat, kind: byte, body: seq<byte>)

  predicate Supported(kind: byte) {
    kind in {0x01, 0x02, 0x03, 0x08, 0x10, 0x11, 0x12}
  }

  predicate IsSensor(kind: byte) {
    kind in {0x01, 0x02, 0x03}
  }

  /** A field of the packed record structures; a record is followed by zeroed memory. */
  function Field(e: Entry, off: nat): (r: byte) {
    if off < |e.body| then e.body[off] else 0
  }

  function SensorType(e: Entry): (r: byte) {
    Field(e, if e.kind == 0x03 then 5 else 7)
  }

  function EntityOffset(kind: byte): (r: nat) {
    if IsSensor(kind) then 3 else if kind == 0x08 then 0 else 7
  }

  /** Where the id type/length byte is; the string follows it. */
  function IdOffset(kind: byte): (r: nat) {
    if kind == 0x01 then 42 else if kind == 0x02 then 26 else if kind == 0x03 then 11 else 10
  }

  /** strncmp(body + off, name, n) == 0, with both sides zero-terminated. */
  predicate SameText(e: Entry, off: nat, name: seq<byte>, n: nat)
    decreases n
  {
    n == 0 ||
    var c := if name == [] then 0 else name[0];
    Field(e, off) == c && (c == 0 || SameText(e, off + 1, name[1..], n - 1))
  }

  datatype Query =
    | ByNumType(num: byte, sensor: byte)
    | ById(name: seq<byte>)
    | BySensorType(sensor: byte)
    | ByEntity(entity: byte, instance: byte)
    | ByType(kind: byte)

  predicate Matches(q: Query, e: Entry) {
    match q
    case ByNumType(num, sensor) => IsSensor(e.kind) && Field(e, 2) == num && SensorType(e) == sensor
    case BySensorType(sensor) => IsSensor(e.kind) && SensorType(e) == sensor
    case ByType(kind) => e.kind == kind
    case ByEntity(entity, instance) =>
      var off := EntityOffset(e.kind);
      Supported(e.kind) && Field(e, off) == entity && (instance == 0x7f || Field(e, off + 1) % 128 == instance)
    case ById(name) =>
      var off := IdOffset(e.kind);
      var n := Field(e, off) % 32;
      Supported(e.kind) && e.kind != 0x08 && SameText(e, off + 1, name, if n > |name| then n else |name|)
  }

  function FirstMatch(list: seq<Entry>, q: Query): (r: Option<Entry>) {
    if list == [] then None else if Matches(q, list[0]) then Some(list[0]) else FirstMatch(list[1..], q)
  }

  function AllMatches(list: seq<Entry>, q: Query): (r: seq<Entry>) {
    if list == [] then []
    else AllMatches(list[..|list| - 1], q) + if Matches(q, list[|list| - 1]) then [list[|list| - 1]] else []
  }

  // ----- the repository

  const END := 0xffff

  /** Record ids are distinct, only the first may be zero, and 0xffff is the end mark; a body fits
      its length byte and the reach of the one-byte read offset. */
  ghost predicate Repository(repo: seq<Record>) {
    && (forall i, j :: 0 <= i < j < |repo| ==> repo[i].id != repo[j].id)
    && (forall i :: 0 <= i < |repo| ==> repo[i].id < END && |repo[i].body| <= OFFSET_SAFE)
    && (forall i :: 0 < i < |repo| ==> repo[i].id != 0)
  }

  /** The id under which the iterator asks for the record at position `p`. */
  function Key(repo: seq<Record>, p: nat): (r: nat)
    requires p <= |repo|
  {
    if p == 0 then 0 else if p == |repo| then END else repo[p].id
  }

  function FindId(repo: seq<Record>, id: nat): (r: Option<nat>) {
    if repo == [] then None
    else if repo[0].id == id then Some(0)
    else var rest := FindId(repo[1..], id); if rest == None then None else Some(rest.value + 1)
  }

  lemma {:induction false} FindIdBound(repo: seq<Record>, id: nat)
    ensures FindId(repo, id).Some? ==> FindId(repo, id).value < |repo| && repo[FindId(repo, id).value].id == id
    ensures FindId(repo, id).None? ==> forall i :: 0 <= i < |repo| ==> repo[i].id != id
  {
    if repo != [] {
      FindIdBound(repo[1..], id);
      assert forall i :: 0 < i < |repo| ==> repo[i] == repo[1..][i - 1];
    }
  }

  /** The device's own lookup: id 0 is the first record. */
  function Find(repo: seq<Record>, id: nat): (r: Option<nat>)
    ensures r.Some? ==> r.value < |repo|
  {
    FindIdBound(repo, id);
    if id == 0 && repo != [] then Some(0) else FindId(repo, id)
  }

  lemma FindKey(repo: seq<Record>, p: nat)
    requires Repository(repo) && p <= |repo|
    ensures Find(repo, Key(repo, p)) == if p < |repo| then Some(p) else None
  {
    FindIdBound(repo, Key(repo, p));
  }

  /** Records up to the first with an empty body, whose header the code rejects. */
  function VisibleLength(repo: seq<Record>): (n: nat)
    ensures n <= |repo|
    ensures forall i :: 0 <= i < n ==> repo[i].body != []
    ensures n < |repo| ==> repo[n].body == []
  {
    if repo == [] || repo[0].body == [] then 0 else 1 + VisibleLength(repo[1..])
  }

  /** What the record at position `p` contributes to the cache. */
  function Shown(repo: seq<Record>, p: nat): (r: seq<Entry>)
    requires p < |repo|
  {
    if Supported(repo[p].kind) then [Entry(Key(repo, p), repo[p].kind, repo[p].body)] else []
  }

  /** The plain scan: supported records of the first `n` positions, without those in `lost`. */
  function Kept(repo: seq<Record>, n: nat, lost: set<nat>): (r: seq<Entry>)
    requires n <= |repo|
  {
    if n == 0 then [] else
    var last := if n - 1 in lost then [] else Shown(repo, n - 1);
    Kept(repo, n - 1, lost) + last
  }

  function Scan(repo: seq<Record>, lost: set<nat>): (r: seq<Entry>) {
    Kept(repo, VisibleLength(repo), lost)
  }

  // ----- the cache and its iterator

  /** `itr` is the iterator's next id (None before it is ready).  `pos` and `lost` record which
      positions have been passed and which of those could not be read. */
  datatype Cache = Cache(list: seq<Entry>, itr: Option<nat>, pos: nat, lost: set<nat>, wire: Wire)

  datatype Header = Found(p: nat) | Stop | Wait

  /** ipmi_sdr_get_next_header. */
  function NextHeader(repo: seq<Record>, c: Cache): (r: (Header, Cache))
    requires c.itr.Some?
    ensures r.1.itr.Some? && (r.0.Found? ==> r.0.p < |repo| && |r.1.wire.script| < |c.wire.script|)
  {
    if c.itr.value == END then (Stop, c) else
    var p := Find(repo, c.itr.value);
    var (h, w) := GetHeader(p.Some?, TRIES, c.wire);
    if h == Waiting then (Wait, c.(wire := w))
    else if h == Null || repo[p.value].body == [] then (Stop, c.(wire := w))
    else (Found(p.value), c.(wire := w, itr := Some(Key(repo, p.value + 1)), pos := p.value + 1))
  }

  datatype Outcome = Hit(entry: Entry) | End | Broken | Pending

  /** The run is still inside a record, or its behaviour is undefined. */
  predicate Stuck(out: Outcome) {
    out == Broken || out == Pending
  }

  datatype Pass = Over(out: Outcome, c: Cache) | On(c: Cache)

  lemma ReadShortens(rec: Record, w: Wire)
    ensures |GetRecord(rec, w).1.script| <= |w.script|
  {
  }

  /** One turn of the "now keep looking" loop shared by lookups, listing and cache fill; with a
      query it stops at the first match. */
  function Turn(repo: seq<Record>, q: Option<Query>, c: Cache): (t: Pass)
    requires c.itr.Some?
    ensures t.c.itr.Some? && (t.On? ==> |t.c.wire.script| < |c.wire.script|)
  {
    var (h, c1) := NextHeader(repo, c);
    match h
    case Stop => Over(End, c1)
    case Wait => Over(Pending, c1)
    case Found(p) =>
      ReadShortens(repo[p], c1.wire);
      var (r, w) := GetRecord(repo[p], c1.wire);
      var c2 := c1.(wire := w);
      match r
      case Undefined => Over(Broken, c2)
      case Unfinished => Over(Pending, c2)
      case NoBody => On(c2.(lost := c2.lost + {p}))
      case Body(b) =>
        var e := Entry(c.itr.value, repo[p].kind, b);
        if !Supported(e.kind) then On(c2) else
        var c3 := c2.(list := c2.list + [e]);
        if q.Some? && Matches(q.value, e) then Over(Hit(e), c3) else On(c3)
  }

  function Fill(repo: seq<Record>, q: Option<Query>, c: Cache): (r: (Outcome, Cache))
    requires c.itr.Some?
    ensures r.1.itr.Some?
    decreases |c.wire.script|
  {
    match Turn(repo, q, c)
    case Over(out, c') => (out, c')
    case On(c') => Fill(repo, q, c')
  }

  /** Opening the iterator (ipmi_sdr_start) is one event. */
  function Open(c: Cache): (r: (Option<bool>, Cache)) {
    if c.itr.Some? then (Some(true), c)
    else if c.wire.script == [] then (None, c)
    else if c.wire.script[0] == Serve then (Some(true), c.(itr := Some(0), wire := Rest(c.wire)))
    else (Some(false), c.(wire := Rest(c.wire)))
  }

  datatype Op = First(q: Query) | All(q: Query) | FillAll

  /** Failed: the iterator could not be ready. */
  datatype Answer = One(result: Option<Entry>) | Many(results: seq<Entry>) | Filled | Failed | NoAnswer

  function Perform(repo: seq<Record>, op: Op, c: Cache): (r: (Answer, Cache)) {
    var (ready, c1) := Open(c);
    if ready == None then (NoAnswer, c1)
    else if !ready.value then (Failed, c1)
    else if op.First? && FirstMatch(c1.list, op.q).Some? then (One(FirstMatch(c1.list, op.q)), c1)
    else
      var (out, c2) := Fill(repo, if op.First? then Some(op.q) else None, c1);
      if Stuck(out) then (NoAnswer, c2)
      else match op
        case First(_) => (One(if out.Hit? then Some(out.entry) else None), c2)
        case All(q) => (Many(AllMatches(c2.list, q)), c2)
        case FillAll => (Filled, c2)
  }

  // ----- the cache is a prefix of the plain scan

  ghost predicate Valid(repo: seq<Record>, c: Cache) {
    && IsSize(c.wire.max)
    && c.pos <= VisibleLength(repo)
    && (forall p :: p in c.lost ==> p < c.pos)
    && c.list == Kept(repo, c.pos, c.lost)
    && (if c.itr.Some? then c.itr.value == Key(repo, c.pos) else c.pos == 0)
  }

  ghost predicate AtEnd(repo: seq<Record>, c: Cache) {
    c.pos == VisibleLength(repo)
  }

  lemma {:induction false} KeptLater(repo: seq<Record>, n: nat, lost: set<nat>, p: nat)
    requires n <= p < |repo|
    ensures Kept(repo, n, lost + {p}) == Kept(repo, n, lost)
  {
    if n > 0 {
      KeptLater(repo, n - 1, lost, p);
    }
  }

  lemma {:induction false} KeptPrefix(repo: seq<Record>, n: nat, m: nat, lost: set<nat>)
    requires n <= m <= |repo|
    ensures Kept(repo, n, lost) <= Kept(repo, m, lost)
  {
    if n < m {
      KeptPrefix(repo, n, m - 1, lost);
    }
  }

  lemma {:induction false} FirstMatchConcat(a: seq<Entry>, b: seq<Entry>, q: Query)
    ensures FirstMatch(a + b, q) == if FirstMatch(a, q).Some? then FirstMatch(a, q) else FirstMatch(b, q)
  {
    if a == [] {
      assert a + b == b;
    } else {
      assert (a + b)[1..] == a[1..] + b;
      FirstMatchConcat(a[1..], b, q);
    }
  }

  lemma {:induction false} AllMatchesConcat(a: seq<Entry>, b: seq<Entry>, q: Query)
    ensures AllMatches(a + b, q) == AllMatches(a, q) + AllMatches(b, q)
  {
    if b == [] {
      assert a + b == a;
    } else {
      assert (a + b)[..|a + b| - 1] == a + b[..|b| - 1];
      AllMatchesConcat(a, b[..|b| - 1], q);
    }
  }

  lemma NextHeaderValid(repo: seq<Record>, c: Cache)
    requires Repository(repo) && Valid(repo, c) && c.itr.Some?
    ensures var (h, c1) := NextHeader(repo, c);
            && IsSize(c1.wire.max) && c1.list == c.list && c1.lost == c.lost
            && (h.Found? ==> h.p == c.pos < VisibleLength(repo) && c1.pos == c.pos + 1)
            && (h.Found? ==> c1.itr.value == Key(repo, c1.pos))
            && (!h.Found? ==> Valid(repo, c1) && c1.pos == c.pos)
  {
    FindKey(repo, c.pos);
  }

  /** One record on: lost, or kept if it is of a supported type. */
  lemma AdvanceValid(repo: seq<Record>, c: Cache, c': Cache)
    requires Valid(repo, c) && c.pos < VisibleLength(repo) && c'.pos == c.pos + 1
    requires IsSize(c'.wire.max) && c'.itr == Some(Key(repo, c'.pos))
    requires || (c'.lost == c.lost + {c.pos} && c'.list == c.list)
             || (c'.lost == c.lost && c'.list == c.list + Shown(repo, c.pos))
    ensures Valid(repo, c')
  {
    KeptLater(repo, c.pos, c.lost, c.pos);
    assert c.list + [] == c.list;
  }

  lemma TurnValid(repo: seq<Record>, q: Option<Query>, c: Cache)
    requires Repository(repo) && Valid(repo, c) && c.itr.Some?
    requires q.Some? ==> FirstMatch(c.list, q.value) == None
    ensures var t := Turn(repo, q, c);
            && ((t.Over? && Stuck(t.out)) || Valid(repo, t.c))
            && (q.Some? ==> FirstMatch(t.c.list, q.value) == if t.Over? && t.out.Hit? then Some(t.out.entry) else None)
            && (q == None ==> t.Over? ==> !t.out.Hit?)
  {
    NextHeaderValid(repo, c);
    var (h, c1) := NextHeader(repo, c);
    if h.Found? {
      var rec := repo[h.p];
      var (r, w) := GetRecord(rec, c1.wire);
      ReadExact(rec, 0, c1.wire);
      var t := Turn(repo, q, c);
      if r == NoBody {
        assert t.c.lost == c.lost + {h.p};
        AdvanceValid(repo, c, t.c);
      } else if r.Body? {
        var e := Entry(c.itr.value, rec.kind, r.bytes);
        assert t.c.list == c.list + Shown(repo, h.p);
        AdvanceValid(repo, c, t.c);
        if q.Some? {
          FirstMatchConcat(c.list, [e], q.value);
        }
      }
    }
  }

  /** Filling keeps the cache a prefix of the plain scan; with a query it stops exactly at the
      first match. */
  lemma {:induction false} FillValid(repo: seq<Record>, q: Option<Query>, c: Cache)
    requires Repository(repo) && Valid(repo, c) && c.itr.Some?
    requires q.Some? ==> FirstMatch(c.list, q.value) == None
    ensures var (out, c') := Fill(repo, q, c);
            && (Stuck(out) || Valid(repo, c'))
            && (q.Some? ==> FirstMatch(c'.list, q.value) == if out.Hit? then Some(out.entry) else None)
            && (q == None ==> !out.Hit?)
    decreases |c.wire.script|
  {
    TurnValid(repo, q, c);
    var t := Turn(repo, q, c);
    if t.On? {
      FillValid(repo, q, t.c);
    }
  }

  // ----- answers agree with the plain scan

  /** What an answer says about the list it leaves, and about the scan of the repository without the
      records that were lost. */
  ghost predicate Agrees(repo: seq<Record>, op: Op, ans: Answer, c: Cache) {
    var scan := Scan(repo, c.lost);
    match ans
    case One(found) =>
      && op.First? && found == FirstMatch(c.list, op.q)
      && (found.Some? || AtEnd(repo, c) ==> found == FirstMatch(scan, op.q))
    case Many(s) =>
      && op.All? && s == AllMatches(c.list, op.q) && s <= AllMatches(scan, op.q)
      && (AtEnd(repo, c) ==> s == AllMatches(scan, op.q))
    case Filled => op.FillAll? && c.list <= scan && (AtEnd(repo, c) ==> c.list == scan)
    case _ => true
  }

  /** Answers taken from a prefix of the scan are answers of the scan. */
  lemma PrefixAnswers(repo: seq<Record>, c: Cache, q: Query)
    requires Valid(repo, c)
    ensures c.list <= Scan(repo, c.lost) && (AtEnd(repo, c) ==> c.list == Scan(repo, c.lost))
    ensures AllMatches(c.list, q) <= AllMatches(Scan(repo, c.lost), q)
    ensures FirstMatch(c.list, q).Some? ==> FirstMatch(Scan(repo, c.lost), q) == FirstMatch(c.list, q)
  {
    var scan := Scan(repo, c.lost);
    KeptPrefix(repo, c.pos, VisibleLength(repo), c.lost);
    assert scan == c.list + scan[|c.list|..];
    FirstMatchConcat(c.list, scan[|c.list|..], q);
    AllMatchesConcat(c.list, scan[|c.list|..], q);
  }

  lemma OpenValid(repo: seq<Record>, c: Cache)
    requires Valid(repo, c)
    ensures Valid(repo, Open(c).1) && Open(c).1.lost == c.lost
    ensures Open(c).0 == Some(true) ==> Open(c).1.itr.Some?
  {
  }

  lemma PerformAgrees(repo: seq<Record>, op: Op, c: Cache)
    requires Repository(repo) && Valid(repo, c)
    ensures var (ans, c') := Perform(repo, op, c);
            ans != NoAnswer ==> Valid(repo, c') && Agrees(repo, op, ans, c')
  {
    OpenValid(repo, c);
    var (ready, c1) := Open(c);
    if ready == Some(true) {
      var q := if op.FillAll? then ByType(0) else op.q;
      PrefixAnswers(repo, c1, q);
      if !(op.First? && FirstMatch(c1.list, op.q).Some?) {
        var want := if op.First? then Some(op.q) else None;
        FillValid(repo, want, c1);
        var (out, c2) := Fill(repo, want, c1);
        if !Stuck(out) {
          PrefixAnswers(repo, c2, q);
        }
      }
    }
  }

  // ----- whole runs

  /** The operations that complete, one after the other, each with the cache it leaves. */
  function Run(repo: seq<Record>, ops: seq<Op>, c: Cache): (r: seq<(Answer, Cache)>)
    ensures |r| <= |ops|
  {
    if ops == [] then [] else
    var step := Perform(repo, ops[0], c);
    if step.0 == NoAnswer then [] else [step] + Run(repo, ops[1..], step.1)
  }

  function Fresh(script: seq<Event>): (r: Cache) {
    Cache([], None, 0, {}, Wire(ENTIRE_RECORD, script, []))
  }

  /** Any interleaving of lookups, listings and fills, over any link: every answer agrees with one
      scan of the repository. */
  lemma {:induction false} RunAgrees(repo: seq<Record>, ops: seq<Op>, c: Cache)
    requires Repository(repo) && Valid(repo, c)
    ensures var run := Run(repo, ops, c);
            forall i :: 0 <= i < |run| ==> Valid(repo, run[i].1) && Agrees(repo, ops[i], run[i].0, run[i].1)
  {
    if ops != [] {
      PerformAgrees(repo, ops[0], c);
      var step := Perform(repo, ops[0], c);
      if step.0 != NoAnswer {
        RunAgrees(repo, ops[1..], step.1);
      }
    }
  }

  // ----- an obliging link

  lemma NextHeaderServed(repo: seq<Record>, c: Cache)
    requires Repository(repo) && Valid(repo, c) && c.itr.Some? && Obliging(c.wire.script)
    ensures var (h, c1) := NextHeader(repo, c);
            && Obliging(c1.wire.script) && c1.lost == c.lost
            && (h == Stop ==> AtEnd(repo, c1))
  {
    FindKey(repo, c.pos);
    HeaderServed(c.pos < |repo|, TRIES, c.wire);
  }

  lemma TurnServed(repo: seq<Record>, q: Option<Query>, c: Cache)
    requires Repository(repo) && Valid(repo, c) && c.itr.Some? && Obliging(c.wire.script)
    ensures var t := Turn(repo, q, c);
            && Obliging(t.c.wire.script) && t.c.lost == c.lost
            && (t.Over? && t.out == End ==> AtEnd(repo, t.c))
  {
    NextHeaderServed(repo, c);
    var (h, c1) := NextHeader(repo, c);
    if h.Found? {
      ReadServed(repo[h.p], 0, [], c1.wire);
    }
  }

  lemma {:induction false} FillServed(repo: seq<Record>, q: Option<Query>, c: Cache)
    requires Repository(repo) && Valid(repo, c) && c.itr.Some? && Obliging(c.wire.script)
    requires q.Some? ==> FirstMatch(c.list, q.value) == None
    ensures var (out, c') := Fill(repo, q, c);
            && Obliging(c'.wire.script) && c'.lost == c.lost
            && (out == End ==> AtEnd(repo, c'))
    decreases |c.wire.script|
  {
    TurnServed(repo, q, c);
    TurnValid(repo, q, c);
    var t := Turn(repo, q, c);
    if t.On? {
      FillServed(repo, q, t.c);
    }
  }

  /** The answer of a plain scan of the visible records. */
  function Reference(repo: seq<Record>, op: Op): (r: Answer) {
    match op
    case First(q) => One(FirstMatch(Scan(repo, {}), q))
    case All(q) => Many(AllMatches(Scan(repo, {}), q))
    case FillAll => Filled
  }

  /** The iterator is not open, and the first `n` requests fail. */
  predicate Unopened(c: Cache, n: nat) {
    c.itr.None? && n <= |c.wire.script| && Serve !in c.wire.script[..n]
  }

  lemma PerformServed(repo: seq<Record>, op: Op, c: Cache)
    requires Repository(repo) && Valid(repo, c) && c.lost == {} && Obliging(c.wire.script)
    ensures var (ans, c') := Perform(repo, op, c);
            && c'.lost == {} && Obliging(c'.wire.script)
            && (ans == NoAnswer || ans == Reference(repo, op)
                || (ans == Failed && Unopened(c, 1) && c' == c.(wire := Rest(c.wire))))
            && (ans != Failed && ans != NoAnswer ==> c'.itr.Some?)
  {
    OpenValid(repo, c);
    var (ready, c1) := Open(c);
    PerformAgrees(repo, op, c);
    assert Obliging(c1.wire.script);
    if ready == Some(true) && !(op.First? && FirstMatch(c1.list, op.q).Some?) {
      var want := if op.First? then Some(op.q) else None;
      FillServed(repo, want, c1);
      FillValid(repo, want, c1);
      var (out, c2) := Fill(repo, want, c1);
      assert out.End? ==> AtEnd(repo, c2);
    }
  }

  /** Operation `i` of a run from `c` gives the answer wanted, unless it is one of the first four and the
      requests to open the iterator have failed so far. */
  predicate Answered(ans: Answer, wanted: Answer, c: Cache, i: nat) {
    ans == wanted || (ans == Failed && i < TRIES - 1 && Unopened(c, i + 1))
  }

  lemma AnsweredLater(ans: Answer, wanted: Answer, c: Cache, i: nat)
    requires Obliging(c.wire.script) && Unopened(c, 1) && Answered(ans, wanted, c.(wire := Rest(c.wire)), i)
    ensures Answered(ans, wanted, c, i + 1)
  {
    if ans != wanted {
      var script := c.wire.script;
      assert script[..i + 2] == [script[0]] + script[1..][..i + 1];
    }
  }

  /** Over an obliging link every completed operation of every run gives the plain scan's answer,
      whatever ran before it; only the first four can fail, and only while the iterator cannot be
      opened. */
  lemma {:induction false} RunIsScan(repo: seq<Record>, ops: seq<Op>, c: Cache)
    requires Repository(repo) && Valid(repo, c) && c.lost == {} && Obliging(c.wire.script)
    ensures var run := Run(repo, ops, c);
            forall i :: 0 <= i < |run| ==> Answered(run[i].0, Reference(repo, ops[i]), c, i)
  {
    if ops != [] {
      PerformAgrees(repo, ops[0], c);
      PerformServed(repo, ops[0], c);
      var step := Perform(repo, ops[0], c);
      if step.0 != NoAnswer {
        RunIsScan(repo, ops[1..], step.1);
        var rest := Run(repo, ops[1..], step.1);
        forall i | 0 <= i < |rest| ensures Answered(rest[i].0, Reference(repo, ops[i + 1]), c, i + 1) {
          if step.0 == Failed {
            AnsweredLater(rest[i].0, Reference(repo, ops[i + 1]), c, i);
          }
        }
      }
    }
  }
}
