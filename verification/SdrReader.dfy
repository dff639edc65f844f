/**
 Reading one sensor data record over an unreliable link (sections 33.11 and 33.12 of the IPMI v2.0
 specification): the header fetch with its five tries, and the chunked body read that halves its
 request size when refused and renews its reservation when that is lost.
 */
module SdrReader {
  import opened Bytes

  datatype Record = Record(id: nat, version: byte, kind: byte, body: seq<byte>)

  const ENTIRE_RECORD := 255
  const HEADER := 5
  const TRIES := 5

  /** What becomes of one Get SDR request.  Cancelled is a lost reservation (0xc5) and whether the
      new one could be had; TooMany is 0xca. */
  datatype Event = Serve | Silent | Fail | Cancelled(renewed: bool) | TooMany

  /** `max` is the static sdr_max_read_len; `refused` lists the lengths answered with 0xca. */
  datatype Wire = Wire(max: nat, script: seq<Event>, refused: seq<nat>)

  function Rest(w: Wire): (r: Wire)
    requires w.script != []
  {
    w.(script := w.script[1..])
  }

  // ----- the header

  datatype HeaderResult = Got | Null | Waiting

  /** Five tries for a header.  `present`: the device has a record with the requested id.  A last
      try that was answered with an error decodes to length zero, which the code rejects. */
  function GetHeader(present: bool, tries: nat, w: Wire): (r: (HeaderResult, Wire))
    ensures r.0 == Got ==> present && |r.1.script| < |w.script|
    ensures r.1.max == w.max && r.1.refused == w.refused
    decreases tries
  {
    if tries == 0 then (Null, w)
    else if w.script == [] then (Waiting, w)
    else match w.script[0]
      case Serve => if present then (Got, Rest(w)) else GetHeader(present, tries - 1, Rest(w))
      case Cancelled(false) => (Null, Rest(w))
      case _ => GetHeader(present, tries - 1, Rest(w))
  }

  /** A try succeeded: a record is there, and a request is served in time and before a reservation
      is lost for good. */
  ghost predicate Reached(present: bool, tries: nat, script: seq<Event>) {
    present && exists k :: 0 <= k < tries && k < |script| && script[k] == Serve && Cancelled(false) !in script[..k]
  }

  lemma ReachedStep(present: bool, tries: nat, script: seq<Event>)
    requires tries > 0 && script != []
    ensures Reached(present, tries, script) <==>
            present && (script[0] == Serve
                        || (script[0] != Cancelled(false) && Reached(present, tries - 1, script[1..])))
  {
    var rest := script[1..];
    if present && script[0] == Serve {
      assert Cancelled(false) !in script[..0];
    } else if Reached(present, tries, script) {
      var k :| 0 <= k < tries && k < |script| && script[k] == Serve && Cancelled(false) !in script[..k];
      assert script[..k] == [script[0]] + rest[..k - 1] && rest[k - 1] == Serve;
    } else if Reached(present, tries - 1, rest) {
      var k :| 0 <= k < tries - 1 && k < |rest| && rest[k] == Serve && Cancelled(false) !in rest[..k];
      assert script[..k + 1] == [script[0]] + rest[..k] && script[k + 1] == Serve;
    }
  }

  /** The result of the fetch is decided by the first served request and the first reservation lost for
      good. */
  lemma {:induction false} HeaderOutcome(present: bool, tries: nat, w: Wire)
    ensures var h := GetHeader(present, tries, w).0;
            && (h == Got <==> Reached(present, tries, w.script))
            && (h == Waiting <==>
                 |w.script| < tries && Cancelled(false) !in w.script && (present ==> Serve !in w.script))
    decreases tries
  {
    if tries > 0 && w.script != [] {
      ReachedStep(present, tries, w.script);
      HeaderOutcome(present, tries - 1, Rest(w));
      assert w.script == [w.script[0]] + Rest(w).script;
    }
  }

  /** It takes no more events than its tries. */
  lemma {:induction false} HeaderTries(present: bool, tries: nat, w: Wire)
    ensures var script := GetHeader(present, tries, w).1.script;
            |w.script| - tries <= |script| <= |w.script| && script == w.script[|w.script| - |script|..]
    decreases tries
  {
    if tries > 0 && w.script != [] {
      HeaderTries(present, tries - 1, Rest(w));
    }
  }

  // ----- the body

  function Full(r: Record): (result: seq<byte>) {
    [r.id % 256, (r.id / 256) % 256, r.version, r.kind, |r.body| % 256] + r.body
  }

  /** `n` bytes of a record as the device serves them from `off`, padded past its end. */
  function Chunk(r: Record, off: nat, n: nat): (s: seq<byte>)
    ensures |s| == n
  {
    seq(n, i requires 0 <= i => if off + i < |Full(r)| then Full(r)[off + i] else 0)
  }

  datatype ReadResult = Body(bytes: seq<byte>) | NoBody | Undefined | Unfinished

  datatype Progress = Ends(result: ReadResult, w: Wire) | Goes(i: nat, data: seq<byte>, w: Wire)

  function RequestSize(rec: Record, i: nat, w: Wire): (r: nat)
    requires i < |rec.body|
  {
    if |rec.body| - i < w.max then |rec.body| - i else w.max
  }

  /** One exchange of the read loop at index `i` with `data` read.  The request carries its offset
      in one byte.  Undefined: the request size fell below zero. */
  function Exchange(rec: Record, i: nat, data: seq<byte>, w: Wire): (r: Progress)
    requires i < |rec.body| && w.script != []
  {
    var n := RequestSize(rec, i, w);
    match w.script[0]
    case Serve => Goes(i + w.max, data + Chunk(rec, (i + HEADER) % 256, n), Rest(w))
    case TooMany =>
      var next := Rest(w).(refused := w.refused + [n]);
      if w.max < 2 then Ends(Undefined, next) else Goes(i, data, next.(max := w.max / 2 - 1))
    case Cancelled(true) => Goes(i, data, Rest(w))
    case _ => Ends(NoBody, Rest(w))
  }

  function Read(rec: Record, i: nat, data: seq<byte>, w: Wire): (r: (ReadResult, Wire))
    ensures |r.1.script| <= |w.script|
    decreases |w.script|
  {
    if i >= |rec.body| then (Body(data), w)
    else if w.script == [] then (Unfinished, w)
    else match Exchange(rec, i, data, w)
      case Ends(r, next) => (r, next)
      case Goes(i', data', next) => Read(rec, i', data', next)
  }

  function GetRecord(rec: Record, w: Wire): (r: (ReadResult, Wire)) {
    if |rec.body| < 1 then (NoBody, w) else Read(rec, 0, [], w)
  }

  // ----- what a read returns

  /** The sizes the request goes through: 255, 126, 62, 30, 14, 6, 2, 0. */
  predicate IsSize(max: nat) {
    max in {255, 126, 62, 30, 14, 6, 2, 0}
  }

  const OFFSET_SAFE := 252

  lemma ChunkIsBody(rec: Record, i: nat, n: nat)
    requires i + n <= |rec.body| && i + HEADER < 256
    ensures Chunk(rec, (i + HEADER) % 256, n) == rec.body[i..i + n]
  {
    assert Full(rec)[HEADER..] == rec.body;
  }

  /** The body read so far at index `i`. */
  function Prefix(rec: Record, i: nat): (r: seq<byte>) {
    rec.body[..if i < |rec.body| then i else |rec.body|]
  }

  lemma PrefixGrows(rec: Record, i: nat, n: nat, max: nat)
    requires i < |rec.body| && n == if |rec.body| - i < max then |rec.body| - i else max
    ensures Prefix(rec, i) + rec.body[i..i + n] == Prefix(rec, i + max)
  {
  }

  lemma ExchangeExact(rec: Record, i: nat, w: Wire)
    requires i < |rec.body| <= OFFSET_SAFE && IsSize(w.max) && i % 2 == 0 && w.script != []
    ensures match Exchange(rec, i, Prefix(rec, i), w)
            case Goes(i', data, next) =>
              && data == Prefix(rec, i') && IsSize(next.max) && (i' % 2 == 0 || i' >= |rec.body|)
              && |next.script| < |w.script|
            case Ends(r, next) => !r.Body? && IsSize(next.max)
  {
    var n := RequestSize(rec, i, w);
    ChunkIsBody(rec, i, n);
    PrefixGrows(rec, i, n, w.max);
  }

  /** Under any pattern of refusals and lost reservations, a body that is returned is the record's,
      as long as its last chunk starts within reach of a one-byte offset. */
  lemma {:induction false} ReadExact(rec: Record, i: nat, w: Wire)
    requires |rec.body| <= OFFSET_SAFE && IsSize(w.max) && (i % 2 == 0 || i >= |rec.body|)
    ensures var (r, end) := Read(rec, i, Prefix(rec, i), w);
            (r.Body? ==> r.bytes == rec.body) && IsSize(end.max)
    decreases |w.script|
  {
    if i < |rec.body| && w.script != [] {
      ExchangeExact(rec, i, w);
      var turn := Exchange(rec, i, Prefix(rec, i), w);
      if turn.Goes? {
        ReadExact(rec, turn.i, turn.w);
      }
    }
  }

  predicate Exact(rec: Record, script: seq<Event>) {
    var (r, _) := GetRecord(rec, Wire(ENTIRE_RECORD, script, []));
    r.Body? ==> r.bytes == rec.body
  }

  /** One refusal is enough to spoil a longer record: its third chunk starts at 252, the offset
      wraps to 1, and header bytes come back instead. */
  lemma LongRecordMisread(rec: Record)
    requires OFFSET_SAFE < |rec.body| <= 255 && rec.body[252] != (rec.id / 256) % 256
    ensures !Exact(rec, [TooMany, Serve, Serve, Serve])
  {
    var len := |rec.body|;
    var a, b, c := Chunk(rec, 5, 126), Chunk(rec, 131, 126), Chunk(rec, 1, len - 252);
    var w0, w1 := Wire(255, [TooMany, Serve, Serve, Serve], []), Wire(126, [Serve, Serve, Serve], [len]);
    var w2, w3, w4 := Wire(126, [Serve, Serve], [len]), Wire(126, [Serve], [len]), Wire(126, [], [len]);
    assert w0.script[1..] == w1.script && w1.script[1..] == w2.script && w2.script[1..] == w3.script;
    assert [] + [len] == [len];
    assert Exchange(rec, 0, [], w0) == Goes(0, [], w1);
    assert Exchange(rec, 0, [], w1) == Goes(126, [] + a, w2);
    assert Exchange(rec, 126, [] + a, w2) == Goes(252, [] + a + b, w3);
    assert Exchange(rec, 252, [] + a + b, w3) == Goes(378, [] + a + b + c, w4);
    assert Read(rec, 252, [] + a + b, w3) == (Body([] + a + b + c), w4);
    assert Read(rec, 0, [], w1) == Read(rec, 126, [] + a, w2);
    assert ([] + a + b + c)[252] == c[0] == Full(rec)[1];
  }

  /** The longest record that every run reads back exactly has 252 body bytes. */
  lemma ReadCondition(len: nat)
    requires 1 <= len <= 255
    ensures (forall rec: Record, script :: |rec.body| == len ==> Exact(rec, script)) <==> len <= OFFSET_SAFE
  {
    if len <= OFFSET_SAFE {
      forall rec: Record, script | |rec.body| == len ensures Exact(rec, script) {
        ReadExact(rec, 0, Wire(ENTIRE_RECORD, script, []));
      }
    } else {
      var rec := Record(0, 0x51, 1, seq(len, _ => 1));
      LongRecordMisread(rec);
      assert |rec.body| == len && !Exact(rec, [TooMany, Serve, Serve, Serve]);
    }
  }

  // ----- how long a read takes

  function Rank(max: nat): (r: nat)
    requires IsSize(max)
  {
    if max == 255 then 7 else if max == 126 then 6 else if max == 62 then 5 else if max == 30 then 4
    else if max == 14 then 3 else if max == 6 then 2 else if max == 2 then 1 else 0
  }

  function Cancellations(script: seq<Event>): (r: nat) {
    if script == [] then 0 else (if script[0].Cancelled? then 1 else 0) + Cancellations(script[1..])
  }

  ghost predicate ShortReadsServed(refused: seq<nat>) {
    forall k :: 0 <= k < |refused| ==> refused[k] > 2
  }

  lemma {:induction false} RefusedGrows(rec: Record, i: nat, data: seq<byte>, w: Wire)
    ensures w.refused <= Read(rec, i, data, w).1.refused
    decreases |w.script|
  {
    if i < |rec.body| && w.script != [] {
      var turn := Exchange(rec, i, data, w);
      if turn.Goes? {
        RefusedGrows(rec, turn.i, turn.data, turn.w);
      }
    }
  }

  /** Exchanges a read may still need besides those that renew a reservation. */
  function Budget(rec: Record, i: nat, max: nat): (r: nat)
    requires IsSize(max)
  {
    Rank(max) + if i < |rec.body| then (|rec.body| - i + 1) / 2 else 0
  }

  /** If reads of one or two bytes are never refused, the request size stays at least 2, and apart
      from lost reservations a read ends within ceil(length / 2) + 7 exchanges. */
  lemma {:induction false} ReadEnds(rec: Record, i: nat, data: seq<byte>, w: Wire)
    requires IsSize(w.max) && w.max >= 2 && ShortReadsServed(Read(rec, i, data, w).1.refused)
    ensures var (r, end) := Read(rec, i, data, w);
            && end.max >= 2 && r != Undefined
            && (r == Unfinished ==> |w.script| < Cancellations(w.script) + Budget(rec, i, w.max))
    decreases |w.script|
  {
    if i < |rec.body| && w.script != [] {
      var turn := Exchange(rec, i, data, w);
      if turn.Goes? {
        RefusedGrows(rec, turn.i, turn.data, turn.w);
        if w.script[0] == TooMany {
          assert turn.w.refused[|w.refused|] == RequestSize(rec, i, w);
        }
        ReadEnds(rec, turn.i, turn.data, turn.w);
      }
    }
  }

  // ----- a link that serves in the end

  /** Refusals for length and reservations lost and renewed, but no other failure, and no five failures
      in a row, which are the tries for one header. */
  predicate Obliging(script: seq<Event>) {
    || script == []
    || (&& (script[0] == Serve || script[0] == TooMany || script[0] == Cancelled(true))
        && (|script| < TRIES || Serve in script[..TRIES])
        && Obliging(script[1..]))
  }

  function Serves(script: seq<Event>): (n: nat)
    ensures n <= |script|
  {
    if script == [] then 0 else (if script[0] == Serve then 1 else 0) + Serves(script[1..])
  }

  function Refusals(script: seq<Event>): (n: nat) {
    if script == [] then 0 else (if script[0] == TooMany then 1 else 0) + Refusals(script[1..])
  }

  /** A header costs one served request, and finding that there is none at most its tries; a header
      that is there is missed only after that many failures in a row. */
  lemma {:induction false} HeaderServed(present: bool, tries: nat, w: Wire)
    requires Obliging(w.script)
    ensures var (h, end) := GetHeader(present, tries, w);
            var cost := if present then 1 else tries;
            && Obliging(end.script) && Refusals(end.script) <= Refusals(w.script)
            && Serves(w.script) <= Serves(end.script) + cost
            && (h == Waiting ==> Serves(w.script) < cost)
            && (present && h == Null ==> tries <= |w.script| && Serve !in w.script[..tries])
    decreases tries
  {
    if tries > 0 && w.script != [] && !(present && w.script[0] == Serve) {
      HeaderServed(present, tries - 1, Rest(w));
      if |w.script| >= tries {
        assert w.script[..tries] == [w.script[0]] + Rest(w).script[..tries - 1];
      }
    }
  }

  lemma {:induction false} ReadServed(rec: Record, i: nat, data: seq<byte>, w: Wire)
    requires Obliging(w.script)
    ensures var (r, end) := Read(rec, i, data, w); Obliging(end.script) && r != NoBody
    decreases |w.script|
  {
    if i < |rec.body| && w.script != [] {
      var turn := Exchange(rec, i, data, w);
      if turn.Goes? {
        ReadServed(rec, turn.i, turn.data, turn.w);
      }
    }
  }

  /** The refusals to come leave requests of at least `m` bytes. */
  predicate Keeps(m: nat, w: Wire) {
    IsSize(m) && IsSize(w.max) && m >= 2 && Rank(m) + Refusals(w.script) <= Rank(w.max)
  }

  /** Requests of `m` bytes for `n` bytes. */
  function Pieces(n: int, m: nat): (r: nat)
    requires m > 0
    decreases n
  {
    if n <= 0 then 0 else 1 + Pieces(n - m, m)
  }

  lemma {:induction false} FewerPieces(n: int, k: int, m: nat)
    requires m > 0 && n <= k
    ensures Pieces(n, m) <= Pieces(k, m)
    decreases n
  {
    if n > 0 {
      FewerPieces(n - m, k - m, m);
    }
  }

  /** Enough service reads a record, whatever is refused or renewed in between. */
  lemma {:induction false} ReadCompletes(rec: Record, i: nat, data: seq<byte>, w: Wire, m: nat)
    requires Obliging(w.script) && Keeps(m, w) && Serves(w.script) >= Pieces(|rec.body| - i, m)
    ensures var (r, end) := Read(rec, i, data, w);
            r.Body? && Keeps(m, end) && Serves(w.script) <= Serves(end.script) + Pieces(|rec.body| - i, m)
    decreases |w.script|
  {
    if i < |rec.body| {
      var turn := Exchange(rec, i, data, w);
      FewerPieces(|rec.body| - i - w.max, |rec.body| - i - m, m);
      ReadCompletes(rec, turn.i, turn.data, turn.w, m);
    }
  }
}
