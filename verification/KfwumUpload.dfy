/**
 The Kontron firmware update agent in address mode: the start announcement with its padding,
 the block exchange that shrinks and resends, and the upload loop that clips blocks to pages
 and to the end of the file and rolls back one block after an error.

 The wire is one finite script of events; a run of the C program is a run over some script.
 */
module KfwumUpload {
  import opened Bytes

  const PAGE_SIZE := 256
  const SMALL_BUFFER: byte := 32
  const OVERHEAD: byte := 6
  const MAX_RETRY: byte := 6
  const NO_RESPONSE_LIMIT := 6
  const LENGTH_LIMIT := 0x100_0000   // addresses travel in three bytes; the file buffer is far smaller

  // ----- the device and the wire

  /** What becomes of one request: how many of its bytes are programmed, and the answer, if one
      arrives. */
  datatype Event = Silent(taken: nat) | Coded(cc: byte, taken: nat)

  datatype Reply = Silence | Code(cc: byte)

  /** `room`: the payload size the agent had configured when it built the request. */
  datatype Request = Request(address: nat, length: byte, room: byte)

  /** `honest`: every event so far was that of a device that keeps its word. */
  datatype Link = Link(flash: seq<byte>, script: seq<Event>, log: seq<Request>, honest: bool)

  /** A device that keeps its word answers 0 and 0x82 only for a block that its flash then holds. */
  predicate Truthful(flash: seq<byte>, at: nat, data: seq<byte>, e: Event) {
    e.Coded? && e.cc in {0, 0x82} ==> at + |data| <= |flash| && flash[at..at + |data|] == data
  }

  function ReplyOf(e: Event): (r: Reply) {
    if e.Silent? then Silence else Code(e.cc)
  }

  // ----- KfwumSaveFirmwareImage

  /** Undefined: the unsigned length wrapped below zero; Unfinished: the script ended first. */
  datatype Status = Ok | Error | Undefined | Unfinished

  /** The variables of the block loop: bytes still in the block, the once-only retry flag, and the
      requests that went unanswered over LAN. */
  datatype Try = Try(len: byte, retry: bool, silent: nat)

  datatype Decision = Settled(status: Status, len: byte) | Again(t: Try)

  function Shorter(t: Try): (r: Decision) {
    if t.len == 0 then Settled(Undefined, 0) else Again(t.(len := t.len - 1))
  }

  function Decide(lan: bool, seqNo: byte, t: Try, reply: Reply): (r: Decision) {
    match reply
    case Silence =>
      if !lan then Again(t)
      else if t.silent + 1 >= NO_RESPONSE_LIMIT then Settled(Ok, 0)
      else Shorter(t.(silent := t.silent + 1))
    case Code(cc) =>
      if cc == 0 || cc == 0x82 then Settled(Ok, t.len)
      else if cc == 0xc0 then Again(t)
      else if cc == 0xc7 || (cc == 0xc3 && seqNo == 0) then Shorter(t.(retry := true))
      else if cc == 0xcf || ((cc == 0x83 || cc == 0xc3) && !t.retry) then Again(t.(retry := true))
      else Settled(Error, t.len)
  }

  function Exchange(file: seq<byte>, at: nat, len: byte, room: byte, l: Link): (r: (Reply, Link))
    requires at + len <= |file| && l.script != []
    ensures r.1.script == l.script[1..] && r.1.log == l.log + [Request(at, len, room)]
    ensures r.1.honest ==> l.honest
  {
    var e, data, to := l.script[0], file[at..at + len], FromLe24(Le24(at));
    var flash := Store(l.flash, to, Take(data, e.taken));
    (ReplyOf(e), Link(flash, l.script[1..], l.log + [Request(at, len, room)], l.honest && Truthful(flash, to, data, e)))
  }

  /** One block: resend or shrink until the answer settles it.  Returns the length that remained. */
  function Save(file: seq<byte>, lan: bool, seqNo: byte, at: nat, room: byte, t: Try, l: Link)
    : (r: (Status, byte, Link))
    requires at + t.len <= |file|
    ensures r.0 == Unfinished || |r.2.script| < |l.script|
    ensures r.1 <= t.len && (r.2.honest ==> l.honest)
    decreases |l.script|
  {
    if l.script == [] then (Unfinished, t.len, l) else
    var (reply, next) := Exchange(file, at, t.len, room, l);
    match Decide(lan, seqNo, t, reply)
    case Settled(st, n) => (st, n, next)
    case Again(t') => Save(file, lan, seqNo, at, room, t', next)
  }

  // ----- KfwumUploadFirmware

  datatype Agent = Agent(address: nat, last: nat, seqNo: byte, retry: byte, bufferSize: byte)

  const START := Agent(0, 0, 0, MAX_RETRY, SMALL_BUFFER)

  function Room(u: Agent): (r: byte) {
    Minus(u.bufferSize, OVERHEAD)
  }

  /** The end of the file is looked at before the end of the page. */
  function WriteSize(total: nat, address: nat, room: byte): (n: byte)
    requires address <= total
    ensures n <= room && address + n <= total
  {
    if address + room > total then total - address
    else if address % PAGE_SIZE + room > PAGE_SIZE then PAGE_SIZE - address % PAGE_SIZE
    else room
  }

  /** The agent after one block came back with `st` and `len` bytes left of `size`. */
  function After(u: Agent, st: Status, size: byte, len: byte): (r: (Status, Agent))
    requires len <= size
  {
    if st == Error && u.retry != 0 then
      (Ok, u.(address := u.last, retry := u.retry - 1, seqNo := (u.seqNo + 1) % 256))
    else if len == 0 then (Error, u)
    else (st, Agent(u.address + len, u.address, if st == Ok then (u.seqNo + 1) % 256 else u.seqNo, MAX_RETRY,
                    Minus(u.bufferSize, size - len)))
  }

  /** One turn of the upload loop; the status it leaves is Ok when the loop may go on. */
  function Round(file: seq<byte>, lan: bool, u: Agent, l: Link): (r: (Status, Agent, Link))
    requires u.last <= u.address <= |file|
    ensures r.1.last <= r.1.address <= |file|
    ensures (r.0 == Unfinished || |r.2.script| < |l.script|) && (r.2.honest ==> l.honest)
  {
    var size := WriteSize(|file|, u.address, Room(u));
    var (st, len, next) := Save(file, lan, u.seqNo, u.address, Room(u), Try(size, false, 0), l);
    if st == Undefined || st == Unfinished then (st, u, next)
    else
      var (st', u') := After(u, st, size, len);
      (st', u', next)
  }

  function Upload(file: seq<byte>, lan: bool, u: Agent, l: Link): (r: (Status, Agent, Link))
    requires u.last <= u.address <= |file|
    ensures r.2.honest ==> l.honest
    decreases |l.script|
  {
    var (st, u', next) := Round(file, lan, u, l);
    if st == Ok && u'.address < |file| then Upload(file, lan, u', next) else (st, u', next)
  }

  // ----- the flash holds the file

  /** `flash` has the file up to `done`, the old contents `init` past its end, and one or the other
      in between. */
  ghost predicate Holds(flash: seq<byte>, file: seq<byte>, init: seq<byte>, done: nat) {
    && |flash| == |init| >= |file| >= done
    && (forall x :: 0 <= x < done ==> flash[x] == file[x])
    && (forall x :: |file| <= x < |flash| ==> flash[x] == init[x])
    && (forall x :: done <= x < |file| ==> flash[x] == file[x] || flash[x] == init[x])
  }

  /** Programming part of the file keeps what holds ... */
  lemma StoreHolds(file: seq<byte>, init: seq<byte>, done: nat, flash: seq<byte>, at: nat, n: nat)
    requires Holds(flash, file, init, done) && at + n <= |file|
    ensures Holds(Store(flash, at, file[at..at + n]), file, init, done)
  {
  }

  /** ... and a block that is there joins it. */
  lemma PresentHolds(file: seq<byte>, init: seq<byte>, flash: seq<byte>, at: nat, n: nat)
    requires Holds(flash, file, init, at) && at + n <= |file| && flash[at..at + n] == file[at..at + n]
    ensures Holds(flash, file, init, at + n)
  {
    forall x | at <= x < at + n ensures flash[x] == file[x] {
      assert flash[x] == flash[at..at + n][x - at];
    }
  }

  lemma ExchangeHolds(file: seq<byte>, init: seq<byte>, at: nat, len: byte, room: byte, l: Link)
    requires Holds(l.flash, file, init, at) && at + len <= |file| < LENGTH_LIMIT && l.script != []
    ensures var (reply, next) := Exchange(file, at, len, room, l);
            && Holds(next.flash, file, init, at)
            && (next.honest && reply in {Code(0), Code(0x82)} ==> Holds(next.flash, file, init, at + len))
  {
    Le24RoundTrip(at);
    var data, e := file[at..at + len], l.script[0];
    var k := |Take(data, e.taken)|;
    assert Take(data, e.taken) == file[at..at + k];
    StoreHolds(file, init, at, l.flash, at, k);
    var (reply, next) := Exchange(file, at, len, room, l);
    if next.honest && reply in {Code(0), Code(0x82)} {
      PresentHolds(file, init, next.flash, at, len);
    }
  }

  lemma {:induction false} SaveHolds(file: seq<byte>, lan: bool, seqNo: byte, at: nat, room: byte, t: Try, l: Link,
                                     init: seq<byte>)
    requires at + t.len <= |file| < LENGTH_LIMIT && Holds(l.flash, file, init, at)
    ensures var (st, n, next) := Save(file, lan, seqNo, at, room, t, l);
            && Holds(next.flash, file, init, at)
            && (next.honest && st == Ok && n > 0 ==> Holds(next.flash, file, init, at + n))
    decreases |l.script|
  {
    if l.script != [] {
      ExchangeHolds(file, init, at, t.len, room, l);
      var (reply, next) := Exchange(file, at, t.len, room, l);
      var d := Decide(lan, seqNo, t, reply);
      if d.Again? {
        SaveHolds(file, lan, seqNo, at, room, d.t, next, init);
      }
    }
  }

  ghost predicate AgentOk(u: Agent, total: nat) {
    u.last <= u.address <= total && u.bufferSize > OVERHEAD
  }

  lemma HoldsLess(flash: seq<byte>, file: seq<byte>, init: seq<byte>, done: nat, less: nat)
    requires Holds(flash, file, init, done) && less <= done
    ensures Holds(flash, file, init, less)
  {
  }

  lemma AfterOk(u: Agent, st: Status, total: nat, len: byte)
    requires AgentOk(u, total) && len <= WriteSize(total, u.address, Room(u))
    ensures AgentOk(After(u, st, WriteSize(total, u.address, Room(u)), len).1, total)
  {
  }

  lemma AfterHolds(u: Agent, st: Status, size: byte, len: byte, flash: seq<byte>, file: seq<byte>, init: seq<byte>)
    requires AgentOk(u, |file|) && size == WriteSize(|file|, u.address, Room(u)) && len <= size
    requires Holds(flash, file, init, u.address)
    requires st == Error || (st == Ok && (len > 0 ==> Holds(flash, file, init, u.address + len)))
    ensures var (st', u') := After(u, st, size, len);
            && AgentOk(u', |file|)
            && (st' == Ok ==> Holds(flash, file, init, u'.address))
  {
    AfterOk(u, st, |file|, len);
    var (st', u') := After(u, st, size, len);
    if st' == Ok && u'.address == u.last {
      HoldsLess(flash, file, init, u.address, u.last);
    }
  }

  lemma RoundHolds(file: seq<byte>, lan: bool, u: Agent, l: Link, init: seq<byte>)
    requires |file| < LENGTH_LIMIT && AgentOk(u, |file|) && Holds(l.flash, file, init, u.address)
    ensures var (st, u', next) := Round(file, lan, u, l);
            && AgentOk(u', |file|)
            && Holds(next.flash, file, init, 0)
            && (next.honest && st == Ok ==> Holds(next.flash, file, init, u'.address))
  {
    var size := WriteSize(|file|, u.address, Room(u));
    var t := Try(size, false, 0);
    SaveHolds(file, lan, u.seqNo, u.address, Room(u), t, l, init);
    var (st, len, next) := Save(file, lan, u.seqNo, u.address, Room(u), t, l);
    HoldsLess(next.flash, file, init, u.address, 0);
    if st == Ok || st == Error {
      AfterOk(u, st, |file|, len);
      if next.honest {
        AfterHolds(u, st, size, len, next.flash, file, init);
      }
    }
  }

  lemma {:induction false} SaveConfined(file: seq<byte>, lan: bool, seqNo: byte, at: nat, room: byte, t: Try, l: Link,
                                        init: seq<byte>)
    requires at + t.len <= |file| < LENGTH_LIMIT && Holds(l.flash, file, init, 0)
    ensures Holds(Save(file, lan, seqNo, at, room, t, l).2.flash, file, init, 0)
    decreases |l.script|
  {
    if l.script != [] {
      Le24RoundTrip(at);
      var data := file[at..at + t.len];
      var k := |Take(data, l.script[0].taken)|;
      assert Take(data, l.script[0].taken) == file[at..at + k];
      StoreHolds(file, init, 0, l.flash, at, k);
      var (reply, next) := Exchange(file, at, t.len, room, l);
      var d := Decide(lan, seqNo, t, reply);
      if d.Again? {
        SaveConfined(file, lan, seqNo, at, room, d.t, next, init);
      }
    }
  }

  lemma RoundOk(file: seq<byte>, lan: bool, u: Agent, l: Link)
    requires AgentOk(u, |file|)
    ensures AgentOk(Round(file, lan, u, l).1, |file|)
  {
    var size := WriteSize(|file|, u.address, Room(u));
    var (st, len, _) := Save(file, lan, u.seqNo, u.address, Room(u), Try(size, false, 0), l);
    AfterOk(u, st, |file|, len);
  }

  lemma RoundConfined(file: seq<byte>, lan: bool, u: Agent, l: Link, init: seq<byte>)
    requires |file| < LENGTH_LIMIT && AgentOk(u, |file|) && Holds(l.flash, file, init, 0)
    ensures var (st, u', next) := Round(file, lan, u, l); AgentOk(u', |file|) && Holds(next.flash, file, init, 0)
  {
    var t := Try(WriteSize(|file|, u.address, Room(u)), false, 0);
    SaveConfined(file, lan, u.seqNo, u.address, Room(u), t, l, init);
    RoundOk(file, lan, u, l);
  }

  /** Whatever the device answers, a run changes nothing past the end of the file and inside it
      nothing but to the file, and the payload size never drops to zero. */
  lemma {:induction false} UploadConfined(file: seq<byte>, lan: bool, u: Agent, l: Link, init: seq<byte>)
    requires |file| < LENGTH_LIMIT && AgentOk(u, |file|) && Holds(l.flash, file, init, 0)
    ensures var (_, u', end) := Upload(file, lan, u, l);
            Holds(end.flash, file, init, 0) && u'.bufferSize > OVERHEAD
    decreases |l.script|
  {
    RoundConfined(file, lan, u, l, init);
    var (st, u', next) := Round(file, lan, u, l);
    if st == Ok && u'.address < |file| {
      UploadConfined(file, lan, u', next, init);
    }
  }

  /** If the device keeps its word then, whatever is lost, repeated, refused, shrunk or rolled back, an
      upload that ends well leaves the file in flash. */
  lemma {:induction false} UploadDelivers(file: seq<byte>, lan: bool, u: Agent, l: Link, init: seq<byte>)
    requires |file| < LENGTH_LIMIT && AgentOk(u, |file|) && Holds(l.flash, file, init, u.address)
    ensures var (st, u', end) := Upload(file, lan, u, l);
            st == Ok && end.honest ==> Holds(end.flash, file, init, |file|)
    decreases |l.script|
  {
    RoundHolds(file, lan, u, l, init);
    var (st, u', next) := Round(file, lan, u, l);
    if st == Ok && next.honest && u'.address < |file| {
      UploadDelivers(file, lan, u', next, init);
    }
  }

  // ----- what the requests look like

  /** A request stays in the file, and crosses a page only when a full one would pass the end. */
  predicate Fits(r: Request, total: nat) {
    && r.address + r.length <= total
    && r.room >= 1
    && (r.address % PAGE_SIZE + r.length > PAGE_SIZE ==> r.address + r.room > total)
  }

  ghost predicate AllFit(log: seq<Request>, total: nat) {
    forall i :: 0 <= i < |log| ==> Fits(log[i], total)
  }

  lemma DecideShrinks(lan: bool, seqNo: byte, t: Try, reply: Reply)
    ensures var d := Decide(lan, seqNo, t, reply);
            (d.Again? ==> d.t.len <= t.len) && (d.Settled? && d.status == Undefined ==> t.len == 0)
  {
  }

  lemma LogFits(log: seq<Request>, r: Request, total: nat)
    requires AllFit(log, total) && Fits(r, total)
    ensures AllFit(log + [r], total)
  {
  }

  lemma ShorterFits(at: nat, len: byte, len': byte, room: byte, total: nat)
    requires Fits(Request(at, len, room), total) && len' <= len
    ensures Fits(Request(at, len', room), total)
  {
  }

  lemma {:induction false} SaveFits(file: seq<byte>, lan: bool, seqNo: byte, at: nat, room: byte, t: Try, l: Link)
    requires at + t.len <= |file| && AllFit(l.log, |file|) && Fits(Request(at, t.len, room), |file|)
    ensures var (st, _, next) := Save(file, lan, seqNo, at, room, t, l);
            && AllFit(next.log, |file|)
            && (st == Undefined ==> next.log != [] && next.log[|next.log| - 1].length == 0)
    decreases |l.script|
  {
    if l.script != [] {
      var (reply, next) := Exchange(file, at, t.len, room, l);
      var d := Decide(lan, seqNo, t, reply);
      LogFits(l.log, Request(at, t.len, room), |file|);
      DecideShrinks(lan, seqNo, t, reply);
      if d.Again? {
        ShorterFits(at, t.len, d.t.len, room, |file|);
        SaveFits(file, lan, seqNo, at, room, d.t, next);
      }
    }
  }

  lemma WriteSizeFits(total: nat, u: Agent)
    requires AgentOk(u, total)
    ensures Fits(Request(u.address, WriteSize(total, u.address, Room(u)), Room(u)), total)
  {
  }

  lemma RoundFits(file: seq<byte>, lan: bool, u: Agent, l: Link) returns (r: (Status, Agent, Link))
    requires AgentOk(u, |file|) && AllFit(l.log, |file|)
    ensures r == Round(file, lan, u, l)
    ensures AgentOk(r.1, |file|) && AllFit(r.2.log, |file|)
    ensures r.0 == Undefined ==> r.2.log != [] && r.2.log[|r.2.log| - 1].length == 0
  {
    WriteSizeFits(|file|, u);
    SaveFits(file, lan, u.seqNo, u.address, Room(u), Try(WriteSize(|file|, u.address, Room(u)), false, 0), l);
    RoundOk(file, lan, u, l);
    r := Round(file, lan, u, l);
  }

  /** Every request of every run fits, and the length underflows only after an empty block was sent
      and refused. */
  lemma {:induction false} UploadFits(file: seq<byte>, lan: bool, u: Agent, l: Link) returns (r: (Status, Agent, Link))
    requires AgentOk(u, |file|) && AllFit(l.log, |file|)
    ensures r == Upload(file, lan, u, l)
    ensures AllFit(r.2.log, |file|)
    ensures r.0 == Undefined ==> r.2.log != [] && r.2.log[|r.2.log| - 1].length == 0
    decreases |l.script|
  {
    r := RoundFits(file, lan, u, l);
    if r.0 == Ok && r.1.address < |file| {
      r := UploadFits(file, lan, r.1, r.2);
    }
  }

  // ----- the announcement

  function Padding(file: seq<byte>): (n: nat)
    ensures n < 0x1_0000
  {
    var m := Sum(file) % 0x1_0000;
    if m == 0 then 0 else 0x1_0000 - m
  }

  predicate Completes(s: seq<byte>, padding: nat) {
    (Sum(s) + padding) % 0x1_0000 == 0
  }

  lemma Complement(s: nat, p: nat)
    requires p == if s % 0x1_0000 == 0 then 0 else 0x1_0000 - s % 0x1_0000
    ensures (s + p) % 0x1_0000 == 0
  {
    assert s + p == 0x1_0000 * (s / 0x1_0000 + if p == 0 then 0 else 1);
  }

  lemma PaddingCompletes(file: seq<byte>)
    ensures Completes(file, Padding(file))
  {
    Complement(Sum(file), Padding(file));
  }

  /** The length and padding bytes of the start request. */
  function Announce(length: nat, padding: nat): (s: seq<byte>)
    ensures |s| == 5
  {
    Le24(length) + [padding % 256, (padding / 256) % 256]
  }

  function AnnouncedPadding(s: seq<byte>): (r: nat)
    requires |s| == 5
  {
    var (lo: int, hi: int) := (s[3], s[4]);
    lo + 256 * hi
  }

  lemma HoldsAll(flash: seq<byte>, file: seq<byte>, init: seq<byte>)
    requires Holds(flash, file, init, |file|)
    ensures flash == file + init[|file|..] && flash[..|file|] == file
  {
  }

  lemma AnnounceRoundTrip(length: nat, padding: nat)
    requires length < LENGTH_LIMIT && padding < 0x1_0000
    ensures FromLe24(Announce(length, padding)[..3]) == length
    ensures AnnouncedPadding(Announce(length, padding)) == padding
  {
    assert Announce(length, padding)[..3] == Le24(length);
    Le24RoundTrip(length);
  }

  lemma Downloaded(file: seq<byte>, lan: bool, l: Link) returns (r: (Status, Agent, Link))
    requires |file| < LENGTH_LIMIT && |l.flash| >= |file|
    ensures r == Upload(file, lan, START, l)
    ensures r.0 == Ok && r.2.honest ==> r.2.flash == file + l.flash[|file|..] && r.2.flash[..|file|] == file
  {
    UploadDelivers(file, lan, START, l, l.flash);
    r := Upload(file, lan, START, l);
    if r.0 == Ok && r.2.honest {
      HoldsAll(r.2.flash, file, l.flash);
    }
  }

  /** A device that follows the announcement finds what it was promised: the file, and over the
      announced length a byte sum that the announced padding completes to zero modulo 65536. */
  lemma DownloadChecksum(file: seq<byte>, lan: bool, l: Link) returns (r: (Status, Agent, Link))
    requires |file| < LENGTH_LIMIT && |l.flash| >= |file|
    ensures r == Upload(file, lan, START, l)
    ensures r.0 == Ok && r.2.honest ==> r.2.flash == file + l.flash[|file|..]
    ensures r.0 == Ok && r.2.honest ==> Completes(r.2.flash[..|file|], Padding(file))
  {
    r := Downloaded(file, lan, l);
    PaddingCompletes(file);
  }

  /** The start request carries the length and the padding. */
  lemma StartAnnounces(file: seq<byte>)
    requires |file| < LENGTH_LIMIT
    ensures FromLe24(Announce(|file|, Padding(file))[..3]) == |file|
    ensures AnnouncedPadding(Announce(|file|, Padding(file))) == Padding(file)
  {
    AnnounceRoundTrip(|file|, Padding(file));
  }

  // ----- an upload can succeed

  /** Requests acknowledged, with so many bytes of each programmed. */
  ghost predicate Acknowledging(script: seq<Event>, taken: nat) {
    forall i :: 0 <= i < |script| ==> script[i] == Coded(0, taken)
  }

  lemma AcknowledgedRound(file: seq<byte>, lan: bool, u: Agent, l: Link, taken: nat) returns (u': Agent, next: Link)
    requires AgentOk(u, |file|) && u.address < |file| && l.script != [] && l.script[0] == Coded(0, taken)
    ensures Round(file, lan, u, l) == (Ok, u', next)
    ensures AgentOk(u', |file|) && u'.address > u.address && next.script == l.script[1..]
    ensures taken == 0 ==> next.flash == l.flash
  {
    var size := WriteSize(|file|, u.address, Room(u));
    next := Exchange(file, u.address, size, Room(u), l).1;
    assert Save(file, lan, u.seqNo, u.address, Room(u), Try(size, false, 0), l) == (Ok, size, next);
    u' := After(u, Ok, size, size).1;
    if taken == 0 {
      NothingStored(l.flash, FromLe24(Le24(u.address)), Take(file[u.address..u.address + size], taken));
    }
  }

  /** If every request is acknowledged, as many events as bytes are enough; and a device that programs
      nothing gets the agent through as well. */
  lemma {:induction false} AcknowledgedUploadCompletes(file: seq<byte>, lan: bool, u: Agent, l: Link, taken: nat)
    requires AgentOk(u, |file|) && u.address < |file| && |l.script| >= |file| - u.address
    requires Acknowledging(l.script, taken)
    ensures Upload(file, lan, u, l).0 == Ok && (taken == 0 ==> Upload(file, lan, u, l).2.flash == l.flash)
    decreases |l.script|
  {
    var u', next := AcknowledgedRound(file, lan, u, l, taken);
    if u'.address < |file| {
      AcknowledgedUploadCompletes(file, lan, u', next, taken);
    }
  }

  /** An upload by a run that ends well leaves the file in flash. */
  ghost predicate Delivers(file: seq<byte>, lan: bool, flash: seq<byte>, script: seq<Event>)
    requires |flash| >= |file|
  {
    var (st, _, end) := Upload(file, lan, START, Link(flash, script, [], true));
    st == Ok ==> end.flash == file + flash[|file|..]
  }

  /** Bytes that can only turn into the file's stay what they are if they are the file's. */
  lemma NothingElse(flash: seq<byte>, file: seq<byte>, init: seq<byte>)
    requires Holds(flash, file, init, 0) && init[..|file|] == file
    ensures flash == init
  {
    forall x | 0 <= x < |file| ensures flash[x] == init[x] {
      assert init[x] == init[..|file|][x];
    }
  }

  /** Exactly when that needs no trust in the device: if the flash holds the file already. */
  lemma TrustCondition(file: seq<byte>, lan: bool, flash: seq<byte>)
    requires |file| < LENGTH_LIMIT && |flash| >= |file|
    ensures (forall script :: Delivers(file, lan, flash, script)) <==> flash[..|file|] == file
  {
    if flash[..|file|] == file {
      forall script ensures Delivers(file, lan, flash, script) {
        var l := Link(flash, script, [], true);
        UploadConfined(file, lan, START, l, flash);
        assert flash == file + flash[|file|..];
        NothingElse(Upload(file, lan, START, l).2.flash, file, flash);
      }
    } else {
      var script: seq<Event> := seq(|file|, _ => Coded(0, 0));
      AcknowledgedUploadCompletes(file, lan, START, Link(flash, script, [], true), 0);
      assert (file + flash[|file|..])[..|file|] == file;
      assert !Delivers(file, lan, flash, script);
    }
  }
}
