/**
 The upload stage of the HPM.1 firmware upgrade agent (section 3.3 of the IPM Controller
 Firmware Upgrade Specification, draft 0.9): the block loop with its shrinking buffer, and the
 resend loop underneath, against a target that numbers blocks modulo 256.

 Everything the wire can do is one finite script of events, true or not.  The functions below are
 the agent's loops as functions of the script; class UpgradeAgent runs them in place.
 */
module HpmUpload {
  import opened Bytes

  // ----- the target and the wire

  datatype Block = Block(num: byte, data: seq<byte>)

  /** What becomes of one request: whether the target takes the block, what it answers if the answer
      arrives, and whether the agent's time-out counter has run out when it looks. */
  datatype Event =
    | Lost(taken: bool, expired: bool)
    | Coded(cc: byte, taken: bool, expired: bool)

  datatype Reply = Silence | Code(cc: byte) | Pending

  /** `taken`: the blocks the target took since the last Finish; `resized`: the static errorCount of
      the LAN workaround; `honest`: every event so far was that of a target that keeps its word. */
  datatype Link = Link(taken: seq<Block>, script: seq<Event>, resized: nat, honest: bool)

  const LAN_RESIZE_LIMIT := 6

  /** A target that keeps its word expects block |taken| modulo 256 and takes no other; it answers 0,
      0x80 and 0xcc only for a block it holds, and 0xc7 only for the next one, which it then leaves. */
  predicate Truthful(taken: seq<Block>, num: byte, e: Event) {
    var isNext := num == |taken| % 256;
    && (e.taken ==> isNext)
    && (e.Coded? && e.cc in {0, 0x80, 0xcc} ==> e.taken || !isNext)
    && (e.Coded? && e.cc == 0xc7 ==> isNext && !e.taken)
  }

  function Receive(num: byte, data: seq<byte>, l: Link): (next: Link)
    requires l.script != []
    ensures next.script == l.script[1..] && next.resized == l.resized && (next.honest ==> l.honest)
  {
    var e := l.script[0];
    Link(if e.taken then l.taken + [Block(num, data)] else l.taken, l.script[1..], l.resized,
         l.honest && Truthful(l.taken, num, e))
  }

  function ReplyOf(e: Event): (r: Reply) {
    if e.Lost? then Silence else Code(e.cc)
  }

  predicate Resends(r: Reply) {
    r == Silence || r == Code(0xff) || r == Code(0xc3) || r == Code(0xc0)
  }

  /** HpmfwupgSendCmd for one block: resend until an answer that settles it. */
  function SendCmd(lan: bool, num: byte, data: seq<byte>, l: Link): (r: (Reply, Link))
    ensures r.0 == Pending || |r.1.script| < |l.script|
    ensures r.1.honest ==> l.honest
    decreases |l.script|
  {
    if l.script == [] then (Pending, l) else
    var e := l.script[0];
    var next := Receive(num, data, l);
    var reply := ReplyOf(e);
    if reply == Silence && lan && l.resized < LAN_RESIZE_LIMIT then
      (Code(0xc7), next.(resized := l.resized + 1))
    else if Resends(reply) && !e.expired then SendCmd(lan, num, data, next)
    else (reply, next)
  }

  /** Any other command (and the polling of a long one) is one event: did it succeed in the end? */
  function Command(l: Link): (r: (Option<bool>, Link))
    ensures r.0.Some? ==> |r.1.script| < |l.script|
    ensures r.1.honest == l.honest && r.1.taken == l.taken
  {
    if l.script == [] then (None, l)
    else (Some(ReplyOf(l.script[0]) == Code(0)), l.(script := l.script[1..]))
  }

  // ----- the block loop

  datatype BlockResult = Sent | LengthError | Error | Waiting

  function UploadBlock(lan: bool, num: byte, data: seq<byte>, l: Link): (r: (BlockResult, Link))
    ensures r.0 == Waiting || |r.1.script| < |l.script|
    ensures r.1.honest ==> l.honest
  {
    var (reply, next) := SendCmd(lan, num, data, l);
    match reply
    case Pending => (Waiting, next)
    case Silence => (Error, next)
    case Code(cc) =>
      if cc == 0x80 then
        var (ok, after) := Command(next);
        (if ok == None then Waiting else if ok.value then Sent else Error, after)
      else (if cc == 0 || cc == 0xcc then Sent else if cc == 0xc7 then LengthError else Error, next)
  }

  /** How a run ends.  Undefined: the C code's unsigned length wrapped below zero or a pointer ran
      past the image; Unfinished: the script ended first. */
  datatype Verdict = Done | Failed | Undefined | Unfinished

  function BlockSize(fw: seq<byte>, sent: nat, size: byte): (n: nat)
    requires sent <= |fw|
    ensures sent + n <= |fw| && n <= size
  {
    if sent + size <= |fw| then size else |fw| - sent
  }

  type Sender = (byte, seq<byte>, Link) -> (BlockResult, Link)

  /** Every exchange that settles a block takes something off the script, and none mends a broken
      word. */
  ghost predicate Consumes(send: Sender) {
    && (forall num, data, l: Link :: send(num, data, l).0 == Waiting || |send(num, data, l).1.script| < |l.script|)
    && (forall num, data, l: Link :: send(num, data, l).1.honest ==> l.honest)
  }

  function Sending(lan: bool): (send: Sender)
    ensures Consumes(send)
  {
    (num: byte, data: seq<byte>, l: Link) => UploadBlock(lan, num, data, l)
  }

  /** The loop over one firmware: `sent` bytes done, `size` the buffer length, `num` the next block. */
  function Upload(send: Sender, fw: seq<byte>, sent: nat, size: byte, num: byte, l: Link): (r: (Verdict, Link))
    requires sent <= |fw| && Consumes(send)
    ensures r.1.honest ==> l.honest
    decreases |l.script|
  {
    if sent == |fw| then (Done, l) else
    var n := BlockSize(fw, sent, size);
    var (rc, next) := send(num, fw[sent..sent + n], l);
    match rc
    case Waiting => (Unfinished, next)
    case Error => (Failed, next)
    case Sent => Upload(send, fw, sent + n, size, (num + 1) % 256, next)
    case LengthError =>
      if size == 0 then (Undefined, next) else Upload(send, fw, sent, size - 1, num, next)
  }

  /** One round of the block loop: what it makes of an exchange that gave `rc` and `next`. */
  ghost predicate Goes(fw: seq<byte>, sent: nat, size: byte, num: byte, rc: BlockResult,
                       v: Verdict, sent': nat, size': byte, num': byte)
    requires sent <= |fw|
  {
    match rc
    case Waiting => v == Unfinished
    case Error => v == Failed
    case Sent => v == Done && sent' == sent + BlockSize(fw, sent, size) && size' == size && num' == (num + 1) % 256
    case LengthError =>
      if size == 0 then v == Undefined else v == Done && sent' == sent && size' == size - 1 && num' == num
  }

  lemma UploadStep(send: Sender, fw: seq<byte>, sent: nat, size: byte, num: byte, l: Link, rc: BlockResult, next: Link,
                   v: Verdict, sent': nat, size': byte, num': byte)
    requires sent < |fw| && sent' <= |fw| && Consumes(send) && Goes(fw, sent, size, num, rc, v, sent', size', num')
    requires send(num, fw[sent..sent + BlockSize(fw, sent, size)], l) == (rc, next)
    ensures v == Done ==> Upload(send, fw, sent', size', num', next) == Upload(send, fw, sent, size, num, l)
    ensures v != Done ==> (v, next) == Upload(send, fw, sent, size, num, l)
  {
  }

  ghost predicate Follows(send: Sender, lan: bool) {
    forall num, data, l: Link :: send(num, data, l) == UploadBlock(lan, num, data, l)
  }

  // ----- what the target holds

  /** The bytes of the blocks taken. */
  function Content(taken: seq<Block>): (bytes: seq<byte>) {
    if taken == [] then [] else Content(taken[..|taken| - 1]) + taken[|taken| - 1].data
  }

  lemma ContentAppend(taken: seq<Block>, b: Block)
    ensures Content(taken + [b]) == Content(taken) + b.data
  {
    assert (taken + [b])[..|taken|] == taken;
  }

  /** Blocks numbered 0, 1, 2, ... modulo 256. */
  ghost predicate Numbered(taken: seq<Block>) {
    forall i :: 0 <= i < |taken| ==> taken[i].num == i % 256
  }

  // ----- exactly-once delivery of one firmware

  /** With a target that keeps its word an exchange leaves the block taken once or not at all; without
      the LAN workaround the answer the agent acts on tells which. */
  lemma {:induction false} SendCmdExact(lan: bool, num: byte, data: seq<byte>, l: Link, before: seq<Block>)
    requires num == |before| % 256
    requires l.taken == before || l.taken == before + [Block(num, data)]
    ensures var (reply, next) := SendCmd(lan, num, data, l);
            var after := before + [Block(num, data)];
            next.honest ==>
              && (next.taken == before || next.taken == after)
              && (reply in {Code(0), Code(0x80), Code(0xcc)} ==> next.taken == after)
              && (reply == Code(0xc7) && !lan ==> next.taken == before)
    decreases |l.script|
  {
    if l.script != [] {
      var e := l.script[0];
      var next := Receive(num, data, l);
      var reply := ReplyOf(e);
      if Resends(reply) && !e.expired && next.honest {
        SendCmdExact(lan, num, data, next, before);
      }
    }
  }

  lemma UploadBlockExact(lan: bool, num: byte, data: seq<byte>, l: Link, before: seq<Block>)
    requires num == |before| % 256
    requires l.taken == before || l.taken == before + [Block(num, data)]
    ensures var (rc, next) := UploadBlock(lan, num, data, l);
            var after := before + [Block(num, data)];
            next.honest ==>
              && (next.taken == before || next.taken == after)
              && (rc == Sent ==> next.taken == after)
              && (rc == LengthError && !lan ==> next.taken == before)
  {
    SendCmdExact(lan, num, data, l, before);
  }

  lemma NextNumber(num: byte, n: nat)
    requires num == n % 256
    ensures (num + 1) % 256 == (n + 1) % 256
  {
  }

  lemma NextContent(fw: seq<byte>, sent: nat, n: nat, taken: seq<Block>, num: byte)
    requires sent + n <= |fw| && Content(taken) == fw[..sent]
    ensures Content(taken + [Block(num, fw[sent..sent + n])]) == fw[..sent + n]
  {
    ContentAppend(taken, Block(num, fw[sent..sent + n]));
  }

  /** A sender whose "sent" means that the target took the block, once ... */
  ghost predicate Delivering(send: Sender) {
    forall num, data, l: Link ::
      num == |l.taken| % 256 && send(num, data, l).1.honest && send(num, data, l).0 == Sent ==>
        send(num, data, l).1.taken == l.taken + [Block(num, data)]
  }

  /** ... and whose length error means that it did not. */
  ghost predicate Exact(send: Sender) {
    && Delivering(send)
    && (forall num, data, l: Link ::
          num == |l.taken| % 256 && send(num, data, l).1.honest && send(num, data, l).0 == LengthError ==>
            send(num, data, l).1.taken == l.taken)
  }

  lemma SendingDelivers(lan: bool)
    ensures Delivering(Sending(lan)) && (!lan ==> Exact(Sending(lan)))
  {
    var send := Sending(lan);
    forall num, data, l: Link | num == |l.taken| % 256 && send(num, data, l).1.honest
      ensures send(num, data, l).0 == Sent ==> send(num, data, l).1.taken == l.taken + [Block(num, data)]
      ensures send(num, data, l).0 == LengthError && !lan ==> send(num, data, l).1.taken == l.taken
    {
      UploadBlockExact(lan, num, data, l, l.taken);
    }
  }

  /** The first `sent` bytes have been taken in numbered blocks, and `num` is the next. */
  ghost predicate Holding(taken: seq<Block>, fw: seq<byte>, sent: nat, num: byte) {
    sent <= |fw| && Content(taken) == fw[..sent] && Numbered(taken) && num == |taken| % 256
  }

  lemma HoldingNext(taken: seq<Block>, fw: seq<byte>, sent: nat, num: byte, n: nat)
    requires Holding(taken, fw, sent, num) && sent + n <= |fw|
    ensures Holding(taken + [Block(num, fw[sent..sent + n])], fw, sent + n, (num + 1) % 256)
  {
    NextContent(fw, sent, n, taken, num);
    NextNumber(num, |taken|);
  }

  lemma {:induction false} ExactUpload(send: Sender, fw: seq<byte>, sent: nat, size: byte, num: byte, l: Link)
    requires Consumes(send) && Exact(send) && Holding(l.taken, fw, sent, num)
    ensures var (v, end) := Upload(send, fw, sent, size, num, l);
            v == Done && end.honest ==> Content(end.taken) == fw && Numbered(end.taken)
    decreases |l.script|
  {
    hide Content, Numbered;
    if sent == |fw| {
      assert fw[..sent] == fw;
    } else {
      var n := BlockSize(fw, sent, size);
      var (rc, next) := send(num, fw[sent..sent + n], l);
      if next.honest && rc == Sent {
        HoldingNext(l.taken, fw, sent, num, n);
        ExactUpload(send, fw, sent + n, size, (num + 1) % 256, next);
      } else if next.honest && rc == LengthError && size > 0 {
        ExactUpload(send, fw, sent, size - 1, num, next);
      }
    }
  }

  /** On a non-LAN interface, whatever is lost, repeated, refused or shrunk, an upload that ends well
      has delivered the firmware exactly, in blocks numbered 0, 1, 2, ... modulo 256, if the target
      kept its word. */
  lemma UploadExact(fw: seq<byte>, size: byte, l: Link)
    requires l.taken == []
    ensures var (v, end) := Upload(Sending(false), fw, 0, size, 0, l);
            v == Done && end.honest ==> Content(end.taken) == fw && Numbered(end.taken)
  {
    SendingDelivers(false);
    ExactUpload(Sending(false), fw, 0, size, 0, l);
  }

  // ----- scripts

  const ANSWERED := Coded(0, true, false)
  const KNOWN := Coded(0xcc, false, false)
  const REFUSED := Coded(0xc7, false, false)
  const REPLY_LOST := Lost(true, false)

  function Start(script: seq<Event>): (l: Link) {
    Link([], script, 0, true)
  }

  predicate Delivers(fw: seq<byte>, lan: bool, size: byte, script: seq<Event>) {
    var (v, l) := Upload(Sending(lan), fw, 0, size, 0, Start(script));
    v == Done ==> Content(l.taken) == fw
  }

  /** The target keeps its word throughout the run. */
  predicate Honest(fw: seq<byte>, lan: bool, size: byte, script: seq<Event>) {
    Upload(Sending(lan), fw, 0, size, 0, Start(script)).1.honest
  }

  function Repeat(e: Event, n: nat): (s: seq<Event>)
    ensures |s| == n
    ensures forall i :: 0 <= i < n ==> s[i] == e
  {
    seq(n, _ => e)
  }

  ghost predicate All(e: Event, script: seq<Event>) {
    forall i :: 0 <= i < |script| ==> script[i] == e
  }

  /** A sender that takes an answered block for sent and a refused one for too long. */
  ghost predicate Plain(send: Sender) {
    && (forall num, data, l: Link {:trigger send(num, data, l)} ::
          l.script != [] && l.script[0] == ANSWERED && num == |l.taken| % 256 ==>
            send(num, data, l) == (Sent, Link(l.taken + [Block(num, data)], l.script[1..], l.resized, l.honest)))
    && (forall num, data, l: Link {:trigger send(num, data, l)} :: l.script != [] && l.script[0] == KNOWN ==>
          send(num, data, l) == (Sent, Link(l.taken, l.script[1..], l.resized, l.honest && num != |l.taken| % 256)))
    && (forall num, data, l: Link {:trigger send(num, data, l)} ::
          l.script != [] && l.script[0] == REFUSED && num == |l.taken| % 256 ==>
            send(num, data, l) == (LengthError, l.(script := l.script[1..])))
  }

  lemma SendingPlain(lan: bool)
    ensures Plain(Sending(lan))
  {
    var send := Sending(lan);
    forall num, data, l: Link | l.script != [] && l.script[0] in {ANSWERED, KNOWN, REFUSED}
      ensures send(num, data, l) == (if l.script[0] == REFUSED then LengthError else Sent, Receive(num, data, l))
    {
      assert SendCmd(lan, num, data, l) == (Code(l.script[0].cc), Receive(num, data, l));
    }
  }

  lemma RestOf(fw: seq<byte>, sent: nat, n: nat, taken: seq<Block>, num: byte)
    requires sent + n <= |fw|
    ensures Content(taken + [Block(num, fw[sent..sent + n])]) + fw[sent + n..] == Content(taken) + fw[sent..]
  {
    ContentAppend(taken, Block(num, fw[sent..sent + n]));
    assert fw[sent..sent + n] + fw[sent + n..] == fw[sent..];
  }

  /** If every request is answered the upload completes with what is left of the firmware. */
  lemma {:induction false} AnsweredUploadCompletes(send: Sender, fw: seq<byte>, sent: nat, size: byte, num: byte,
                                                   l: Link)
    requires Consumes(send) && Plain(send)
    requires sent <= |fw| && 0 < size && num == |l.taken| % 256
    requires |l.script| >= |fw| - sent && All(ANSWERED, l.script)
    ensures var (v, end) := Upload(send, fw, sent, size, num, l);
            v == Done && end.honest == l.honest && Content(end.taken) == Content(l.taken) + fw[sent..]
    decreases |fw| - sent
  {
    hide Content;
    if sent < |fw| {
      var n := BlockSize(fw, sent, size);
      var next := Link(l.taken + [Block(num, fw[sent..sent + n])], l.script[1..], l.resized, l.honest);
      assert send(num, fw[sent..sent + n], l) == (Sent, next);
      NextNumber(num, |l.taken|);
      AnsweredUploadCompletes(send, fw, sent + n, size, (num + 1) % 256, next);
      RestOf(fw, sent, n, l.taken, num);
    }
  }

  /** A target that answers 0xcc to everything gets the agent through without taking a byte. */
  lemma {:induction false} KnownUploadCompletes(send: Sender, fw: seq<byte>, sent: nat, size: byte, num: byte, l: Link)
    requires Consumes(send) && Plain(send)
    requires sent <= |fw| && 0 < size && |l.script| >= |fw| - sent && All(KNOWN, l.script)
    ensures var (v, end) := Upload(send, fw, sent, size, num, l); v == Done && end.taken == l.taken
    decreases |fw| - sent
  {
    if sent < |fw| {
      var n := BlockSize(fw, sent, size);
      var (rc, next) := send(num, fw[sent..sent + n], l);
      KnownUploadCompletes(send, fw, sent + n, size, (num + 1) % 256, next);
    }
  }

  /** A buffer of zero bytes never gets a firmware through. */
  lemma {:induction false} EmptyBlocksNeverFinish(send: Sender, fw: seq<byte>, sent: nat, num: byte, l: Link)
    requires Consumes(send) && sent < |fw|
    ensures Upload(send, fw, sent, 0, num, l).0 != Done
    decreases |l.script|
  {
    var (rc, next) := send(num, fw[sent..sent], l);
    if rc == Sent {
      EmptyBlocksNeverFinish(send, fw, sent, (num + 1) % 256, next);
    }
  }

  /** Exactly when delivery needs no trust in the target: if there is nothing to send, or no buffer to
      send it from. */
  lemma TrustCondition(fw: seq<byte>, lan: bool, size: byte)
    ensures (forall script :: Delivers(fw, lan, size, script)) <==> fw == [] || size == 0
  {
    if fw != [] && size == 0 {
      forall script ensures Delivers(fw, lan, size, script) {
        EmptyBlocksNeverFinish(Sending(lan), fw, 0, 0, Start(script));
      }
    } else if fw != [] {
      SendingPlain(lan);
      KnownUploadCompletes(Sending(lan), fw, 0, size, 0, Start(Repeat(KNOWN, |fw|)));
      assert !Delivers(fw, lan, size, Repeat(KNOWN, |fw|));
    }
  }

  // ----- the LAN workaround

  /** Refusals for length shrink the buffer, one byte each. */
  lemma {:induction false} RefusalsShrink(send: Sender, fw: seq<byte>, size: byte, k: nat, script: seq<Event>)
    requires Consumes(send) && Plain(send)
    requires fw != [] && k <= size && k <= |script| && forall i :: 0 <= i < k ==> script[i] == REFUSED
    ensures Upload(send, fw, 0, size, 0, Start(script)) == Upload(send, fw, 0, size - k, 0, Start(script[k..]))
    decreases k
  {
    if k == 0 {
      assert script[0..] == script;
    } else {
      assert send(0, fw[0..0 + BlockSize(fw, 0, size)], Start(script)) == (LengthError, Start(script[1..]));
      RefusalsShrink(send, fw, size - 1, k - 1, script[1..]);
      assert script[1..][k - 1..] == script[k..];
    }
  }

  /** The answer to block 0 is lost; its shortened resend is a repeat to the target, so both count. */
  lemma LostAnswer(fw: seq<byte>, c: byte, tail: seq<Event>)
    requires 2 <= c <= |fw|
    ensures Upload(Sending(true), fw, 0, c, 0, Start([REPLY_LOST, KNOWN] + tail))
         == Upload(Sending(true), fw, c - 1, c - 1, 1, Link([Block(0, fw[..c])], tail, 1, true))
  {
    var l0 := Start([REPLY_LOST, KNOWN] + tail);
    var l1 := Link([Block(0, fw[..c])], [KNOWN] + tail, 1, true);
    assert fw[0..0 + c] == fw[..c] && fw[0..0 + (c - 1)] == fw[..c - 1];
    assert UploadBlock(true, 0, fw[..c], l0) == (LengthError, l1) by {
      assert l0.script[1..] == [KNOWN] + tail && [] + [Block(0, fw[..c])] == [Block(0, fw[..c])];
    }
    SendingPlain(true);
    assert ([KNOWN] + tail)[1..] == tail;
    assert Sending(true)(0, fw[..c - 1], l1) == (Sent, Link([Block(0, fw[..c])], tail, 1, true));
  }

  /** From there every request is answered, and one byte too many arrives. */
  lemma AfterLoss(send: Sender, fw: seq<byte>, c: byte, tail: seq<Event>)
    requires Consumes(send) && Plain(send)
    requires 2 <= c <= |fw| && |tail| == |fw| && All(ANSWERED, tail)
    ensures var (v, end) := Upload(send, fw, c - 1, c - 1, 1, Link([Block(0, fw[..c])], tail, 1, true));
            v == Done && end.honest && |Content(end.taken)| == |fw| + 1
  {
    AnsweredUploadCompletes(send, fw, c - 1, c - 1, 1, Link([Block(0, fw[..c])], tail, 1, true));
    ContentAppend([], Block(0, fw[..c]));
    assert [] + [Block(0, fw[..c])] == [Block(0, fw[..c])];
  }

  /** Over LAN a single lost answer, read as a length error, makes an honest target take a byte twice. */
  lemma LanDuplicates(fw: seq<byte>, size: byte) returns (script: seq<Event>)
    requires |fw| >= 2 && size >= 2
    ensures Honest(fw, true, size, script) && !Delivers(fw, true, size, script)
  {
    var c := if |fw| < size then |fw| else size;
    var tail := Repeat(ANSWERED, |fw|);
    var rest := [REPLY_LOST, KNOWN] + tail;
    script := Repeat(REFUSED, size - c) + rest;
    SendingPlain(true);
    RefusalsShrink(Sending(true), fw, size, size - c, script);
    assert script[size - c..] == rest;
    LostAnswer(fw, c, tail);
    AfterLoss(Sending(true), fw, c, tail);
  }

  /** A sender that leaves a block taken once or not at all, and taken if it says so. */
  ghost predicate Sound(send: Sender, num: byte, data: seq<byte>, before: seq<Block>) {
    var after := before + [Block(num, data)];
    forall l: Link :: (l.taken == before || l.taken == after) && send(num, data, l).1.honest ==>
      && (send(num, data, l).1.taken == before || send(num, data, l).1.taken == after)
      && (send(num, data, l).0 == Sent ==> send(num, data, l).1.taken == after)
  }

  lemma SendingSound(lan: bool, num: byte, data: seq<byte>, before: seq<Block>)
    requires num == |before| % 256
    ensures Sound(Sending(lan), num, data, before)
  {
    var send, after := Sending(lan), before + [Block(num, data)];
    forall l: Link | (l.taken == before || l.taken == after) && send(num, data, l).1.honest
      ensures send(num, data, l).1.taken == before || send(num, data, l).1.taken == after
      ensures send(num, data, l).0 == Sent ==> send(num, data, l).1.taken == after
    {
      UploadBlockExact(lan, num, data, l, before);
    }
  }

  /** A one-byte firmware cannot be cut shorter, so it survives even the LAN workaround. */
  lemma {:induction false} OneByteExact(send: Sender, fw: seq<byte>, size: byte, num: byte, l: Link, before: seq<Block>)
    requires Consumes(send) && Sound(send, num, fw, before)
    requires |fw| == 1 && Content(before) == []
    requires l.taken == before || l.taken == before + [Block(num, fw)]
    ensures var (v, end) := Upload(send, fw, 0, size, num, l); v == Done && end.honest ==> Content(end.taken) == fw
    decreases |l.script|
  {
    hide Content;
    if size == 0 {
      EmptyBlocksNeverFinish(send, fw, 0, num, l);
    } else {
      assert fw[0..0 + BlockSize(fw, 0, size)] == fw;
      var (rc, next) := send(num, fw, l);
      ContentAppend(before, Block(num, fw));
      if rc == LengthError && next.honest {
        OneByteExact(send, fw, size - 1, num, next, before);
      }
    }
  }

  /** A one-byte buffer cannot be cut shorter either: after a length error nothing gets through. */
  lemma {:induction false} OneByteBuffer(send: Sender, fw: seq<byte>, sent: nat, num: byte, l: Link)
    requires Consumes(send) && Delivering(send)
    requires sent <= |fw| && Content(l.taken) == fw[..sent] && num == |l.taken| % 256
    ensures var (v, end) := Upload(send, fw, sent, 1, num, l); v == Done && end.honest ==> Content(end.taken) == fw
    decreases |l.script|
  {
    hide Content;
    if sent == |fw| {
      assert fw[..sent] == fw;
    } else {
      var (rc, next) := send(num, fw[sent..sent + 1], l);
      if rc == Sent && next.honest {
        NextContent(fw, sent, 1, l.taken, num);
        NextNumber(num, |l.taken|);
        OneByteBuffer(send, fw, sent + 1, (num + 1) % 256, next);
      } else if rc == LengthError {
        EmptyBlocksNeverFinish(send, fw, sent, num, next);
      }
    }
  }

  lemma HonestDelivers(fw: seq<byte>, lan: bool, size: byte, script: seq<Event>)
    requires Honest(fw, lan, size, script) && (!lan || |fw| <= 1 || size <= 1)
    ensures Delivers(fw, lan, size, script)
  {
    if !lan {
      UploadExact(fw, size, Start(script));
    } else if |fw| == 1 {
      SendingSound(true, 0, fw, []);
      OneByteExact(Sending(true), fw, size, 0, Start(script), []);
    } else if fw != [] && size == 1 {
      SendingDelivers(true);
      OneByteBuffer(Sending(true), fw, 0, 0, Start(script));
    } else if fw != [] {
      EmptyBlocksNeverFinish(Sending(true), fw, 0, 0, Start(script));
    }
  }

  /** Exactly when delivery by a target that keeps its word can be trusted, for every run: off LAN, or
      with nothing to split, or no buffer to split it with. */
  lemma DeliveryCondition(fw: seq<byte>, lan: bool, size: byte)
    ensures (forall script | Honest(fw, lan, size, script) :: Delivers(fw, lan, size, script))
            <==> !lan || |fw| <= 1 || size <= 1
  {
    if !lan || |fw| <= 1 || size <= 1 {
      forall script | Honest(fw, lan, size, script) ensures Delivers(fw, lan, size, script) {
        HonestDelivers(fw, lan, size, script);
      }
    } else {
      var script := LanDuplicates(fw, size);
    }
  }
}
