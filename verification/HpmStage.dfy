/**
 The action-record walker of the HPM.1 upgrade stage (sections 3.3 and 4 of the IPM Controller
 Firmware Upgrade Specification, draft 0.9) on top of the block upload, and the agent as a
 class whose loops move the image cursor and the link in place.
 */
module HpmStage {
  import opened Bytes
  import opened HpmUpload

  const IMAGE_HEADER := 37
  const ACTION_RECORD := 3
  const FIRMWARE_INFO := 27   // version and description, before the three length bytes
  const MD5 := 16

  datatype Action =
    | Prepare(components: byte)
    | Firmware(components: byte, info: seq<byte>, content: seq<byte>)

  /** What the target has stored by Finish Firmware Upload. */
  datatype Image = Image(components: byte, content: seq<byte>)

  // ----- the image format

  ghost predicate WellFormed(a: Action) {
    a.Firmware? ==> |a.info| == FIRMWARE_INFO && |a.content| < 0x100_0000
  }

  function Record(kind: byte, components: byte): (r: seq<byte>)
    ensures |r| == ACTION_RECORD && Sum(r) % 256 == 0
  {
    var c: byte := (512 - kind - components) % 256;
    Sum3(kind, components, c);
    [kind, components, c]
  }

  function Encode(a: Action): (r: seq<byte>) {
    match a
    case Prepare(m) => Record(1, m)
    case Firmware(m, info, content) => Record(2, m) + info + Le24(|content|) + content
  }

  function EncodeAll(acts: seq<Action>): (r: seq<byte>) {
    if acts == [] then [] else Encode(acts[0]) + EncodeAll(acts[1..])
  }

  function Images(acts: seq<Action>): (r: seq<Image>) {
    if acts == [] then []
    else (if acts[0].Firmware? then [Image(acts[0].components, acts[0].content)] else []) + Images(acts[1..])
  }

  // ----- reading one action at the cursor

  datatype Step = Stop | OverRead | At(action: Action, next: nat)

  /** The action at `off`, as the agent reads it: Stop for a bad checksum, a backup request or an
      unknown type, OverRead when the firmware would reach past the image. */
  function ReadAction(img: seq<byte>, off: nat): (s: Step)
    requires off + MD5 < |img|
    ensures s.At? ==> off < s.next <= |img| && WellFormed(s.action)
  {
    if Sum(img[off..off + ACTION_RECORD]) % 256 != 0 then Stop
    else if img[off] == 1 then At(Prepare(img[off + 1]), off + ACTION_RECORD)
    else if img[off] != 2 then Stop
    else
      var info := off + ACTION_RECORD;
      var data := info + FIRMWARE_INFO + 3;
      if data > |img| then OverRead else
      var n := FromLe24(img[data - 3..data]);
      if data + n > |img| then OverRead
      else At(Firmware(img[off + 1], img[info..data - 3], img[data..data + n]), data + n)
  }

  lemma RecordBytes(kind: byte, components: byte)
    ensures Record(kind, components)[0] == kind && Record(kind, components)[1] == components
  {
  }

  /** The parts of a firmware record, where the agent looks for them. */
  lemma Parts(pre: seq<byte>, rec: seq<byte>, info: seq<byte>, size: seq<byte>, content: seq<byte>, post: seq<byte>)
    ensures var img, at := pre + (rec + info + size + content) + post, |pre|;
            var (i, n, c) := (at + |rec|, at + |rec| + |info|, at + |rec| + |info| + |size|);
            && img[at..i] == rec && img[i..n] == info && img[n..c] == size && img[c..c + |content|] == content
  {
  }

  lemma ReadEncoded(pre: seq<byte>, a: Action, post: seq<byte>)
    requires WellFormed(a) && |post| >= MD5
    ensures ReadAction(pre + Encode(a) + post, |pre|) == At(a, |pre + Encode(a)|)
  {
    hide Record, Le24, FromLe24, Sum;
    var img := pre + Encode(a) + post;
    var off := |pre|;
    match a
    case Prepare(m) =>
      RecordBytes(1, m);
      assert img[off..off + ACTION_RECORD] == Record(1, m);
      assert img[off] == img[off..off + ACTION_RECORD][0] && img[off + 1] == img[off..off + ACTION_RECORD][1];
    case Firmware(m, info, content) =>
      RecordBytes(2, m);
      Parts(pre, Record(2, m), info, Le24(|content|), content, post);
      assert img[off] == img[off..off + ACTION_RECORD][0] && img[off + 1] == img[off..off + ACTION_RECORD][1];
      Le24RoundTrip(|content|);
  }

  // ----- the reference: what an image says

  /** The actions from `off` to the MD5 trailer and where the last one ends. */
  function Walk(img: seq<byte>, off: nat): (r: Option<(seq<Action>, nat)>)
    decreases |img| - off
  {
    if |img| <= off + MD5 then Some(([], off)) else
    match ReadAction(img, off)
    case At(a, next) =>
      var rest := Walk(img, next);
      if rest == None then None else Some(([a] + rest.value.0, rest.value.1))
    case _ => None
  }

  lemma WalkStep(img: seq<byte>, off: nat, next: nat, acts: seq<Action>, end: nat)
    requires off + MD5 < |img| && acts != []
    requires ReadAction(img, off) == At(acts[0], next) && Walk(img, next) == Some((acts[1..], end))
    ensures Walk(img, off) == Some((acts, end))
  {
    assert [acts[0]] + acts[1..] == acts;
  }

  /** An image built from actions is read back as those actions, each once, and the cursor stops
      exactly at the trailer. */
  lemma {:induction false} WalkEncoded(img: seq<byte>, pre: seq<byte>, acts: seq<Action>, md5: seq<byte>)
    requires img == pre + EncodeAll(acts) + md5
    requires |md5| == MD5 && forall a :: a in acts ==> WellFormed(a)
    ensures Walk(img, |pre|) == Some((acts, |img| - MD5))
    decreases |acts|
  {
    if acts != [] {
      var a, rest := acts[0], EncodeAll(acts[1..]);
      var pre' := pre + Encode(a);
      Regroup(pre, Encode(a), rest, md5);
      ReadEncoded(pre, a, rest + md5);
      WalkEncoded(img, pre', acts[1..], md5);
      WalkStep(img, |pre|, |pre'|, acts, |img| - MD5);
    }
  }

  // ----- the stage

  datatype Result = Result(verdict: Verdict, cursor: nat, images: seq<Image>, link: Link)

  /** HpmfwupgUpgradeStage from a cursor: `size` is the buffer length every upload starts with. */
  function Stage(img: seq<byte>, off: nat, lan: bool, size: byte, images: seq<Image>, l: Link): (r: Result)
    ensures r.link.honest ==> l.honest
    decreases |img| - off
  {
    if |img| <= off + MD5 then Result(Done, off, images, l) else
    match ReadAction(img, off)
    case Stop => Result(Failed, off, images, l)
    case OverRead => Result(Undefined, off, images, l)
    case At(Prepare(_), next) =>
      var (ok, l1) := Command(l);
      if ok == Some(true) then Stage(img, next, lan, size, images, l1)
      else Result(if ok == None then Unfinished else Failed, off, images, l1)
    case At(Firmware(m, _, content), next) =>
      var (v, l1) := Upload(Sending(lan), content, 0, size, 0, l);
      if v != Done then Result(v, off, images, l1) else
      var (ok, l2) := Command(l1);
      if ok == Some(true) then Stage(img, next, lan, size, images + [Image(m, Content(l2.taken))], l2.(taken := []))
      else Result(if ok == None then Unfinished else Failed, off, images, l2)
  }

  /** The branch of an upload action, once the firmware has been found. */
  lemma StageFirmware(img: seq<byte>, off: nat, lan: bool, size: byte, images: seq<Image>, l: Link, m: byte,
                      content: seq<byte>, next: nat)
    requires off + MD5 < |img| && off < next <= |img|
    requires exists info :: ReadAction(img, off) == At(Firmware(m, info, content), next)
    ensures var (v, l1) := Upload(Sending(lan), content, 0, size, 0, l);
            var (ok, l2) := Command(l1);
            Stage(img, off, lan, size, images, l) ==
            if v != Done then Result(v, off, images, l1)
            else if ok == Some(true) then
              Stage(img, next, lan, size, images + [Image(m, Content(l2.taken))], l2.(taken := []))
            else Result(if ok == None then Unfinished else Failed, off, images, l2)
  {
  }

  lemma ImagesFirst(a: Action, acts: seq<Action>, images: seq<Image>)
    ensures images + Images([a] + acts)
         == (if a.Firmware? then images + [Image(a.components, a.content)] else images) + Images(acts)
  {
    assert ([a] + acts)[1..] == acts;
  }

  /** A stage that succeeds off LAN has stored, in order, exactly the firmwares the image holds and
      has visited every action record up to the trailer. */
  lemma {:induction false} StageDelivers(img: seq<byte>, off: nat, size: byte, images: seq<Image>, l: Link)
    requires l.taken == []
    ensures var r := Stage(img, off, false, size, images, l);
            r.verdict == Done && r.link.honest ==>
              exists acts :: Walk(img, off) == Some((acts, r.cursor)) && r.images == images + Images(acts)
    decreases |img| - off
  {
    var r := Stage(img, off, false, size, images, l);
    if r.verdict == Done && r.link.honest {
      if |img| <= off + MD5 {
        assert Walk(img, off) == Some(([], r.cursor)) && r.images == images + Images([]);
      } else {
        var At(a, next) := ReadAction(img, off);
        var images', l' := images, l;
        match a {
          case Prepare(_) =>
            l' := Command(l).1;
          case Firmware(m, _, content) =>
            UploadExact(content, size, l);
            l' := Command(Upload(Sending(false), content, 0, size, 0, l).1).1.(taken := []);
            images' := images + [Image(m, content)];
        }
        assert r == Stage(img, next, false, size, images', l');
        StageDelivers(img, next, size, images', l');
        var acts :| Walk(img, next) == Some((acts, r.cursor)) && r.images == images' + Images(acts);
        ImagesFirst(a, acts, images);
      }
    }
  }

  function FirstAction(img: seq<byte>): (r: nat)
    requires |img| >= IMAGE_HEADER
  {
    var (lo: int, hi: int) := (img[IMAGE_HEADER - 2], img[IMAGE_HEADER - 1]);
    IMAGE_HEADER + (lo + 256 * hi) + 1
  }

  /** The whole promise, for an image laid out as the specification says. */
  lemma UpgradeDelivers(header: seq<byte>, acts: seq<Action>, md5: seq<byte>, size: byte, l: Link)
    requires |header| >= IMAGE_HEADER && FirstAction(header) == |header|
    requires |md5| == MD5 && forall a :: a in acts ==> WellFormed(a)
    requires l.taken == []
    ensures var img := header + EncodeAll(acts) + md5;
            var r := Stage(img, FirstAction(img), false, size, [], l);
            r.verdict == Done && r.link.honest ==> r.images == Images(acts) && r.cursor == |img| - MD5
  {
    var img := header + EncodeAll(acts) + md5;
    assert FirstAction(img) == |header|;
    WalkEncoded(img, header, acts, md5);
    StageDelivers(img, |header|, size, [], l);
    assert [] + Images(acts) == Images(acts);
  }
}
