/**
 The upgrade agent in the form of the program: loops that move the image cursor, the data
 cursor, the buffer length and the block number, and reassign the answer, over a link held in
 fields.  Every method is tied to the function of HpmUpload or HpmStage it runs.
 */
module HpmAgent {
  import opened Bytes
  import opened HpmUpload
  import opened HpmStage

  /** HpmfwupgCalculateChecksum: the 8-bit sum. */
  method CalculateChecksum(data: seq<byte>) returns (checksum: byte)
    ensures checksum == Sum(data) % 256
  {
    checksum := 0;
    var i := 0;
    while i < |data|
      invariant 0 <= i <= |data| && checksum == Sum(data[..i]) % 256
    {
      SumStep8(data, i);
      checksum := (checksum + data[i]) % 256;
      i := i + 1;
    }
    assert data[..i] == data;
  }

  class UpgradeAgent {
    const lan: bool
    const size: byte          // the buffer length of the interface
    var taken: seq<Block>
    var script: seq<Event>
    var resized: nat
    var images: seq<Image>
    ghost var honest: bool

    constructor (lan: bool, size: byte, script: seq<Event>)
      ensures this.lan == lan && this.size == size && images == []
      ensures Now() == Link([], script, 0, true)
    {
      this.lan, this.size, this.script := lan, size, script;
      taken, resized, images, honest := [], 0, [], true;
    }

    ghost function Now(): (r: Link)
      reads this
    {
      Link(taken, script, resized, honest)
    }

    method Exchange(num: byte, data: seq<byte>) returns (reply: Reply, expired: bool)
      requires script != []
      modifies this`taken, this`script, this`honest
      ensures Now() == Receive(num, data, old(Now()))
      ensures reply == ReplyOf(old(script)[0]) && expired == old(script)[0].expired
    {
      var e := script[0];
      honest := honest && Truthful(taken, num, e);
      if e.taken {
        taken := taken + [Block(num, data)];
      }
      script, reply, expired := script[1..], ReplyOf(e), e.expired;
    }

    method Send(num: byte, data: seq<byte>) returns (reply: Reply)
      modifies this`taken, this`script, this`resized, this`honest
      ensures (reply, Now()) == SendCmd(lan, num, data, old(Now()))
    {
      var retry := true;
      reply := Pending;
      while retry && script != []
        invariant retry ==> SendCmd(lan, num, data, Now()) == SendCmd(lan, num, data, old(Now()))
        invariant !retry ==> (reply, Now()) == SendCmd(lan, num, data, old(Now()))
        decreases |script|
      {
        var expired;
        reply, expired := Exchange(num, data);
        if reply == Silence && lan && resized < LAN_RESIZE_LIMIT {
          reply := Code(0xc7);
          resized := resized + 1;
        }
        retry := Resends(reply) && !expired;
      }
      if retry {
        reply := Pending;
      }
    }

    method SendCommand() returns (ok: Option<bool>)
      modifies this`script
      ensures (ok, Now()) == Command(old(Now()))
    {
      if script == [] {
        return None;
      }
      ok := Some(ReplyOf(script[0]) == Code(0));
      script := script[1..];
    }

    method UploadFirmwareBlock(num: byte, data: seq<byte>) returns (rc: BlockResult)
      modifies this`taken, this`script, this`resized, this`honest
      ensures (rc, Now()) == UploadBlock(lan, num, data, old(Now()))
    {
      var reply := Send(num, data);
      if reply == Pending {
        return Waiting;
      }
      if reply == Silence {
        return Error;
      }
      if reply.cc == 0x80 {
        var ok := SendCommand();
        rc := if ok == None then Waiting else if ok.value then Sent else Error;
      } else if reply.cc != 0 && reply.cc != 0xcc {
        rc := if reply.cc == 0xc7 then LengthError else Error;
      } else {
        rc := Sent;
      }
    }

    method UploadFirmware(fw: seq<byte>) returns (v: Verdict)
      modifies this`taken, this`script, this`resized, this`honest
      ensures (v, Now()) == Upload(Sending(lan), fw, 0, size, 0, old(Now()))
    {
      v := UploadBlocks(fw, Sending(lan));
    }

    /** The block loop; `send` is what UploadFirmwareBlock does. */
    method UploadBlocks(fw: seq<byte>, ghost send: Sender) returns (v: Verdict)
      requires Consumes(send) && Follows(send, lan)
      modifies this`taken, this`script, this`resized, this`honest
      ensures (v, Now()) == Upload(send, fw, 0, size, 0, old(Now()))
    {
      ghost var spec := Upload(send, fw, 0, size, 0, Now());
      var sent: nat, bufLength: byte, blockNumber: byte := 0, size, 0;
      v := Done;
      while sent < |fw| && v == Done
        invariant sent <= |fw|
        invariant v == Done ==> Upload(send, fw, sent, bufLength, blockNumber, Now()) == spec
        invariant v != Done ==> (v, Now()) == spec
        decreases v == Done, |script|
      {
        v, sent, bufLength, blockNumber := UploadNext(fw, send, sent, bufLength, blockNumber);
      }
    }

    /** One round of the block loop. */
    method UploadNext(fw: seq<byte>, ghost send: Sender, sent: nat, bufLength: byte, blockNumber: byte)
      returns (v: Verdict, sent': nat, bufLength': byte, blockNumber': byte)
      requires Consumes(send) && Follows(send, lan) && sent < |fw|
      modifies this`taken, this`script, this`resized, this`honest
      ensures sent' <= |fw| && (v == Done ==> |script| < |old(script)|)
      ensures var spec := Upload(send, fw, sent, bufLength, blockNumber, old(Now()));
              && (v == Done ==> Upload(send, fw, sent', bufLength', blockNumber', Now()) == spec)
              && (v != Done ==> (v, Now()) == spec)
    {
      v, sent', bufLength', blockNumber' := Done, sent, bufLength, blockNumber;
      var count := if sent + bufLength <= |fw| then bufLength else |fw| - sent;
      var rc := UploadFirmwareBlock(blockNumber, fw[sent..sent + count]);
      match rc {
        case Sent => blockNumber', sent' := (blockNumber + 1) % 256, sent + count;
        case LengthError =>
          if bufLength == 0 {
            v := Undefined;
          } else {
            bufLength' := bufLength - 1;
          }
        case Error => v := Failed;
        case Waiting => v := Unfinished;
      }
      UploadStep(send, fw, sent, bufLength, blockNumber, old(Now()), rc, Now(), v, sent', bufLength', blockNumber');
    }

    method UpgradeStage(img: seq<byte>) returns (v: Verdict, cursor: nat)
      requires |img| >= IMAGE_HEADER
      modifies this
      ensures Result(v, cursor, images, Now()) == Stage(img, FirstAction(img), lan, size, old(images), old(Now()))
    {
      ghost var spec := Stage(img, FirstAction(img), lan, size, images, Now());
      v, cursor := Done, FirstAction(img);
      while cursor + MD5 < |img| && v == Done
        invariant v == Done ==> Stage(img, cursor, lan, size, images, Now()) == spec
        invariant v != Done ==> Result(v, cursor, images, Now()) == spec
        decreases v == Done, |img| - cursor
      {
        var sum := CalculateChecksum(img[cursor..cursor + ACTION_RECORD]);
        if sum != 0 {
          v := Failed;
          break;
        }
        match img[cursor] {
          case 1 =>
            var ok := SendCommand();
            if ok == Some(true) {
              cursor := cursor + ACTION_RECORD;
            } else {
              v := if ok == None then Unfinished else Failed;
            }
          case 2 =>
            v, cursor := UploadAction(img, cursor);
          case _ =>
            v := Failed;
        }
      }
    }

    /** The HPMFWUPG_ACTION_UPLOAD_FIRMWARE branch.  After a failed Finish nothing reads the cursor; it
        is left where it was. */
    method UploadAction(img: seq<byte>, off: nat) returns (v: Verdict, next: nat)
      requires off + MD5 < |img| && img[off] == 2 && Sum(img[off..off + ACTION_RECORD]) % 256 == 0
      modifies this
      ensures v == Done ==> off < next
      ensures var spec := Stage(img, off, lan, size, old(images), old(Now()));
              && (v == Done ==> Stage(img, next, lan, size, images, Now()) == spec)
              && (v != Done ==> Result(v, next, images, Now()) == spec)
    {
      next := off;
      var data := off + ACTION_RECORD + FIRMWARE_INFO + 3;
      if data > |img| || data + FromLe24(img[data - 3..data]) > |img| {
        return Undefined, off;
      }
      var end := data + FromLe24(img[data - 3..data]);
      var info := img[off + ACTION_RECORD..data - 3];
      assert ReadAction(img, off) == At(Firmware(img[off + 1], info, img[data..end]), end);
      StageFirmware(img, off, lan, size, images, Now(), img[off + 1], img[data..end], end);
      v := UploadFirmware(img[data..end]);
      if v == Done {
        var ok := SendCommand();
        if ok == Some(true) {
          images := images + [Image(img[off + 1], Content(taken))];
          taken := [];
          next := end;
        } else {
          v := if ok == None then Unfinished else Failed;
        }
      }
    }
  }
}
