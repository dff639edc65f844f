/**
 The address-mode update agent in the form of the program: a global payload size, a loop that
 changes the block length through a pointer, and the upload loop over address, lastAddress and
 retry.  Each method is tied to the function of KfwumUpload it runs.
 */
module KfwumAgent {
  import opened Bytes
  import opened KfwumUpload

  /** KfwumCalculateChecksumPadding: a 16-bit running sum, negated. */
  method CalculateChecksumPadding(buffer: seq<byte>) returns (padding: nat)
    ensures padding == Padding(buffer)
  {
    var sumOfBytes: int := 0;
    var counter := 0;
    while counter < |buffer|
      invariant 0 <= counter <= |buffer| && sumOfBytes == Sum(buffer[..counter]) % 0x1_0000
    {
      SumStep16(buffer, counter);
      sumOfBytes := (sumOfBytes + buffer[counter] as int) % 0x1_0000;
      counter := counter + 1;
    }
    assert buffer[..counter] == buffer;
    padding := (0x1_0000 - sumOfBytes) % 0x1_0000;
  }

  class Fwum {
    const lan: bool
    var bufferSize: byte      // saveFirmwareInfo.bufferSize
    var flash: seq<byte>
    var script: seq<Event>
    var log: seq<Request>
    ghost var honest: bool

    constructor (lan: bool, flash: seq<byte>, script: seq<Event>)
      ensures this.lan == lan && bufferSize == SMALL_BUFFER && Now() == Link(flash, script, [], true)
    {
      this.lan, this.flash, this.script := lan, flash, script;
      bufferSize, log, honest := SMALL_BUFFER, [], true;
    }

    ghost function Now(): (r: Link)
      reads this
    {
      Link(flash, script, log, honest)
    }

    method SendRequest(file: seq<byte>, at: nat, len: byte, room: byte) returns (reply: Reply)
      requires at + len <= |file| && script != []
      modifies this`flash, this`script, this`log, this`honest
      ensures (reply, Now()) == Exchange(file, at, len, room, old(Now()))
    {
      var e, to := script[0], FromLe24(Le24(at));
      flash := Store(flash, to, Take(file[at..at + len], e.taken));
      honest := honest && Truthful(flash, to, file[at..at + len], e);
      script, log, reply := script[1..], log + [Request(at, len, room)], ReplyOf(e);
    }

    /** KfwumSaveFirmwareImage. */
    method SaveFirmwareImage(file: seq<byte>, seqNo: byte, at: nat, room: byte, length: byte)
      returns (status: Status, len: byte)
      requires at + length <= |file|
      modifies this`flash, this`script, this`log, this`honest
      ensures (status, len, Now()) == Save(file, lan, seqNo, at, room, Try(length, false, 0), old(Now()))
    {
      ghost var result := Save(file, lan, seqNo, at, room, Try(length, false, 0), Now());
      var out, retry, noResponse := false, false, 0;
      status, len := Unfinished, length;
      while !out && script != []
        invariant len <= length
        invariant !out ==> status == Unfinished
        invariant !out ==> Save(file, lan, seqNo, at, room, Try(len, retry, noResponse), Now()) == result
        invariant out ==> (status, len, Now()) == result
        decreases |script|
      {
        ghost var t, before := Try(len, retry, noResponse), Now();
        var reply := SendRequest(file, at, len, room);
        ghost var d := Decide(lan, seqNo, t, reply);
        var shrink := false;
        if reply == Silence {
          if lan {
            noResponse := noResponse + 1;
            if noResponse < NO_RESPONSE_LIMIT {
              shrink := true;
            } else {
              status, len, out := Ok, 0, true;
            }
          }
        } else {
          var cc := reply.cc;
          if cc == 0xc7 || (cc == 0xc3 && seqNo == 0) {
            retry, shrink := true, true;
          } else if cc == 0 || cc == 0x82 {
            status, out := Ok, true;
          } else if cc == 0xcf || ((cc == 0x83 || cc == 0xc3) && !retry) {
            retry := true;
          } else if cc != 0xc0 {
            status, out := Error, true;
          }
        }
        if shrink {
          if len == 0 {
            status, out := Undefined, true;
          } else {
            len := len - 1;
          }
        }
        assert d == if out then Settled(status, len) else Again(Try(len, retry, noResponse));
      }
    }

    /** The bookkeeping of the upload loop once a block has come back. */
    method Advance(st: Status, size: byte, len: byte, address: nat, lastAddress: nat, sequenceNumber: byte, retry: byte)
      returns (status: Status, address': nat, lastAddress': nat, sequenceNumber': byte, retry': byte)
      requires len <= size && st in {Ok, Error}
      modifies this`bufferSize
      ensures (status, Agent(address', lastAddress', sequenceNumber', retry', bufferSize))
           == After(Agent(address, lastAddress, sequenceNumber, retry, old(bufferSize)), st, size, len)
    {
      status, address', lastAddress', sequenceNumber', retry' := st, address, lastAddress, sequenceNumber, retry;
      if status == Error && retry != 0 {
        retry', address', status := retry - 1, lastAddress, Ok;
      } else if len == 0 {
        status := Error;
      } else {
        if len != size {
          bufferSize := Minus(bufferSize, size - len);
        }
        retry', lastAddress', address' := MAX_RETRY, address, address + len;
      }
      if status == Ok {
        sequenceNumber' := (sequenceNumber + 1) % 256;
      }
    }

    /** KfwumUploadFirmware: a do-while over the file. */
    method UploadFirmware(file: seq<byte>) returns (status: Status)
      modifies this
      ensures var (st, u, end) := Upload(file, lan, START.(bufferSize := old(bufferSize)), old(Now()));
              status == st && bufferSize == u.bufferSize && Now() == end
    {
      ghost var result := Upload(file, lan, START.(bufferSize := bufferSize), Now());
      var address: nat, lastAddress: nat, sequenceNumber: byte, retry: byte := 0, 0, 0, MAX_RETRY;
      var more := true;
      status := Ok;
      while more
        invariant lastAddress <= address <= |file|
        invariant var u := Agent(address, lastAddress, sequenceNumber, retry, bufferSize);
                  if more then Upload(file, lan, u, Now()) == result else (status, u, Now()) == result
        decreases more, |script|
      {
        ghost var u, before := Agent(address, lastAddress, sequenceNumber, retry, bufferSize), Now();
        var writeSize := Minus(bufferSize, OVERHEAD);
        if address + writeSize > |file| {
          writeSize := |file| - address;
        } else if address % PAGE_SIZE + writeSize > PAGE_SIZE {
          writeSize := PAGE_SIZE - address % PAGE_SIZE;
        }
        var oldWriteSize := writeSize;
        assert oldWriteSize == WriteSize(|file|, u.address, Room(u));
        status, writeSize := SaveFirmwareImage(file, sequenceNumber, address, Minus(bufferSize, OVERHEAD), writeSize);
        ghost var saved := Save(file, lan, u.seqNo, u.address, Room(u), Try(oldWriteSize, false, 0), before);
        assert (status, writeSize, Now()) == saved;
        if status == Undefined || status == Unfinished {
          more := false;
        } else {
          status, address, lastAddress, sequenceNumber, retry :=
            Advance(status, oldWriteSize, writeSize, address, lastAddress, sequenceNumber, retry);
          more := status == Ok && address < |file|;
        }
        ghost var u' := Agent(address, lastAddress, sequenceNumber, retry, bufferSize);
        assert (status, u', Now()) == Round(file, lan, u, before);
      }
    }
  }
}
