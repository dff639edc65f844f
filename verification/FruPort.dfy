/** The FRU transfers in the form of the program: offsets moved by loops over byte buffers. */
module FruPort {
  import opened Bytes
  import opened FruTransfer
  import opened FruReader

  method Copy(a: array<byte>, at: nat, data: seq<byte>)
    requires at + |data| <= a.Length
    modifies a
    ensures a[..] == Splice(old(a[..]), at, data)
  {
    for i := 0 to |data|
      invariant a[..] == Splice(old(a[..]), at, data[..i])
    {
      a[at + i] := data[i];
      assert data[..i + 1] == data[..i] + [data[i]];
    }
    assert data[..|data|] == data;
  }

  /** Within the source, a request never asks for more than is left of it. */
  lemma RestFits(doffset: nat, length: nat, off: nat)
    requires doffset < U16 && length < U16 && off <= length
    requires off == 0 || doffset + off < (doffset + length) % U16
    ensures off + ChunkSize((doffset + length) % U16, doffset + off) <= length
  {
  }

  class Port {
    const word: bool              // fru_info.access
    const size: nat               // fru_info.size
    var dev: seq<byte>
    var grants: seq<WriteEvent>
    var answers: seq<ReadEvent>
    var rqst: nat                 // read_fru_area's static request size
    ghost var modest: bool

    constructor (word: bool, size: nat, dev: seq<byte>, grants: seq<WriteEvent>, answers: seq<ReadEvent>)
      requires size < U16
      ensures this.word == word && this.size == size && rqst == 20
      ensures this.dev == dev && this.grants == grants && this.answers == answers
    {
      this.word, this.size, this.dev, this.grants, this.answers, rqst := word, size, dev, grants, answers, 20;
    }

    method SetFruData(at: nat, data: seq<byte>) returns (ok: bool)
      requires grants != []
      modifies this`dev, this`grants
      ensures grants == old(grants)[1..] && (ok <==> old(grants)[0].Stored?)
      ensures var e := old(grants)[0];
              dev == Store(old(dev), at, Take(data, if e.Stored? then e.count else e.taken))
    {
      var e := grants[0];
      ok := e.Stored?;
      dev := Store(dev, at, Take(data, if e.Stored? then e.count else e.taken));
      grants := grants[1..];
    }

    /** The exchange of the write loop; `chunk` is what it does. */
    method WriteOne(ghost src: seq<byte>, doffset: nat, finish: nat, off: nat, data: seq<byte>)
      returns (off': nat, out: bool)
      requires grants != [] && data == Payload(src, doffset, finish, off)
      modifies this`dev, this`grants
      ensures grants == old(grants)[1..] && off' in {off, off + |data|} && (!out ==> doffset + off' < finish)
      ensures WriteChunk(word, src, doffset, finish)(off, old(dev), old(grants)[0])
           == if out then Stop(doffset + off' >= finish, dev) else More(off', dev)
    {
      var tmp := if word then (doffset + off) / 2 % U16 * 2 else (doffset + off) % U16;
      off' := off;
      var ok := SetFruData(tmp, data);
      if ok {
        off' := off + |data|;
      }
      out := !ok || doffset + off' >= finish;
    }

    /** The do-while loop of write_fru_area. */
    method WriteChunks(src: seq<byte>, doffset: nat, finish: nat) returns (result: WriteResult)
      requires doffset < U16 && |src| < U16 && finish == (doffset + |src|) % U16
      modifies this`dev, this`grants
      ensures (result, dev, grants)
           == WriteLoop(WriteChunk(word, src, doffset, finish), 0, old(dev), old(grants))
    {
      hide WriteChunk;
      ghost var chunk := WriteChunk(word, src, doffset, finish);
      ghost var spec := WriteLoop(chunk, 0, dev, grants);
      var off: nat, out := 0, false;
      while !out && grants != []
        invariant !out ==> off <= |src| && (off == 0 || doffset + off < finish)
        invariant !out ==> WriteLoop(chunk, off, dev, grants) == spec
        invariant out ==> (Returned(doffset + off >= finish), dev, grants) == spec
        decreases |grants|
      {
        ghost var rest := grants;
        RestFits(doffset, |src|, off);
        off, out := WriteOne(src, doffset, finish, off, src[off..off + ChunkSize(finish, doffset + off)]);
        assert grants == rest[1..];
      }
      result := if out then Returned(doffset + off >= finish) else Waiting;
    }

    /** write_fru_area of `length` bytes of `frubuf` from `soffset`. */
    method WriteArea(frubuf: seq<byte>, soffset: nat, doffset: nat, length: nat) returns (result: WriteResult)
      requires soffset + length <= |frubuf| && doffset < U16 && length < U16
      modifies this`dev, this`grants
      ensures (result, dev, grants)
           == Write(word, frubuf[soffset..soffset + length], doffset, size, old(dev), old(grants))
    {
      var finish := (doffset + length) % U16;
      if finish > size {
        return Rejected;
      }
      result := WriteChunks(frubuf[soffset..soffset + length], doffset, finish);
    }

    ghost function Now(off: nat, buf: seq<byte>): (s: Reading)
      reads this`rqst, this`modest
    {
      Reading(off, rqst, buf, modest)
    }

    method GetFruData(at: nat) returns (e: ReadEvent, data: seq<byte>)
      requires answers != []
      modifies this`answers
      ensures e == old(answers)[0] && answers == old(answers)[1..]
      ensures data == if e.Served? then Answer(word, dev, at, e.count) else []
    {
      e := answers[0];
      data := if e.Served? then Answer(word, dev, at, e.count) else [];
      answers := answers[1..];
    }

    /** An answer copied into the caller's buffer. */
    method Accept(finish: nat, off: nat, frubuf: array<byte>, data: seq<byte>, ghost keeps: bool)
      returns (result: ReadResult, off': nat)
      modifies this`modest, frubuf
      ensures Receive(finish, old(Now(off, frubuf[..])), data, keeps)
           == if result == Pending then Again(Now(off', frubuf[..])) else Leave(result, Now(off', frubuf[..]))
    {
      hide Splice;
      result, off' := Pending, off;
      modest := modest && keeps;
      if off + |data| > frubuf.Length {
        return Overrun, off;
      }
      Copy(frubuf, off, data);
      off' := off + |data|;
      if off' >= finish {
        result := Full;
      } else if data == [] {
        result := Short;
      }
    }

    /** The body of the read loop. */
    method ReadOne(finish: nat, off: nat, frubuf: array<byte>) returns (result: ReadResult, off': nat)
      requires answers != []
      modifies this`answers, this`rqst, this`modest, frubuf
      ensures answers == old(answers)[1..]
      ensures ReadChunk(word, dev, finish, old(Now(off, frubuf[..])), old(answers)[0])
           == if result == Pending then Again(Now(off', frubuf[..])) else Leave(result, Now(off', frubuf[..]))
    {
      var at := if word then off / 2 % U16 * 2 else off % U16;
      assert at == Target(word, off);
      ghost var asked := Asked(finish, off, rqst);
      var e, data := GetFruData(at);
      result, off' := Pending, off;
      match e
      case Served(count) =>
        result, off' := Accept(finish, off, frubuf, data, |data| <= Unit(word) * asked);
      case TooLong =>
        rqst := (rqst - 1) % U32;
        if rqst <= RETRY_FLOOR || off >= finish {
          result := Outcome(finish, off);
        }
      case _ =>
        result := Outcome(finish, off);
    }

    /** read_fru_area into `frubuf`. */
    method ReadArea(offset: nat, length: nat, frubuf: array<byte>) returns (result: ReadResult)
      modifies this`answers, this`rqst, this`modest, frubuf
      ensures var (r, s, rest) := Read(word, dev, size, offset, length, old(rqst), old(frubuf[..]), old(answers));
              result == r && rqst == s.rqst && frubuf[..] == s.buf && modest == s.modest && answers == rest
    {
      modest := true;
      if offset > size {
        return Error;
      }
      var finish := (offset + length) % U32;
      if finish > size {
        finish := size;
      }
      if rqst > 16 {
        rqst := 16;
      }
      ghost var spec := ReadLoop(word, dev, finish, Now(offset, frubuf[..]), answers);
      var off: nat := offset;
      result := Pending;
      while result == Pending && answers != []
        invariant result == Pending ==> ReadLoop(word, dev, finish, Now(off, frubuf[..]), answers) == spec
        invariant result != Pending ==> (result, Now(off, frubuf[..]), answers) == spec
        decreases |answers|
      {
        ghost var rest := answers;
        result, off := ReadOne(finish, off, frubuf);
        assert answers == rest[1..];
      }
    }
  }
}
