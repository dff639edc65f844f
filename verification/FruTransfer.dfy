/**
 Chunked writing and reading of a FRU inventory device (sections 34.2 and 34.3 of the IPMI v2.0
 specification): 16-byte writes and shrinking reads, with byte or word addresses.
 */
module FruTransfer {
  import opened Bytes

  const U16 := 0x1_0000
  const U32 := 0x1_0000_0000
  const CHUNK := 16

  // ----- writing

  /** What becomes of one write request: how many of its bytes are stored, and whether it is
      acknowledged.  The count an acknowledgement carries is never looked at. */
  datatype WriteEvent = Stored(count: nat) | Failed(taken: nat)

  datatype WriteResult = Rejected | Returned(done: bool) | Waiting

  /** Where a request for byte `pos` lands: words are addressed by half their byte offset. */
  function Target(word: bool, pos: nat): (at: nat)
    ensures at <= pos
  {
    if word then (pos / 2 % U16) * 2 else pos % U16
  }

  function ChunkSize(finish: nat, pos: nat): (n: nat)
    ensures n <= CHUNK
  {
    var left := (finish - pos) % U16;
    if left > CHUNK then CHUNK else left
  }

  datatype WriteStep = Stop(done: bool, dev: seq<byte>) | More(off: nat, dev: seq<byte>)

  /** What the loop makes of a request for `data` at `at`: `past` tells that the end was reached
      before it, `more` that it is not reached with it. */
  function Settle(dev: seq<byte>, at: nat, data: seq<byte>, off: nat, past: bool, more: bool, e: WriteEvent)
    : (step: WriteStep)
    ensures |step.dev| == |dev|
  {
    match e
    case Failed(taken) => Stop(past, Store(dev, at, Take(data, taken)))
    case Stored(count) =>
      var dev' := Store(dev, at, Take(data, count));
      if more then More(off + |data|, dev') else Stop(true, dev')
  }

  /** The bytes of the request with `off` bytes of `src` sent. */
  function Payload(src: seq<byte>, doffset: nat, finish: nat, off: nat): (data: seq<byte>)
    ensures |data| <= CHUNK
  {
    var n := ChunkSize(finish, doffset + off);
    if off + n <= |src| then src[off..off + n] else []
  }

  type Chunker = (nat, seq<byte>, WriteEvent) -> WriteStep

  /** One exchange of write_fru_area as a function of the bytes of `src` sent, the device and its
      answer. */
  function WriteChunk(word: bool, src: seq<byte>, doffset: nat, finish: nat): (chunk: Chunker) {
    (off: nat, dev: seq<byte>, e: WriteEvent) =>
      var data := Payload(src, doffset, finish, off);
      Settle(dev, Target(word, doffset + off), data, off, doffset + off >= finish, doffset + off + |data| < finish, e)
  }

  function WriteLoop(chunk: Chunker, off: nat, dev: seq<byte>, script: seq<WriteEvent>)
    : (r: (WriteResult, seq<byte>, seq<WriteEvent>))
    decreases |script|
  {
    if script == [] then (Waiting, dev, script)
    else match chunk(off, dev, script[0])
      case Stop(done, dev') => (Returned(done), dev', script[1..])
      case More(off', dev') => WriteLoop(chunk, off', dev', script[1..])
  }

  /** write_fru_area: `src` is the source slice, `size` the announced size, and the end offset a
      16-bit sum. */
  function Write(word: bool, src: seq<byte>, doffset: nat, size: nat, dev: seq<byte>, script: seq<WriteEvent>)
    : (r: (WriteResult, seq<byte>, seq<WriteEvent>))
  {
    var finish := (doffset + |src|) % U16;
    if finish > size then (Rejected, dev, script)
    else WriteLoop(WriteChunk(word, src, doffset, finish), 0, dev, script)
  }

  // ----- what a write leaves

  /** Word access rounds an odd destination down. */
  function Base(word: bool, doffset: nat): (base: nat)
    ensures base <= doffset
  {
    if word && doffset % 2 == 1 then doffset - 1 else doffset
  }

  /** Whether byte `k` of the source was stored by the request that carried it. */
  predicate Held(script: seq<WriteEvent>, k: nat) {
    k / CHUNK < |script| && script[k / CHUNK].Stored? && k % CHUNK < script[k / CHUNK].count
  }

  /** Whether the requests from number `from` to the `n`th were all acknowledged. */
  predicate Acked(script: seq<WriteEvent>, from: nat, n: nat) {
    n <= |script| && forall i :: from <= i < n ==> script[i].Stored?
  }

  function Requests(length: nat): (n: nat)
    ensures length <= CHUNK * n < length + CHUNK
  {
    (length + CHUNK - 1) / CHUNK
  }

  /** `dev` is `init` with the first `done` bytes of `src` in place as far as they were stored, and
      nothing else changed. */
  ghost predicate Landed(dev: seq<byte>, init: seq<byte>, base: nat, src: seq<byte>, done: nat,
                         script: seq<WriteEvent>) {
    && |dev| == |init| && done <= |src|
    && (forall x {:trigger dev[x]} :: 0 <= x < |dev| ==>
          dev[x] == if base <= x < base + done && Held(script, x - base) then src[x - base] else init[x])
  }

  /** Nothing outside the destination changed, and inside it nothing but to the source. */
  ghost predicate Confined(dev: seq<byte>, init: seq<byte>, base: nat, src: seq<byte>) {
    && |dev| == |init|
    && (forall x {:trigger dev[x]} :: 0 <= x < |dev| ==>
          dev[x] == init[x] || (base <= x < base + |src| && dev[x] == src[x - base]))
  }

  lemma Small16(x: nat)
    requires x < U16
    ensures x % U16 == x
  {
  }

  lemma TargetIs(word: bool, doffset: nat, off: nat)
    requires doffset + off < U16 && off % CHUNK == 0
    ensures Target(word, doffset + off) == Base(word, doffset) + off
  {
    Small16(doffset + off);
    Small16((doffset + off) / 2);
    var k := off / CHUNK;
    assert off == CHUNK * k;
    assert (doffset + off) / 2 == doffset / 2 + 8 * k;
  }

  /** The next bytes of a source, sixteen at most. */
  function Piece(src: seq<byte>, off: nat): (data: seq<byte>)
    requires off <= |src|
    ensures |data| == if |src| - off > CHUNK then CHUNK else |src| - off
  {
    src[off..if |src| - off > CHUNK then off + CHUNK else |src|]
  }

  lemma PayloadIs(src: seq<byte>, doffset: nat, off: nat)
    requires doffset + |src| < U16 && off <= |src|
    ensures Payload(src, doffset, doffset + |src|, off) == Piece(src, off)
  {
    Small16(|src| - off);
  }

  /** An exchange that sends the next bytes of `src` where they belong. */
  ghost predicate Sends(chunk: Chunker, src: seq<byte>, base: nat) {
    forall off: nat, dev, e :: off % CHUNK == 0 && off <= |src| ==>
      chunk(off, dev, e)
      == Settle(dev, base + off, Piece(src, off), off, off >= |src|, off + |Piece(src, off)| < |src|, e)
  }

  lemma ChunkSendsAt(word: bool, src: seq<byte>, doffset: nat, off: nat, dev: seq<byte>, e: WriteEvent)
    requires doffset + |src| < U16 && off % CHUNK == 0 && off <= |src|
    ensures var data := Piece(src, off);
            WriteChunk(word, src, doffset, doffset + |src|)(off, dev, e)
            == Settle(dev, Base(word, doffset) + off, data, off, off >= |src|, off + |data| < |src|, e)
  {
    TargetIs(word, doffset, off);
    PayloadIs(src, doffset, off);
  }

  /** So does the loop's, when the end offset does not wrap. */
  lemma ChunkSends(word: bool, src: seq<byte>, doffset: nat)
    requires doffset + |src| < U16
    ensures Sends(WriteChunk(word, src, doffset, doffset + |src|), src, Base(word, doffset))
  {
    var chunk := WriteChunk(word, src, doffset, doffset + |src|);
    forall off: nat, dev, e | off % CHUNK == 0 && off <= |src|
      ensures var data := Piece(src, off);
              chunk(off, dev, e)
              == Settle(dev, Base(word, doffset) + off, data, off, off >= |src|, off + |data| < |src|, e)
    {
      ChunkSendsAt(word, src, doffset, off, dev, e);
    }
  }

  lemma InChunk(off: nat, j: nat)
    requires off % CHUNK == 0 && j < CHUNK
    ensures (off + j) / CHUNK == off / CHUNK && (off + j) % CHUNK == j
  {
  }

  /** An acknowledged request puts in place what of it was stored. */
  lemma StoredLands(dev: seq<byte>, init: seq<byte>, base: nat, src: seq<byte>, off: nat, script: seq<WriteEvent>)
    requires Landed(dev, init, base, src, off, script) && off % CHUNK == 0
    requires off / CHUNK < |script| && script[off / CHUNK].Stored?
    ensures var data := Piece(src, off);
            Landed(Store(dev, base + off, Take(data, script[off / CHUNK].count)), init, base, src, off + |data|, script)
  {
    var n := |Piece(src, off)|;
    var data := Take(Piece(src, off), script[off / CHUNK].count);
    var dev' := Store(dev, base + off, data);
    forall x | 0 <= x < |dev|
      ensures dev'[x] == if base <= x < base + (off + n) && Held(script, x - base) then src[x - base] else init[x]
    {
      if base + off <= x < base + off + n {
        InChunk(off, x - base - off);
      }
    }
  }

  lemma LandedConfined(dev: seq<byte>, init: seq<byte>, base: nat, src: seq<byte>, done: nat, script: seq<WriteEvent>)
    requires Landed(dev, init, base, src, done, script)
    ensures Confined(dev, init, base, src)
  {
  }

  lemma StoreConfined(dev: seq<byte>, init: seq<byte>, base: nat, src: seq<byte>, off: nat, k: nat)
    requires Confined(dev, init, base, src) && off <= |src|
    ensures Confined(Store(dev, base + off, Take(Piece(src, off), k)), init, base, src)
  {
  }

  /** One exchange: what has landed grows by a request, and a 1 comes back at the end or, for an
      empty source, at once. */
  ghost predicate StepLands(step: WriteStep, base: nat, src: seq<byte>, off: nat, init: seq<byte>,
                            script: seq<WriteEvent>)
    requires off / CHUNK < |script|
  {
    var e := script[off / CHUNK];
    match step
    case Stop(done, dev') =>
      && Confined(dev', init, base, src)
      && (done ==> Landed(dev', init, base, src, |src|, script))
      && (src != [] ==> (done <==> e.Stored?)) && (e.Stored? ==> off + CHUNK >= |src|)
    case More(off', dev') =>
      e.Stored? && off' == off + CHUNK < |src| && Landed(dev', init, base, src, off', script)
  }

  lemma ChunkLands(chunk: Chunker, src: seq<byte>, base: nat, off: nat, init: seq<byte>, dev: seq<byte>,
                   script: seq<WriteEvent>)
    requires Sends(chunk, src, base) && off % CHUNK == 0 && off / CHUNK < |script|
    requires Landed(dev, init, base, src, off, script) && (off < |src| || off == 0)
    ensures StepLands(chunk(off, dev, script[off / CHUNK]), base, src, off, init, script)
  {
    var e := script[off / CHUNK];
    LandedConfined(dev, init, base, src, off, script);
    match e
    case Stored(count) =>
      StoredLands(dev, init, base, src, off, script);
      StoreConfined(dev, init, base, src, off, count);
    case Failed(taken) =>
      StoreConfined(dev, init, base, src, off, taken);
  }

  /** A loop from any multiple of sixteen: what it leaves, and that it returns 1 exactly if every
      request still to come is acknowledged. */
  lemma {:induction false} WriteLoopLands(chunk: Chunker, src: seq<byte>, base: nat, off: nat, init: seq<byte>,
                                          dev: seq<byte>, script: seq<WriteEvent>)
    requires Sends(chunk, src, base) && off % CHUNK == 0 && off / CHUNK <= |script|
    requires Landed(dev, init, base, src, off, script) && (off < |src| || off == 0)
    ensures var (r, dev', _) := WriteLoop(chunk, off, dev, script[off / CHUNK..]);
            && Confined(dev', init, base, src)
            && (r == Returned(true) ==> Landed(dev', init, base, src, |src|, script))
            && (src != [] ==> (r == Returned(true) <==> Acked(script, off / CHUNK, Requests(|src|))))
    decreases |script| - off / CHUNK
  {
    var i := off / CHUNK;
    if i == |script| {
      LandedConfined(dev, init, base, src, off, script);
    } else {
      ChunkLands(chunk, src, base, off, init, dev, script);
      var step := chunk(off, dev, script[i]);
      assert script[i..][0] == script[i] && script[i..][1..] == script[i + 1..];
      if step.More? {
        WriteLoopLands(chunk, src, base, step.off, init, step.dev, script);
      }
    }
  }

  lemma NothingLanded(dev: seq<byte>, base: nat, src: seq<byte>, script: seq<WriteEvent>)
    ensures Landed(dev, dev, base, src, 0, script) && Confined(dev, dev, base, src)
  {
  }

  /** Every run whose end offset does not wrap: only the destination can change, and if 1 comes back
      the device holds there, byte by byte, what was stored; 1 comes back exactly if every request
      was acknowledged. */
  lemma WriteOutcome(word: bool, src: seq<byte>, doffset: nat, size: nat, dev: seq<byte>, script: seq<WriteEvent>)
    requires doffset + |src| < U16
    ensures var (r, dev', _) := Write(word, src, doffset, size, dev, script);
            && Confined(dev', dev, Base(word, doffset), src)
            && (r == Returned(true) ==> Landed(dev', dev, Base(word, doffset), src, |src|, script))
            && (src != [] ==>
                  (r == Returned(true) <==> doffset + |src| <= size && Acked(script, 0, Requests(|src|))))
  {
    hide WriteLoop, WriteChunk, Landed, Confined, Acked;
    Small16(doffset + |src|);
    NothingLanded(dev, Base(word, doffset), src, script);
    if doffset + |src| <= size {
      ChunkSends(word, src, doffset);
      WriteLoopLands(WriteChunk(word, src, doffset, doffset + |src|), src, Base(word, doffset), 0, dev, dev, script);
      assert script[0..] == script;
    }
  }

  /** The source is where it belongs and nothing else moved. */
  ghost predicate Placed(dev: seq<byte>, init: seq<byte>, base: nat, src: seq<byte>) {
    && |dev| == |init| && (src != [] ==> base + |src| <= |dev|)
    && (forall x {:trigger dev[x]} :: 0 <= x < |dev| ==>
          dev[x] == if base <= x < base + |src| then src[x - base] else init[x])
  }

  /** What a caller wants from a returned 1. */
  ghost predicate Written(word: bool, src: seq<byte>, doffset: nat, size: nat, dev: seq<byte>,
                          script: seq<WriteEvent>) {
    var (r, dev', _) := Write(word, src, doffset, size, dev, script);
    r == Returned(true) ==> Placed(dev', dev, Base(word, doffset), src)
  }

  /** A device that stores all of a request of `length` source bytes that it acknowledges. */
  ghost predicate FullAcks(script: seq<WriteEvent>, length: nat) {
    forall k :: 0 <= k < length && k / CHUNK < |script| && script[k / CHUNK].Stored? ==> Held(script, k)
  }

  lemma AckedHolds(script: seq<WriteEvent>, length: nat, k: nat)
    requires Acked(script, 0, Requests(length)) && k < length
    ensures k / CHUNK < |script| && script[k / CHUNK].Stored?
  {
  }

  /** If acknowledgements mean what they say, a returned 1 does. */
  lemma WriteExact(word: bool, src: seq<byte>, doffset: nat, size: nat, dev: seq<byte>, script: seq<WriteEvent>)
    requires doffset + |src| < U16 && FullAcks(script, |src|)
    requires src == [] || doffset + |src| > size || Base(word, doffset) + |src| <= |dev|
    ensures Written(word, src, doffset, size, dev, script)
  {
    WriteOutcome(word, src, doffset, size, dev, script);
    if src != [] && Write(word, src, doffset, size, dev, script).0 == Returned(true) {
      forall k: nat | k < |src| ensures Held(script, k) {
        AckedHolds(script, |src|, k);
      }
    }
  }

  function Fill(b: byte, n: nat): (s: seq<byte>)
    ensures |s| == n && forall i :: 0 <= i < n ==> s[i] == b
  {
    seq(n, _ => b)
  }

  /** Exactly when the acknowledgements of a run make a returned 1 untrue for some source and device:
      if all requests are acknowledged and some byte of one of them was not stored. */
  lemma ShortAcknowledgement(word: bool, size: nat, n: nat, doffset: nat, length: nat, script: seq<WriteEvent>)
    requires 0 < length && doffset + length < U16 && doffset + length <= size && Base(word, doffset) + length <= n
    ensures (forall src, dev | |src| == length && |dev| == n :: Written(word, src, doffset, size, dev, script))
            <==> !(Acked(script, 0, Requests(length)) && exists k :: 0 <= k < length && !Held(script, k))
  {
    if k :| 0 <= k < length && Acked(script, 0, Requests(length)) && !Held(script, k) {
      var src, dev := Fill(1, length), Fill(0, n);
      WriteOutcome(word, src, doffset, size, dev, script);
      var dev' := Write(word, src, doffset, size, dev, script).1;
      assert dev'[Base(word, doffset) + k] == 0;
      assert !Written(word, src, doffset, size, dev, script);
    } else {
      forall src: seq<byte>, dev: seq<byte> | |src| == length && |dev| == n
        ensures Written(word, src, doffset, size, dev, script)
      {
        WriteOutcome(word, src, doffset, size, dev, script);
      }
    }
  }

  /** If the 16-bit end offset wraps, 1 comes back whatever the device did. */
  lemma WrappedWriteReturns(word: bool, src: seq<byte>, doffset: nat, size: nat, dev: seq<byte>)
    requires doffset < U16 && |src| < U16 <= doffset + |src| && doffset + |src| - U16 <= size
    ensures Write(word, src, doffset, size, dev, [Failed(0)]) == (Returned(true), dev, [])
  {
    var finish := doffset + |src| - U16;
    assert (doffset + |src|) % U16 == finish;
    var chunk, data := WriteChunk(word, src, doffset, finish), Payload(src, doffset, finish, 0);
    var step := Settle(dev, Target(word, doffset + 0), data, 0, true, doffset + 0 + |data| < finish, Failed(0));
    NothingStored(dev, Target(word, doffset + 0), Take(data, Failed(0).taken));
    assert step == Stop(true, dev);
    assert chunk(0, dev, Failed(0)) == step;
    var script: seq<WriteEvent> := [Failed(0)];
    assert script[1..] == [];
    assert WriteLoop(chunk, 0, dev, script) == (Returned(true), dev, []);
  }

  /** A script on which every request is acknowledged and stored. */
  function Acknowledged(length: nat): (script: seq<WriteEvent>)
    ensures Acked(script, 0, Requests(length)) && FullAcks(script, length)
  {
    seq(Requests(length), _ => Stored(CHUNK))
  }

  lemma WrappedMisses(word: bool, src: seq<byte>, doffset: nat, dev: seq<byte>)
    requires |dev| <= U16 && doffset < U16 && |src| < U16 <= doffset + |src|
    requires dev == Fill(0, |dev|) && src == Fill(1, |src|)
    ensures !Placed(dev, dev, Base(word, doffset), src)
  {
    var base := Base(word, doffset);
    if base + |src| <= |dev| {
      assert dev[base] != src[0];
    }
  }

  /** Exactly when a returned 1 can be believed, for every source, every device of `n` bytes and every
      run with full acknowledgements: the end offset does not wrap and the bytes are there to be
      written, or the request is rejected. */
  lemma WriteCondition(word: bool, size: nat, n: nat, doffset: nat, length: nat)
    requires size < U16 && n <= U16 && doffset < U16 && length < U16
    ensures (forall src, dev, script | |src| == length && |dev| == n && FullAcks(script, length) ::
               Written(word, src, doffset, size, dev, script))
            <==> if doffset + length < U16
                 then length == 0 || doffset + length > size || Base(word, doffset) + length <= n
                 else doffset + length - U16 > size
  {
    if doffset + length < U16 && (length == 0 || doffset + length > size || Base(word, doffset) + length <= n) {
      forall src: seq<byte>, dev, script | |src| == length && |dev| == n && FullAcks(script, length)
        ensures Written(word, src, doffset, size, dev, script)
      {
        WriteExact(word, src, doffset, size, dev, script);
      }
    } else if doffset + length < U16 {
      var src, dev := Fill(1, length), Fill(0, n);
      WriteOutcome(word, src, doffset, size, dev, Acknowledged(length));
      assert !Written(word, src, doffset, size, dev, Acknowledged(length));
    } else if doffset + length - U16 > size {
      assert (doffset + length) % U16 == doffset + length - U16;
    } else {
      var src, dev := Fill(1, length), Fill(0, n);
      WrappedWriteReturns(word, src, doffset, size, dev);
      WrappedMisses(word, src, doffset, dev);
      assert FullAcks([Failed(0)], length);
      assert !Written(word, src, doffset, size, dev, [Failed(0)]);
    }
  }

  /** With full acknowledgements the bytes land where they were asked for, for every source, device and
      successful run, exactly with byte access or an even offset. */
  lemma LandsAtOffset(word: bool, size: nat, n: nat, doffset: nat, length: nat)
    requires 0 < length && doffset + length < U16 && doffset + length <= size && doffset + length <= n
    ensures (forall src, dev, script | |src| == length && |dev| == n && FullAcks(script, length) ::
               var (r, dev', _) := Write(word, src, doffset, size, dev, script);
               r == Returned(true) ==> Placed(dev', dev, doffset, src))
            <==> !word || doffset % 2 == 0
  {
    if !word || doffset % 2 == 0 {
      forall src: seq<byte>, dev, script | |src| == length && |dev| == n && FullAcks(script, length)
        ensures var (r, dev', _) := Write(word, src, doffset, size, dev, script);
                r == Returned(true) ==> Placed(dev', dev, doffset, src)
      {
        WriteExact(word, src, doffset, size, dev, script);
      }
    } else {
      var src, dev, script := Fill(1, length), Fill(0, n), Acknowledged(length);
      WriteOutcome(word, src, doffset, size, dev, script);
      var (r, dev', _) := Write(word, src, doffset, size, dev, script);
      AckedHolds(script, length, 0);
      assert dev'[doffset - 1] == 1;
      assert r == Returned(true) && !Placed(dev', dev, doffset, src);
    }
  }
}
