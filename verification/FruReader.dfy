/**
 The reading half of the FRU transfers: a loop that asks for less when it is refused, moves on by
 whatever count the answer states, and stops at the end or at an empty answer.
 */
module FruReader {
  import opened Bytes
  import opened FruTransfer

  const RETRY_FLOOR := 8

  /** What becomes of one read request.  Served is the count an answer states, in bytes or in words;
      TooLong is 0xc7, 0xc8 or 0xca. */
  datatype ReadEvent = Served(count: byte) | TooLong | Refused | Silent

  /** Short is the 0 returned for an empty answer before the end, Full the 0 at the end; Overrun: an
      answer was longer than the room left in the caller's buffer. */
  datatype ReadResult = Full | Short | Error | Overrun | Pending

  /** `rqst` is the static request size; `modest`: no answer counted more than it was asked for. */
  datatype Reading = Reading(off: nat, rqst: nat, buf: seq<byte>, modest: bool)

  datatype ReadStep = Leave(result: ReadResult, s: Reading) | Again(s: Reading)

  function Least(a: nat, b: nat): (m: nat)
    ensures m <= a && m <= b && (m == a || m == b)
  {
    if a < b then a else b
  }

  /** The count byte of a request; the bytes remaining are a 32-bit difference. */
  function Asked(finish: nat, off: nat, rqst: nat): (n: byte) {
    Least(rqst, (finish - off) % U32) % 256
  }

  function Unit(word: bool): (n: nat)
    ensures 1 <= n <= 2
  {
    if word then 2 else 1
  }

  /** What the device sends from `at`: as many whole units as it counts, if it has them. */
  function Answer(word: bool, dev: seq<byte>, at: nat, count: nat): (data: seq<byte>)
    ensures |data| <= Unit(word) * count && |data| % Unit(word) == 0
    ensures data != [] ==> at + |data| <= |dev| && data == dev[at..at + |data|]
  {
    if at > |dev| then [] else
    var n := Unit(word) * Least(count, (|dev| - at) / Unit(word));
    dev[at..at + n]
  }

  function Outcome(finish: nat, off: nat): (r: ReadResult) {
    if off < finish then Error else Full
  }

  /** What an answer does to the loop's state. */
  function Receive(finish: nat, s: Reading, data: seq<byte>, modest: bool): (step: ReadStep) {
    var s0 := s.(modest := s.modest && modest);
    if s.off + |data| > |s.buf| then Leave(Overrun, s0) else
    var s' := s0.(off := s.off + |data|, buf := Splice(s.buf, s.off, data));
    if s'.off >= finish then Leave(Full, s') else if data == [] then Leave(Short, s') else Again(s')
  }

  /** One exchange of read_fru_area. */
  function ReadChunk(word: bool, dev: seq<byte>, finish: nat, s: Reading, e: ReadEvent): (step: ReadStep) {
    match e
    case Served(count) =>
      var data := Answer(word, dev, Target(word, s.off), count);
      Receive(finish, s, data, |data| <= Unit(word) * Asked(finish, s.off, s.rqst))
    case TooLong =>
      var s' := s.(rqst := (s.rqst - 1) % U32);
      if s'.rqst > RETRY_FLOOR && s.off < finish then Again(s') else Leave(Outcome(finish, s.off), s')
    case _ => Leave(Outcome(finish, s.off), s)
  }

  function ReadLoop(word: bool, dev: seq<byte>, finish: nat, s: Reading, script: seq<ReadEvent>)
    : (r: (ReadResult, Reading, seq<ReadEvent>))
    ensures |r.2| <= |script|
    decreases |script|
  {
    if script == [] then (Pending, s, script)
    else match ReadChunk(word, dev, finish, s, script[0])
      case Leave(result, s') => (result, s', script[1..])
      case Again(s') => ReadLoop(word, dev, finish, s', script[1..])
  }

  /** The end offset: a 32-bit sum, clipped to the announced size. */
  function Finish(size: nat, offset: nat, length: nat): (finish: nat)
    ensures finish <= size
  {
    Least((offset + length) % U32, size)
  }

  function Capped(rqst: nat): (n: nat) {
    Least(rqst, CHUNK)
  }

  /** read_fru_area, for a device that announced `size` bytes. */
  function Read(word: bool, dev: seq<byte>, size: nat, offset: nat, length: nat, rqst: nat, buf: seq<byte>,
                script: seq<ReadEvent>)
    : (r: (ReadResult, Reading, seq<ReadEvent>))
    ensures |r.2| <= |script|
  {
    var s := Reading(offset, Capped(rqst), buf, true);
    if offset > size then (Error, s.(rqst := rqst), script)
    else ReadLoop(word, dev, Finish(size, offset, length), s, script)
  }

  // ----- what a read leaves

  /** `buf` is `init` with the device's bytes from `base` on in [from, to) and nothing else changed. */
  ghost predicate Filled(buf: seq<byte>, init: seq<byte>, dev: seq<byte>, base: nat, from: nat, to: nat) {
    && |buf| == |init|
    && (from < to ==> base + (to - from) <= |dev| && to <= |buf|)
    && (forall x {:trigger buf[x]} :: 0 <= x < |buf| ==>
          buf[x] == if from <= x < to then dev[base + (x - from)] else init[x])
  }

  /** A bound on the exchanges left. */
  function Budget(finish: nat, off: nat, rqst: nat): (n: nat) {
    (if off < finish then finish - off else 0) + (if rqst == 0 then U32 else rqst)
  }

  lemma ModLess(n: nat)
    ensures n % 256 <= n
  {
  }

  lemma AskedFits(finish: nat, off: nat, rqst: nat)
    requires off <= finish < U16
    ensures Asked(finish, off, rqst) <= finish - off
  {
    assert (finish - off) % U32 == finish - off;
    ModLess(Least(rqst, finish - off));
  }

  lemma AskedSmall(finish: nat, off: nat, rqst: nat)
    requires off <= finish < U16 && rqst <= CHUNK
    ensures Asked(finish, off, rqst) == Least(rqst, finish - off)
  {
    assert (finish - off) % U32 == finish - off;
  }

  /** Bytes are read from the offset reached; words from the byte before it if the offset is odd. */
  lemma TargetFrom(word: bool, offset: nat, off: nat)
    requires offset <= off < U16 && (word ==> (off - offset) % 2 == 0)
    ensures Target(word, off) == Base(word, offset) + (off - offset)
  {
    Small16(off);
    Small16(off / 2);
  }

  /** The loop's state: the buffer holds the device's bytes up to the offset reached. */
  ghost predicate Reached(s: Reading, word: bool, dev: seq<byte>, offset: nat, init: seq<byte>) {
    && offset <= s.off && s.rqst < U32 && (word ==> (s.off - offset) % 2 == 0)
    && Filled(s.buf, init, dev, Base(word, offset), offset, s.off)
  }

  lemma FilledMore(buf: seq<byte>, init: seq<byte>, dev: seq<byte>, base: nat, from: nat, off: nat, data: seq<byte>)
    requires Filled(buf, init, dev, base, from, off) && from <= off && off + |data| <= |buf|
    requires var at := base + (off - from); data != [] ==> at + |data| <= |dev| && data == dev[at..at + |data|]
    ensures Filled(Splice(buf, off, data), init, dev, base, from, off + |data|)
  {
    hide Splice;
  }

  lemma ReceiveReaches(word: bool, dev: seq<byte>, finish: nat, offset: nat, init: seq<byte>, s: Reading,
                       data: seq<byte>, modest: bool)
    requires Reached(s, word, dev, offset, init) && |data| % Unit(word) == 0
    requires var at := Base(word, offset) + (s.off - offset);
             data != [] ==> at + |data| <= |dev| && data == dev[at..at + |data|]
    ensures var step := Receive(finish, s, data, modest);
            && Reached(step.s, word, dev, offset, init)
            && (step.Leave? ==> step.result == Overrun || (step.result == Full <==> step.s.off >= finish))
            && (step.Again? ==> s.off < step.s.off < finish && step.s.rqst == s.rqst)
  {
    hide Filled, Splice;
    if s.off + |data| <= |s.buf| {
      FilledMore(s.buf, init, dev, Base(word, offset), offset, s.off, data);
    }
  }

  /** One exchange, whatever the answer. */
  lemma ChunkReaches(word: bool, dev: seq<byte>, finish: nat, offset: nat, init: seq<byte>, s: Reading, e: ReadEvent)
    requires Reached(s, word, dev, offset, init) && s.off < U16
    ensures var step := ReadChunk(word, dev, finish, s, e);
            && Reached(step.s, word, dev, offset, init)
            && (step.Leave? ==> step.result != Pending)
            && (step.Leave? ==> step.result == Overrun || (step.result == Full <==> step.s.off >= finish))
            && (step.Again? ==> step.s.off < finish)
            && (step.Again? ==> Budget(finish, step.s.off, step.s.rqst) < Budget(finish, s.off, s.rqst))
  {
    hide Filled, Answer, Target, Splice;
    match e
    case Served(count) =>
      TargetFrom(word, offset, s.off);
      var data := Answer(word, dev, Target(word, s.off), count);
      ReceiveReaches(word, dev, finish, offset, init, s, data, |data| <= Unit(word) * Asked(finish, s.off, s.rqst));
    case TooLong =>
      assert s.rqst == 0 ==> (s.rqst - 1) % U32 == U32 - 1;
    case _ =>
  }

  /** However the device answers: the buffer holds its bytes up to the offset reached and is otherwise
      untouched, 0 at the end means the end was reached, and the loop stops in time. */
  lemma {:induction false} ReadLoopReaches(word: bool, dev: seq<byte>, finish: nat, offset: nat, init: seq<byte>,
                                           s: Reading, script: seq<ReadEvent>)
    requires Reached(s, word, dev, offset, init) && finish < U16 && s.off < U16
    ensures var (r, s', rest) := ReadLoop(word, dev, finish, s, script);
            && Reached(s', word, dev, offset, init)
            && (r == Full ==> s'.off >= finish)
            && (s'.off >= finish ==> r in {Full, Overrun, Pending})
            && |script| - |rest| <= Budget(finish, s.off, s.rqst)
            && (r == Pending ==> rest == [])
    decreases |script|
  {
    hide ReadChunk, Reached;
    if script != [] {
      ChunkReaches(word, dev, finish, offset, init, s, script[0]);
      var step := ReadChunk(word, dev, finish, s, script[0]);
      if step.Again? {
        ReadLoopReaches(word, dev, finish, offset, init, step.s, script[1..]);
      }
    }
  }

  /** Answers that keep to what was asked never pass the end with byte access, nor with word access if
      single words are asked for and a whole number of them is left. */
  lemma {:induction false} ModestStays(word: bool, dev: seq<byte>, finish: nat, s: Reading, script: seq<ReadEvent>)
    requires s.off <= finish < U16 && (word ==> s.rqst == 1 && (finish - s.off) % 2 == 0)
    ensures var (r, s', _) := ReadLoop(word, dev, finish, s, script);
            s'.modest ==> s'.off <= finish && s.modest && (finish <= |s.buf| ==> r != Overrun)
    decreases |script|
  {
    hide Answer, Target, Asked, Splice;
    if script != [] {
      AskedFits(finish, s.off, s.rqst);
      if word {
        AskedSmall(finish, s.off, s.rqst);
      }
      var step := ReadChunk(word, dev, finish, s, script[0]);
      if step.Again? {
        ModestStays(word, dev, finish, step.s, script[1..]);
      }
    }
  }

  /** What a caller wants of a read that came back with 0 at the end. */
  ghost predicate ReadOut(word: bool, dev: seq<byte>, size: nat, offset: nat, length: nat, rqst: nat, buf: seq<byte>,
                          script: seq<ReadEvent>) {
    var (r, s, _) := Read(word, dev, size, offset, length, rqst, buf, script);
    r == Full ==> Filled(s.buf, buf, dev, offset, offset, Least(offset + length, size))
  }

  /** A run in which no answer counted more than it was asked for. */
  predicate Modest(word: bool, dev: seq<byte>, size: nat, offset: nat, length: nat, rqst: nat, buf: seq<byte>,
                   script: seq<ReadEvent>) {
    Read(word, dev, size, offset, length, rqst, buf, script).1.modest
  }

  /** Every run of a read, whatever the device answers: the buffer holds the device's bytes up to the
      offset reached, taken from the byte before an odd offset if access is by word, and is otherwise
      untouched; that offset is the end or behind it if 0 comes back there, and the exchanges are
      bounded. */
  lemma ReadOutcome(word: bool, dev: seq<byte>, size: nat, offset: nat, length: nat, rqst: nat, buf: seq<byte>,
                    script: seq<ReadEvent>)
    requires size < U16 && rqst < U32
    ensures var finish := Finish(size, offset, length);
            var (r, s, rest) := Read(word, dev, size, offset, length, rqst, buf, script);
            && s.off >= offset && (word ==> (s.off - offset) % 2 == 0)
            && Filled(s.buf, buf, dev, Base(word, offset), offset, s.off)
            && (r == Full ==> s.off >= finish)
            && |script| - |rest| <= Budget(finish, offset, Capped(rqst))
            && (r == Pending ==> rest == [])
  {
    hide ReadLoop, ReadChunk;
    var s := Reading(offset, Capped(rqst), buf, true);
    assert Reached(s, word, dev, offset, buf);
    if offset <= size {
      ReadLoopReaches(word, dev, Finish(size, offset, length), offset, buf, s, script);
    }
  }

  /** A byte-access read whose end offset does not wrap: exact if it says so and no answer counted
      more than it was asked for. */
  lemma ReadExact(dev: seq<byte>, size: nat, offset: nat, length: nat, rqst: nat, buf: seq<byte>,
                  script: seq<ReadEvent>)
    requires size < U16 && offset + length < U32 && rqst < U32
    ensures var (r, s, _) := Read(false, dev, size, offset, length, rqst, buf, script);
            s.modest ==> && (r == Full ==> Filled(s.buf, buf, dev, offset, offset, Least(offset + length, size)))
                         && (Least(offset + length, size) <= |buf| ==> r != Overrun)
  {
    hide ReadLoop, ReadChunk;
    ReadOutcome(false, dev, size, offset, length, rqst, buf, script);
    assert (offset + length) % U32 == offset + length;
    if offset <= size {
      ModestStays(false, dev, Finish(size, offset, length), Reading(offset, Capped(rqst), buf, true), script);
    }
  }

  /** At the device's end nothing is transferred. */
  lemma NothingToRead(word: bool, dev: seq<byte>, finish: nat, s: Reading, script: seq<ReadEvent>)
    requires finish <= s.off == |dev| < U16
    ensures ReadLoop(word, dev, finish, s, script).1.buf == s.buf
  {
    TargetFrom(word, s.off, s.off);
    if script != [] && script[0].Served? {
      assert Answer(word, dev, Target(word, s.off), script[0].count) == [];
    }
  }

  // ----- runs that come to the end

  function Repeat<T>(x: T, n: nat): (s: seq<T>)
    ensures |s| == n
  {
    if n == 0 then [] else [x] + Repeat(x, n - 1)
  }

  lemma RepeatNext<T>(x: T, n: nat, tail: seq<T>)
    requires n > 0
    ensures var s := Repeat(x, n) + tail; s[0] == x && s[1..] == Repeat(x, n - 1) + tail
  {
  }

  lemma RepeatNone<T>(x: T, tail: seq<T>)
    ensures Repeat(x, 0) + tail == tail
  {
  }

  /** An answer of one or two units where they can be had. */
  lemma UnitsAnswered(word: bool, dev: seq<byte>, finish: nat, s: Reading, count: byte) returns (s': Reading)
    requires finish < U16 && |dev| < U16 && count <= 2
    requires s.off + Unit(word) * count <= |s.buf| && s.off + Unit(word) * count <= |dev|
    ensures s'.off == s.off + Unit(word) * count && |s'.buf| == |s.buf| && s'.rqst == s.rqst
    ensures s.off <= finish && count <= s.rqst <= CHUNK && count <= finish - s.off ==> s'.modest == s.modest
    ensures ReadChunk(word, dev, finish, s, Served(count))
         == if s'.off >= finish then Leave(Full, s') else if count == 0 then Leave(Short, s') else Again(s')
  {
    var data := Answer(word, dev, Target(word, s.off), count);
    assert |data| == Unit(word) * count;
    if s.off <= finish && s.rqst <= CHUNK {
      AskedSmall(finish, s.off, s.rqst);
    }
    s' := ReadChunk(word, dev, finish, s, Served(count)).s;
  }

  /** `n` answers of one unit each, all short of the end. */
  lemma {:induction false} Trickle(word: bool, dev: seq<byte>, finish: nat, s: Reading, n: nat, tail: seq<ReadEvent>)
    returns (s': Reading)
    requires finish < U16 && |dev| < U16
    requires s.off + Unit(word) * n <= |s.buf| && s.off + Unit(word) * n <= |dev| && s.off + Unit(word) * n < finish
    ensures ReadLoop(word, dev, finish, s, Repeat(Served(1), n) + tail) == ReadLoop(word, dev, finish, s', tail)
    ensures s'.off == s.off + Unit(word) * n && |s'.buf| == |s.buf| && s'.rqst == s.rqst
    ensures 1 <= s.rqst <= CHUNK ==> s'.modest == s.modest
    decreases n
  {
    hide ReadChunk;
    if n == 0 {
      RepeatNone(Served(1), tail);
      s' := s;
    } else {
      RepeatNext(Served(1), n, tail);
      var next := UnitsAnswered(word, dev, finish, s, 1);
      s' := Trickle(word, dev, finish, next, n - 1, tail);
    }
  }

  /** `n` refusals of the length. */
  lemma {:induction false} Shrinks(word: bool, dev: seq<byte>, finish: nat, s: Reading, n: nat, tail: seq<ReadEvent>)
    requires s.off < finish && RETRY_FLOOR + n < s.rqst < U32
    ensures ReadLoop(word, dev, finish, s, Repeat(TooLong, n) + tail)
         == ReadLoop(word, dev, finish, s.(rqst := s.rqst - n), tail)
    decreases n
  {
    if n == 0 {
      RepeatNone(TooLong, tail);
    } else {
      RepeatNext(TooLong, n, tail);
      assert (s.rqst - 1) % U32 == s.rqst - 1;
      Shrinks(word, dev, finish, s.(rqst := s.rqst - 1), n - 1, tail);
    }
  }

  /** The request size a run can be brought to: refusals take 0 through the 32-bit wrap to 16. */
  function Usable(rqst: nat): (n: nat)
    ensures 1 <= n <= CHUNK
  {
    if rqst == 0 then CHUNK else Capped(rqst)
  }

  lemma MadeUsable(word: bool, dev: seq<byte>, finish: nat, s: Reading, tail: seq<ReadEvent>)
    returns (script: seq<ReadEvent>)
    requires s.off < finish && s.rqst <= CHUNK
    ensures ReadLoop(word, dev, finish, s, script)
         == ReadLoop(word, dev, finish, s.(rqst := Usable(s.rqst)), tail)
  {
    if s.rqst > 0 {
      script := tail;
    } else {
      var n: nat := U32 - 1 - CHUNK;
      script := [TooLong] + (Repeat(TooLong, n) + tail);
      assert script[1..] == Repeat(TooLong, n) + tail;
      assert (0 - 1) % U32 == U32 - 1;
      Shrinks(word, dev, finish, s.(rqst := U32 - 1), n, tail);
    }
  }

  /** A run of `n` single units and one answer of `last` units that reaches the end. */
  lemma Finishing(word: bool, dev: seq<byte>, size: nat, offset: nat, length: nat, rqst: nat, buf: seq<byte>, n: nat,
                  last: byte)
    returns (script: seq<ReadEvent>)
    requires size < U16 && offset <= size && rqst < U32 && |dev| == |buf| == size && 1 <= last <= 2
    requires var finish, off := Finish(size, offset, length), offset + Unit(word) * n;
             off < finish <= off + Unit(word) * last <= size
    ensures var (r, s, _) := Read(word, dev, size, offset, length, rqst, buf, script);
            var off := offset + Unit(word) * n;
            && r == Full && s.off == off + Unit(word) * last
            && (last <= Usable(rqst) && last <= Finish(size, offset, length) - off ==> s.modest)
  {
    hide ReadChunk;
    var finish := Finish(size, offset, length);
    var s := Reading(offset, Usable(rqst), buf, true);
    var tail := [Served(last)];
    var s' := Trickle(word, dev, finish, s, n, tail);
    var s'' := UnitsAnswered(word, dev, finish, s', last);
    assert ReadLoop(word, dev, finish, s', tail) == (Full, s'', tail[1..]);
    script := MadeUsable(word, dev, finish, s.(rqst := Capped(rqst)), Repeat(Served(1), n) + tail);
  }

  /** A wrapped end offset lies before the start: 0 comes back for nothing. */
  lemma WrappedReads(word: bool, size: nat, offset: nat, length: nat, rqst: nat)
    requires size < U16 && offset < size && length < U32 <= offset + length && rqst < U32
    ensures var dev, buf := Fill(1, size), Fill(0, size);
            && Modest(word, dev, size, offset, length, rqst, buf, [Refused])
            && !ReadOut(word, dev, size, offset, length, rqst, buf, [Refused])
  {
    var dev, buf := Fill(1, size), Fill(0, size);
    assert Finish(size, offset, length) <= offset;
    assert Read(word, dev, size, offset, length, rqst, buf, [Refused])
           == (Full, Reading(offset, Capped(rqst), buf, true), []);
    assert buf[offset] != dev[offset];
  }

  // ----- when a finished read can be believed

  lemma EndOut(word: bool, dev: seq<byte>, size: nat, length: nat, rqst: nat, buf: seq<byte>, script: seq<ReadEvent>)
    requires size < U16 && |dev| == size
    ensures ReadOut(word, dev, size, size, length, rqst, buf, script)
  {
    hide ReadLoop;
    NothingToRead(word, dev, Finish(size, size, length), Reading(size, Capped(rqst), buf, true), script);
  }

  /** Exactly when the 0 of a finished byte-access read can be believed, for every device, buffer and
      modest run. */
  lemma ReadCondition(size: nat, offset: nat, length: nat, rqst: nat)
    requires size < U16 && offset <= size && length < U32 && rqst < U32
    ensures (forall dev, buf, script
               | |dev| == |buf| == size && Modest(false, dev, size, offset, length, rqst, buf, script) ::
               ReadOut(false, dev, size, offset, length, rqst, buf, script))
            <==> offset + length < U32 || offset == size
  {
    hide Read, ReadLoop;
    if offset + length < U32 || offset == size {
      forall dev: seq<byte>, buf, script
        | |dev| == |buf| == size && Modest(false, dev, size, offset, length, rqst, buf, script)
        ensures ReadOut(false, dev, size, offset, length, rqst, buf, script)
      {
        if offset + length < U32 {
          ReadExact(dev, size, offset, length, rqst, buf, script);
        } else {
          EndOut(false, dev, size, length, rqst, buf, script);
        }
      }
    } else {
      WrappedReads(false, size, offset, length, rqst);
    }
  }

  /** Device bytes behind the end show in the buffer. */
  lemma SpilledOver(buf: seq<byte>, base: nat, offset: nat, to: nat, finish: nat, size: nat)
    requires Filled(buf, Fill(0, size), Fill(1, size), base, offset, to) && offset <= finish < to
    ensures !Filled(buf, Fill(0, size), Fill(1, size), offset, offset, finish)
  {
    assert buf[finish] == 1;
  }

  /** The count of an answer is believed: one byte more than was asked for, at the end, spills over. */
  lemma Spills(size: nat, offset: nat, length: nat, rqst: nat) returns (script: seq<ReadEvent>)
    requires size < U16 && offset + length < size && rqst < U32
    ensures !ReadOut(false, Fill(1, size), size, offset, length, rqst, Fill(0, size), script)
  {
    hide Filled;
    var dev, buf := Fill(1, size), Fill(0, size);
    assert (offset + length) % U32 == offset + length;
    if length == 0 {
      var s := UnitsAnswered(false, dev, offset, Reading(offset, Capped(rqst), buf, true), 1);
      script := [Served(1)];
      assert Read(false, dev, size, offset, length, rqst, buf, script) == (Full, s, script[1..]);
    } else {
      script := Finishing(false, dev, size, offset, length, rqst, buf, length - 1, 2);
    }
    ReadOutcome(false, dev, size, offset, length, rqst, buf, script);
    var s := Read(false, dev, size, offset, length, rqst, buf, script).1;
    SpilledOver(s.buf, offset, offset, s.off, offset + length, size);
  }

  /** Exactly when it can be believed whatever the answers count: when the read goes to the end of the
      device, where there is nothing more to send. */
  lemma TrustCondition(size: nat, offset: nat, length: nat, rqst: nat)
    requires size < U16 && offset <= size && length < U32 && rqst < U32
    ensures (forall dev, buf, script | |dev| == |buf| == size ::
               ReadOut(false, dev, size, offset, length, rqst, buf, script))
            <==> offset == size || size <= offset + length < U32
  {
    hide Read, ReadLoop;
    if offset == size || size <= offset + length < U32 {
      forall dev: seq<byte>, buf, script | |dev| == |buf| == size
        ensures ReadOut(false, dev, size, offset, length, rqst, buf, script)
      {
        if offset == size {
          EndOut(false, dev, size, length, rqst, buf, script);
        } else {
          assert (offset + length) % U32 == offset + length;
          ReadOutcome(false, dev, size, offset, length, rqst, buf, script);
        }
      }
    } else if offset + length < size {
      var script := Spills(size, offset, length, rqst);
    } else {
      WrappedReads(false, size, offset, length, rqst);
    }
  }

  // ----- access by word

  /** The word reads whose 0 can be believed: at the device's end; up to it, from an even offset, or from
      an odd one that words never lead there from; nothing at all; and an even stretch from an even
      offset if nothing behind it fits a word, or if only single words are asked for. */
  predicate WordsReadTrue(size: nat, offset: nat, length: nat, rqst: nat)
    requires offset <= size
  {
    || offset == size
    || (&& offset + length < U32
        && if offset + length >= size then offset % 2 == 0 || (size - offset) % 2 == 1
           else length == 0 || (&& offset % 2 == 0 && length % 2 == 0
                                && (offset + length + 1 == size || rqst == 1)))
  }

  /** A request for nothing, answered with nothing. */
  lemma NothingAsked(word: bool, dev: seq<byte>, s: Reading, script: seq<ReadEvent>)
    ensures var s' := ReadLoop(word, dev, s.off, s, script).1; s'.modest ==> s'.buf == s.buf
  {
    assert Asked(s.off, s.off, s.rqst) == 0;
  }

  lemma WordsExact(dev: seq<byte>, size: nat, offset: nat, length: nat, rqst: nat, buf: seq<byte>,
                   script: seq<ReadEvent>)
    requires size < U16 && offset <= size && length < U32 && rqst < U32 && |dev| == |buf| == size
    requires WordsReadTrue(size, offset, length, rqst) && Modest(true, dev, size, offset, length, rqst, buf, script)
    ensures ReadOut(true, dev, size, offset, length, rqst, buf, script)
  {
    hide ReadLoop;
    var s := Reading(offset, Capped(rqst), buf, true);
    if offset == size {
      EndOut(true, dev, size, length, rqst, buf, script);
    } else {
      assert (offset + length) % U32 == offset + length;
      ReadOutcome(true, dev, size, offset, length, rqst, buf, script);
      if length == 0 {
        NothingAsked(true, dev, s, script);
      } else if offset + length < size && rqst == 1 {
        ModestStays(true, dev, offset + length, s, script);
      }
    }
  }

  /** From an odd offset, words bring the byte before it. */
  lemma OddMisses(size: nat, offset: nat, length: nat, rqst: nat) returns (dev: seq<byte>, script: seq<ReadEvent>)
    requires size < U16 && offset < size && 0 < length && offset + length < U32 && rqst < U32 && offset % 2 == 1
    requires offset + length < size || (size - offset) % 2 == 0
    ensures |dev| == size && Modest(true, dev, size, offset, length, rqst, Fill(0, size), script)
    ensures !ReadOut(true, dev, size, offset, length, rqst, Fill(0, size), script)
  {
    hide ReadLoop;
    dev := Fill(1, size)[offset := 0];
    assert (offset + length) % U32 == offset + length;
    var n := (Finish(size, offset, length) - offset - 1) / 2;
    script := Finishing(true, dev, size, offset, length, rqst, Fill(0, size), n, 1);
    ReadOutcome(true, dev, size, offset, length, rqst, Fill(0, size), script);
    assert Read(true, dev, size, offset, length, rqst, Fill(0, size), script).1.buf[offset] == 1;
  }

  /** From an even offset, the last answer spills over: of a whole word if the length is odd, and else
      because the bytes left are asked for as that many words, or for one word more than was asked. */
  lemma WordsSpill(size: nat, offset: nat, length: nat, rqst: nat) returns (script: seq<ReadEvent>)
    requires size < U16 && 0 < length && offset + length < size && rqst < U32 && offset % 2 == 0
    requires length % 2 == 1 || offset + length + 1 < size
    ensures length % 2 == 1 || rqst != 1 ==>
              Modest(true, Fill(1, size), size, offset, length, rqst, Fill(0, size), script)
    ensures !ReadOut(true, Fill(1, size), size, offset, length, rqst, Fill(0, size), script)
  {
    hide ReadLoop, Filled;
    var dev, buf := Fill(1, size), Fill(0, size);
    assert (offset + length) % U32 == offset + length;
    script := Finishing(true, dev, size, offset, length, rqst, buf, (length - 1) / 2, if length % 2 == 1 then 1 else 2);
    ReadOutcome(true, dev, size, offset, length, rqst, buf, script);
    var s := Read(true, dev, size, offset, length, rqst, buf, script).1;
    SpilledOver(s.buf, offset, offset, s.off, offset + length, size);
  }

  /** Exactly when the 0 of a finished read by word can be believed, for every device, buffer and modest
      run. */
  lemma WordCondition(size: nat, offset: nat, length: nat, rqst: nat)
    requires size < U16 && offset <= size && length < U32 && rqst < U32
    ensures (forall dev, buf, script
               | |dev| == |buf| == size && Modest(true, dev, size, offset, length, rqst, buf, script) ::
               ReadOut(true, dev, size, offset, length, rqst, buf, script))
            <==> WordsReadTrue(size, offset, length, rqst)
  {
    hide Read, ReadLoop, ReadOut, Modest;
    if WordsReadTrue(size, offset, length, rqst) {
      forall dev: seq<byte>, buf, script
        | |dev| == |buf| == size && Modest(true, dev, size, offset, length, rqst, buf, script)
        ensures ReadOut(true, dev, size, offset, length, rqst, buf, script)
      {
        WordsExact(dev, size, offset, length, rqst, buf, script);
      }
    } else if offset + length >= U32 {
      WrappedReads(true, size, offset, length, rqst);
    } else if offset % 2 == 1 {
      var dev, script := OddMisses(size, offset, length, rqst);
    } else {
      var script := WordsSpill(size, offset, length, rqst);
    }
  }

  /** The word reads whose 0 can be believed whatever the answers count: up to the device's end, or where
      no word behind the stretch fits before it. */
  predicate WordsTrusted(size: nat, offset: nat, length: nat)
    requires offset <= size
  {
    || offset == size
    || (&& offset + length < U32
        && if offset + length >= size then offset % 2 == 0 || (size - offset) % 2 == 1
           else offset + length + 1 == size && (length == 0 || (offset % 2 == 0 && length % 2 == 0)))
  }

  lemma WordsBounded(dev: seq<byte>, size: nat, offset: nat, length: nat, rqst: nat, buf: seq<byte>,
                     script: seq<ReadEvent>)
    requires size < U16 && offset <= size && length < U32 && rqst < U32 && |dev| == |buf| == size
    requires WordsTrusted(size, offset, length)
    ensures ReadOut(true, dev, size, offset, length, rqst, buf, script)
  {
    hide ReadLoop;
    if offset == size {
      EndOut(true, dev, size, length, rqst, buf, script);
    } else {
      assert (offset + length) % U32 == offset + length;
      ReadOutcome(true, dev, size, offset, length, rqst, buf, script);
    }
  }

  /** A word nobody asked for. */
  lemma WordUnasked(size: nat, offset: nat, rqst: nat)
    requires size < U16 && offset + 1 < size && rqst < U32
    ensures !ReadOut(true, Fill(1, size), size, offset, 0, rqst, Fill(0, size), [Served(1)])
  {
    hide Filled;
    var dev, buf, script := Fill(1, size), Fill(0, size), [Served(1)];
    assert offset % U32 == offset;
    var s := UnitsAnswered(true, dev, offset, Reading(offset, Capped(rqst), buf, true), 1);
    assert Read(true, dev, size, offset, 0, rqst, buf, script) == (Full, s, script[1..]);
    ReadOutcome(true, dev, size, offset, 0, rqst, buf, script);
    SpilledOver(s.buf, Base(true, offset), offset, s.off, offset, size);
  }

  /** Exactly when the 0 of a finished read by word can be believed whatever the answers count. */
  lemma WordTrustCondition(size: nat, offset: nat, length: nat, rqst: nat)
    requires size < U16 && offset <= size && length < U32 && rqst < U32
    ensures (forall dev, buf, script | |dev| == |buf| == size ::
               ReadOut(true, dev, size, offset, length, rqst, buf, script))
            <==> WordsTrusted(size, offset, length)
  {
    hide Read, ReadLoop, ReadOut;
    if WordsTrusted(size, offset, length) {
      forall dev: seq<byte>, buf, script | |dev| == |buf| == size
        ensures ReadOut(true, dev, size, offset, length, rqst, buf, script)
      {
        WordsBounded(dev, size, offset, length, rqst, buf, script);
      }
    } else if offset + length >= U32 {
      WrappedReads(true, size, offset, length, rqst);
    } else if length == 0 {
      WordUnasked(size, offset, rqst);
    } else if offset % 2 == 1 && (offset + length < size || (size - offset) % 2 == 0) {
      var dev, script := OddMisses(size, offset, length, rqst);
    } else {
      var script := WordsSpill(size, offset, length, rqst);
    }
  }

  // ----- what was written is read

  ghost predicate Contains(buf: seq<byte>, at: nat, src: seq<byte>) {
    at + |src| <= |buf| && buf[at..at + |src|] == src
  }

  lemma FilledHolds(buf: seq<byte>, init: seq<byte>, dev: seq<byte>, dev0: seq<byte>, base: nat, from: nat, to: nat,
                    src: seq<byte>)
    requires Filled(buf, init, dev, base, from, to) && Placed(dev, dev0, base, src) && src != [] && from + |src| <= to
    ensures Contains(buf, from, src)
  {
    forall k | 0 <= k < |src| ensures buf[from + k] == src[k] {
      assert buf[from + k] == dev[base + k];
    }
  }

  /** A device that holds `src` where a write to an offset puts it gives it back to every finished read
      from that offset. */
  lemma ReadBack(word: bool, src: seq<byte>, offset: nat, init: seq<byte>, dev: seq<byte>, rqst: nat, buf: seq<byte>,
                 answers: seq<ReadEvent>)
    requires Placed(dev, init, Base(word, offset), src) && src != [] && |dev| < U16 && rqst < U32
    requires offset + |src| <= |dev|
    ensures var (r, s, _) := Read(word, dev, |dev|, offset, |src|, rqst, buf, answers);
            r == Full ==> Contains(s.buf, offset, src) && (!word && s.modest ==> Placed(s.buf, buf, offset, src))
  {
    hide ReadLoop;
    ReadOutcome(word, dev, |dev|, offset, |src|, rqst, buf, answers);
    var (r, s, _) := Read(word, dev, |dev|, offset, |src|, rqst, buf, answers);
    assert (offset + |src|) % U32 == offset + |src|;
    if r == Full {
      FilledHolds(s.buf, buf, dev, init, Base(word, offset), offset, s.off, src);
      if !word {
        ReadExact(dev, |dev|, offset, |src|, rqst, buf, answers);
      }
    }
  }

  /** What was written is what is read back, for every pair of runs that report success, with full
      acknowledgements and any access to any offset; and nothing else changes in the buffer if access
      is by byte and the answers are modest. */
  lemma WriteThenRead(word: bool, src: seq<byte>, doffset: nat, dev: seq<byte>, script: seq<WriteEvent>, rqst: nat,
                      buf: seq<byte>, answers: seq<ReadEvent>)
    requires |dev| < U16 && doffset + |src| < U16 && rqst < U32
    requires FullAcks(script, |src|)
    ensures var (w, dev', _) := Write(word, src, doffset, |dev|, dev, script);
            var (r, s, _) := Read(word, dev', |dev|, doffset, |src|, rqst, buf, answers);
            src != [] && w == Returned(true) && r == Full ==>
              Contains(s.buf, doffset, src) && (!word && s.modest ==> Placed(s.buf, buf, doffset, src))
  {
    hide ReadLoop, WriteLoop, Contains;
    WriteExact(word, src, doffset, |dev|, dev, script);
    WriteOutcome(word, src, doffset, |dev|, dev, script);
    var (w, dev', _) := Write(word, src, doffset, |dev|, dev, script);
    if src != [] && w == Returned(true) {
      ReadBack(word, src, doffset, dev, dev', rqst, buf, answers);
    }
  }
}
