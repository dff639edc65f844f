/**
 The multirecord area of a FRU (section 16 of the IPMI FRU Information Storage Definition v1.0):
 a chain of records with two checksums each, the walker that measures a chain, and the editor that
 changes payload bytes in place and seals the record again.
 */
module FruMultiRecord {
  import opened Bytes

  const HEADER := 5
  const U16 := 0x1_0000
  const LAST := 0x80
  const OEM_EXTENSION := 0xc0
  const AMC_ACTIVATION := 0x17
  const CURRENT_AT := 5               // the current follows the five bytes of the OEM header
  const PICMG: seq<byte> := [0x5a, 0x31, 0x00]

  datatype Rec = Rec(kind: byte, format: byte, payload: seq<byte>)

  /** The two's complement of a byte sum. */
  function Neg(n: nat): (b: byte)
    ensures (n + b) % 256 == 0
  {
    var m := n % 256;
    assert n == 256 * (n / 256) + m;
    if m == 0 then 0 else assert n + (256 - m) == 256 * (n / 256 + 1); 256 - m
  }

  function Front(r: Rec): (result: seq<byte>) {
    [r.kind, r.format, |r.payload| % 256, Neg(Sum(r.payload))]
  }

  function Encode(r: Rec): (s: seq<byte>)
    ensures |s| == HEADER + |r.payload|
  {
    Front(r) + [Neg(Sum(Front(r)))] + r.payload
  }

  function Chain(rs: seq<Rec>): (r: seq<byte>) {
    if rs == [] then [] else Encode(rs[0]) + Chain(rs[1..])
  }

  /** Only the last record of a chain carries the end-of-list flag. */
  ghost predicate WellFormed(rs: seq<Rec>) {
    && rs != []
    && (forall k :: 0 <= k < |rs| ==> |rs[k].payload| < 256)
    && (forall k :: 0 <= k < |rs| ==> (rs[k].format >= LAST <==> k == |rs| - 1))
  }

  // ----- the walker

  /** What the walker makes of the header at an offset. */
  datatype Header = Good(len: nat, last: bool) | Bad(len: nat) | Out

  function HeaderAt(buf: seq<byte>, at: nat): (r: Header) {
    if at + HEADER > |buf| then Out
    else if Sum(buf[at..at + HEADER]) % 256 != 0 then Bad(buf[at + 2])
    else Good(buf[at + 2], buf[at + 1] >= LAST)
  }

  type Reader = nat -> Header

  function Headers(buf: seq<byte>): (r: Reader) {
    (at: nat) => HeaderAt(buf, at)
  }

  /** `good` tells whether every header summed to zero. */
  datatype Measure = Size(n: nat, good: bool) | Overrun | Unfinished

  /** ipmi_fru_get_adjust_size_from_buffer from a 16-bit `count`, for at most `steps` records. */
  function Walk(header: Reader, count: nat, steps: nat): (r: Measure)
    decreases steps
  {
    if steps == 0 then Unfinished
    else match header(count)
      case Out => Overrun
      case Bad(len) => Size((count + len + HEADER) % U16, false)
      case Good(len, last) =>
        if last then Size((count + len + HEADER) % U16, true) else Walk(header, (count + len + HEADER) % U16, steps - 1)
  }

  /** The walk over a buffer.  Unfinished means that it never ends (see WalkEnds). */
  function Measured(buf: seq<byte>): (m: Measure) {
    Walk(Headers(buf), 0, U16)
  }

  // ----- when the walk ends

  /** The walker goes on behind a good record that is not the last. */
  predicate Continues(header: Reader, count: nat) {
    header(count).Good? && !header(count).last
  }

  /** The count after `k` records. */
  function CountAfter(header: Reader, count: nat, k: nat): (c: nat)
    requires count < U16
    ensures c < U16
  {
    if k == 0 then count else
    var c := CountAfter(header, count, k - 1);
    if header(c).Good? then (c + header(c).len + HEADER) % U16 else c
  }

  lemma {:induction false} CountFromNext(header: Reader, count: nat, k: nat)
    requires count < U16 && header(count).Good?
    ensures CountAfter(header, (count + header(count).len + HEADER) % U16, k) == CountAfter(header, count, k + 1)
  {
    if k == 0 {
      assert CountAfter(header, count, 0) == count;
    } else {
      CountFromNext(header, count, k - 1);
    }
  }

  /** The walker goes on at each of the first counts. */
  ghost predicate GoesOn(header: Reader, count: nat, steps: nat)
    requires count < U16
  {
    forall k: nat :: k < steps ==> Continues(header, CountAfter(header, count, k))
  }

  lemma GoesOnNext(header: Reader, count: nat, steps: nat)
    requires count < U16 && Continues(header, count)
    ensures GoesOn(header, count, steps + 1) <==> GoesOn(header, (count + header(count).len + HEADER) % U16, steps)
  {
    var next := (count + header(count).len + HEADER) % U16;
    forall k: nat ensures CountAfter(header, next, k) == CountAfter(header, count, k + 1) {
      CountFromNext(header, count, k);
    }
    if GoesOn(header, next, steps) {
      forall k: nat | k < steps + 1 ensures Continues(header, CountAfter(header, count, k)) {
        if k > 0 {
          assert CountAfter(header, next, k - 1) == CountAfter(header, count, k);
        }
      }
    }
  }

  /** A walk is unfinished as long as it goes on at every count it comes to. */
  lemma {:induction false} WalkContinues(header: Reader, count: nat, steps: nat)
    requires count < U16
    ensures Walk(header, count, steps) == Unfinished <==> GoesOn(header, count, steps)
    decreases steps
  {
    if steps > 0 {
      if Continues(header, count) {
        GoesOnNext(header, count, steps - 1);
        WalkContinues(header, (count + header(count).len + HEADER) % U16, steps - 1);
      } else {
        assert CountAfter(header, count, 0) == count;
      }
    }
  }

  /** More numbers below `n` than `n`: two are the same. */
  lemma {:induction false} Pigeonhole(s: seq<nat>, n: nat) returns (i: nat, j: nat)
    requires |s| > n && forall k :: 0 <= k < |s| ==> s[k] < n
    ensures i < j < |s| && s[i] == s[j]
    decreases n
  {
    assert s[0] < n;
    if n - 1 !in s {
      i, j := Pigeonhole(s, n - 1);
    } else {
      var at: nat :| at < |s| && s[at] == n - 1;
      if n - 1 in s[at + 1..] {
        i := at;
        j :| at < j < |s| && s[j] == n - 1;
      } else if n - 1 in s[..at] {
        j := at;
        i :| 0 <= i < at && s[i] == n - 1;
      } else {
        var rest := s[..at] + s[at + 1..];
        i, j := Pigeonhole(rest, n - 1);
        i, j := if i < at then i else i + 1, if j < at then j else j + 1;
      }
    }
  }

  lemma {:induction false} SameCount(header: Reader, count: nat, i: nat, j: nat, k: nat)
    requires count < U16 && CountAfter(header, count, i) == CountAfter(header, count, j)
    ensures CountAfter(header, count, i + k) == CountAfter(header, count, j + k)
    decreases k
  {
    if k > 0 {
      SameCount(header, count, i, j, k - 1);
    }
  }

  /** Once a count comes back, the walk goes round. */
  lemma {:induction false} GoesRound(header: Reader, count: nat, i: nat, j: nat, k: nat)
    requires count < U16 && i < j && CountAfter(header, count, i) == CountAfter(header, count, j)
    requires GoesOn(header, count, j)
    ensures Continues(header, CountAfter(header, count, k))
    decreases k
  {
    if k >= j {
      SameCount(header, count, i, j, k - j);
      GoesRound(header, count, i, j, i + (k - j));
    }
  }

  lemma {:induction false} WalkStable(header: Reader, count: nat, steps: nat, more: nat)
    requires Walk(header, count, steps) != Unfinished && steps <= more
    ensures Walk(header, count, more) == Walk(header, count, steps)
    decreases steps
  {
    if Continues(header, count) {
      WalkStable(header, (count + header(count).len + HEADER) % U16, steps - 1, more - 1);
    }
  }

  /** A walk that has not ended after 65536 records has not ended after any number. */
  lemma WalkStays(header: Reader, count: nat, steps: nat)
    requires count < U16 && Walk(header, count, U16) == Unfinished
    ensures Walk(header, count, steps) == Unfinished
  {
    hide Walk, Continues;
    WalkContinues(header, count, U16);
    var counts := seq(U16 + 1, k requires 0 <= k => CountAfter(header, count, k));
    var i, j := Pigeonhole(counts, U16);
    assert counts[i] == CountAfter(header, count, i) && counts[j] == CountAfter(header, count, j);
    forall k: nat | k < steps ensures Continues(header, CountAfter(header, count, k)) {
      GoesRound(header, count, i, j, k);
    }
    WalkContinues(header, count, steps);
  }

  /** The walk ends if and only if it ends within 65536 records, and more change nothing: the 16-bit
      count has no more values. */
  lemma WalkEnds(header: Reader, count: nat)
    requires count < U16
    ensures (exists steps :: Walk(header, count, steps) != Unfinished) <==> Walk(header, count, U16) != Unfinished
    ensures Walk(header, count, U16) != Unfinished ==>
              forall steps :: steps >= U16 ==> Walk(header, count, steps) == Walk(header, count, U16)
  {
    hide Walk;
    if Walk(header, count, U16) == Unfinished {
      forall steps ensures Walk(header, count, steps) == Unfinished {
        WalkStays(header, count, steps);
      }
    } else {
      forall steps | steps >= U16 ensures Walk(header, count, steps) == Walk(header, count, U16) {
        WalkStable(header, count, U16, steps);
      }
    }
  }

  lemma WalkNone(header: Reader, count: nat)
    ensures Walk(header, count, 0) == Unfinished
  {
  }

  /** One record of a walk. */
  lemma WalkStep(header: Reader, count: nat, steps: nat)
    requires steps > 0
    ensures Walk(header, count, steps)
         == if header(count) == Out then Overrun else
            var next := (count + header(count).len + HEADER) % U16;
            if Continues(header, count) then Walk(header, next, steps - 1) else Size(next, header(count).Good?)
  {
  }

  // ----- measuring a chain

  /** What stands where a record was encoded, and that its two checksums hold. */
  lemma RecordAt(pre: seq<byte>, r: Rec, post: seq<byte>)
    requires |r.payload| < 256
    ensures var buf, at := pre + Encode(r) + post, |pre|;
            && buf[at..at + HEADER] == Front(r) + [Neg(Sum(Front(r)))]
            && buf[at + HEADER..at + HEADER + |r.payload|] == r.payload
            && buf[at] == r.kind && buf[at + 1] == r.format && buf[at + 2] == |r.payload|
            && Sum(buf[at..at + HEADER]) % 256 == 0
            && (buf[at + 3] + Sum(buf[at + HEADER..at + HEADER + |r.payload|])) % 256 == 0
  {
    var buf, at := pre + Encode(r) + post, |pre|;
    assert buf[at..at + HEADER] == Front(r) + [Neg(Sum(Front(r)))];
    assert buf[at + HEADER..at + HEADER + |r.payload|] == r.payload;
    assert buf[at + 3] == Neg(Sum(r.payload));
    SumConcat(Front(r), [Neg(Sum(Front(r)))]);
  }

  lemma ChainOne(r: Rec)
    ensures Chain([r]) == Encode(r)
  {
    assert Encode(r) + [] == Encode(r);
  }

  lemma {:induction false} ChainConcat(a: seq<Rec>, b: seq<Rec>)
    ensures Chain(a + b) == Chain(a) + Chain(b)
    decreases |a|
  {
    if a == [] {
      assert a + b == b;
    } else {
      assert (a + b)[1..] == a[1..] + b;
      ChainConcat(a[1..], b);
    }
  }

  lemma SplitSeq<T>(s: seq<T>, i: nat)
    requires i < |s|
    ensures s == s[..i + 1] + s[i + 1..] && s[..i + 1] == s[..i] + [s[i]]
  {
  }

  /** Where record `i` starts, and where the next one does. */
  lemma SplitAt(rs: seq<Rec>, i: nat)
    requires i < |rs|
    ensures Chain(rs) == Chain(rs[..i]) + Encode(rs[i]) + Chain(rs[i + 1..])
    ensures Chain(rs[..i + 1]) == Chain(rs[..i]) + Encode(rs[i])
  {
    SplitSeq(rs, i);
    ChainConcat(rs[..i + 1], rs[i + 1..]);
    ChainConcat(rs[..i], [rs[i]]);
    ChainOne(rs[i]);
  }

  /** Where record `i` of a chain starts. */
  ghost function Offset(rs: seq<Rec>, i: nat): (r: nat)
    requires i <= |rs|
  {
    if i == 0 then 0 else Offset(rs, i - 1) + HEADER + |rs[i - 1].payload|
  }

  lemma {:induction false} OffsetChain(rs: seq<Rec>, i: nat)
    requires i <= |rs|
    ensures Offset(rs, i) == |Chain(rs[..i])|
  {
    if i > 0 {
      SplitAt(rs, i - 1);
      OffsetChain(rs, i - 1);
    }
  }

  lemma OffsetAll(rs: seq<Rec>)
    ensures Offset(rs, |rs|) == |Chain(rs)|
  {
    OffsetChain(rs, |rs|);
    assert rs[..|rs|] == rs;
  }

  lemma {:induction false} OffsetGrows(rs: seq<Rec>, i: nat, j: nat)
    requires i <= j <= |rs|
    ensures Offset(rs, i) + HEADER * (j - i) <= Offset(rs, j)
    decreases j
  {
    if i < j {
      OffsetGrows(rs, i, j - 1);
    }
  }

  /** The headers of a chain are where its records start. */
  ghost predicate Marks(header: Reader, rs: seq<Rec>) {
    forall i {:trigger header(Offset(rs, i))} :: 0 <= i < |rs| ==>
      header(Offset(rs, i)) == Good(|rs[i].payload|, rs[i].format >= LAST)
  }

  lemma AroundRecord(rs: seq<Rec>, i: nat, post: seq<byte>)
    requires i < |rs|
    ensures Chain(rs) + post == Chain(rs[..i]) + Encode(rs[i]) + (Chain(rs[i + 1..]) + post)
  {
    SplitAt(rs, i);
    Regroup(Chain(rs[..i]), Encode(rs[i]), Chain(rs[i + 1..]), post);
  }

  lemma HeaderOf(buf: seq<byte>, pre: seq<byte>, r: Rec, post: seq<byte>)
    requires buf == pre + Encode(r) + post && |r.payload| < 256
    ensures HeaderAt(buf, |pre|) == Good(|r.payload|, r.format >= LAST)
  {
    RecordAt(pre, r, post);
  }

  lemma MarkAt(rs: seq<Rec>, i: nat, post: seq<byte>)
    requires i < |rs| && |rs[i].payload| < 256
    ensures HeaderAt(Chain(rs) + post, Offset(rs, i)) == Good(|rs[i].payload|, rs[i].format >= LAST)
  {
    OffsetChain(rs, i);
    AroundRecord(rs, i, post);
    HeaderOf(Chain(rs) + post, Chain(rs[..i]), rs[i], Chain(rs[i + 1..]) + post);
  }

  lemma ChainMarks(rs: seq<Rec>, post: seq<byte>)
    requires forall i :: 0 <= i < |rs| ==> |rs[i].payload| < 256
    ensures Marks(Headers(Chain(rs) + post), rs)
  {
    forall i | 0 <= i < |rs|
      ensures Headers(Chain(rs) + post)(Offset(rs, i)) == Good(|rs[i].payload|, rs[i].format >= LAST)
    {
      MarkAt(rs, i, post);
    }
  }

  lemma {:induction false} WalkMarks(header: Reader, rs: seq<Rec>, i: nat, steps: nat)
    requires Marks(header, rs) && WellFormed(rs) && i < |rs| && steps >= |rs| - i && Offset(rs, |rs|) < U16
    ensures Walk(header, Offset(rs, i), steps) == Size(Offset(rs, |rs|), true)
    decreases steps
  {
    OffsetGrows(rs, i + 1, |rs|);
    assert Offset(rs, i + 1) == Offset(rs, i) + HEADER + |rs[i].payload|;
    if i + 1 < |rs| {
      WalkMarks(header, rs, i + 1, steps - 1);
    }
  }

  /** The walker accepts a well-formed chain and counts its bytes, whatever follows it. */
  lemma WalkChain(rs: seq<Rec>, post: seq<byte>, steps: nat)
    requires WellFormed(rs) && steps >= |rs| && |Chain(rs)| < U16
    ensures Walk(Headers(Chain(rs) + post), 0, steps) == Size(|Chain(rs)|, true)
  {
    ChainMarks(rs, post);
    OffsetAll(rs);
    WalkMarks(Headers(Chain(rs) + post), rs, 0, steps);
  }

  lemma {:induction false} WalkBounded(header: Reader, count: nat, steps: nat)
    ensures Walk(header, count, steps).Size? ==> Walk(header, count, steps).n < U16
    decreases steps
  {
    if steps > 0 && header(count).Good? {
      WalkBounded(header, (count + header(count).len + HEADER) % U16, steps - 1);
    }
  }

  /** Exactly when the measured size is the size: a chain of 65536 bytes or more never is. */
  lemma WalkCondition(rs: seq<Rec>, post: seq<byte>)
    requires WellFormed(rs)
    ensures Measured(Chain(rs) + post) == Size(|Chain(rs)|, true) <==> |Chain(rs)| < U16
  {
    if |Chain(rs)| < U16 {
      OffsetAll(rs);
      OffsetGrows(rs, 0, |rs|);
      WalkChain(rs, post, U16);
    } else {
      WalkBounded(Headers(Chain(rs) + post), 0, U16);
    }
  }

  lemma {:induction false} WalkRound(header: Reader, rs: seq<Rec>, i: nat, steps: nat)
    requires Marks(header, rs) && i < |rs| && Offset(rs, |rs|) == U16
    requires forall k :: 0 <= k < |rs| ==> |rs[k].payload| < 256 && rs[k].format < LAST
    ensures Walk(header, Offset(rs, i), steps) == Unfinished
    decreases steps
  {
    if steps > 0 {
      OffsetGrows(rs, i + 1, |rs|);
      assert Offset(rs, i + 1) == Offset(rs, i) + HEADER + |rs[i].payload|;
      WalkRound(header, rs, if i + 1 < |rs| then i + 1 else 0, steps - 1);
    }
  }

  /** Without an end flag in exactly 65536 bytes the walker goes round for ever. */
  lemma WalkEndless(rs: seq<Rec>, post: seq<byte>, steps: nat)
    requires |Chain(rs)| == U16 && forall k :: 0 <= k < |rs| ==> |rs[k].payload| < 256 && rs[k].format < LAST
    ensures Walk(Headers(Chain(rs) + post), 0, steps) == Unfinished
  {
    ChainMarks(rs, post);
    OffsetAll(rs);
    WalkRound(Headers(Chain(rs) + post), rs, 0, steps);
  }

  // ----- sealing a record

  /** Both checksums of the record at `at` recomputed, the payload's first. */
  function Reseal(buf: seq<byte>, at: nat): (r: seq<byte>)
    requires at + HEADER <= |buf| && at + HEADER + buf[at + 2] <= |buf|
    ensures |r| == |buf|
  {
    var start := at + HEADER;
    var b := buf[at + 3 := Neg(Sum(buf[start..start + buf[at + 2]]))];
    b[at + 4 := Neg(Sum(b[at..at + 4]))]
  }

  /** A header byte changed in place. */
  lemma HeaderByte(pre: seq<byte>, h: seq<byte>, payload: seq<byte>, post: seq<byte>, k: nat, v: byte)
    requires |h| == HEADER && k < HEADER
    ensures (pre + (h + payload) + post)[|pre| + k := v] == pre + (h[k := v] + payload) + post
    ensures (pre + (h + payload) + post)[|pre|..|pre| + 4] == h[..4]
    ensures (pre + (h + payload) + post)[|pre| + HEADER..|pre| + HEADER + |payload|] == payload
    ensures (pre + (h + payload) + post)[|pre| + 2] == h[2]
  {
  }

  /** Whatever the checksums were, sealing gives the encoding of the record, in its place. */
  lemma ResealEncodes(pre: seq<byte>, r: Rec, x: byte, y: byte, post: seq<byte>)
    requires |r.payload| < 256
    ensures var buf := pre + ([r.kind, r.format, |r.payload|, x, y] + r.payload) + post;
            Reseal(buf, |pre|) == pre + Encode(r) + post
  {
    var h: seq<byte> := [r.kind, r.format, |r.payload|, x, y];
    HeaderByte(pre, h, r.payload, post, 3, Neg(Sum(r.payload)));
    var h' := h[3 := Neg(Sum(r.payload))];
    HeaderByte(pre, h', r.payload, post, 4, Neg(Sum(Front(r))));
    assert h'[..4] == Front(r);
    assert h'[4 := Neg(Sum(Front(r)))] == Front(r) + [Neg(Sum(Front(r)))];
  }

  // ----- editing

  /** Two new bytes for the current of the record at `at`, and the record sealed. */
  function EditCurrent(buf: seq<byte>, at: nat, v: (byte, byte)): (r: seq<byte>)
    requires at + HEADER + CURRENT_AT + 2 <= |buf| && at + HEADER + buf[at + 2] <= |buf|
    ensures |r| == |buf|
  {
    var x := at + HEADER + CURRENT_AT;
    Reseal(buf[x := v.0][x + 1 := v.1], at)
  }

  function WithCurrent(r: Rec, v: (byte, byte)): (r': Rec)
    requires |r.payload| >= CURRENT_AT + 2
    ensures |r'.payload| == |r.payload|
  {
    r.(payload := r.payload[CURRENT_AT := v.0][CURRENT_AT + 1 := v.1])
  }

  lemma EditEncodes(pre: seq<byte>, r: Rec, v: (byte, byte), post: seq<byte>)
    requires CURRENT_AT + 2 <= |r.payload| < 256
    ensures EditCurrent(pre + Encode(r) + post, |pre|, v) == pre + Encode(WithCurrent(r, v)) + post
  {
    var r' := WithCurrent(r, v);
    var buf: seq<byte>, x := pre + Encode(r) + post, |pre| + HEADER + CURRENT_AT;
    var head: seq<byte> := [r.kind, r.format, |r.payload|, Neg(Sum(r.payload)), Neg(Sum(Front(r)))];
    assert Encode(r) == head + r.payload;
    assert buf[x := v.0][x + 1 := v.1] == pre + (head + r'.payload) + post;
    ResealEncodes(pre, r', head[3], head[4], post);
  }

  /** Whether an edit leaves everything outside its record alone. */
  ghost predicate Contained(buf: seq<byte>, at: nat, v: (byte, byte))
    requires at + HEADER + CURRENT_AT + 2 <= |buf| && at + HEADER + buf[at + 2] <= |buf|
  {
    forall k :: 0 <= k < |buf| && !(at <= k < at + HEADER + buf[at + 2]) ==> EditCurrent(buf, at, v)[k] == buf[k]
  }

  /** The record length is not looked at: an edit is contained, whatever is entered, exactly if
      the payload has room for the current. */
  lemma EditCondition(buf: seq<byte>, at: nat)
    requires at + HEADER + CURRENT_AT + 2 <= |buf| && at + HEADER + buf[at + 2] <= |buf|
    ensures (forall v :: Contained(buf, at, v)) <==> buf[at + 2] >= CURRENT_AT + 2
  {
    if buf[at + 2] < CURRENT_AT + 2 {
      var x := at + HEADER + CURRENT_AT + 1;
      var v: (byte, byte) := (0, if buf[x] == 0 then 1 else 0);
      assert EditCurrent(buf, at, v)[x] == v.1;
      assert !Contained(buf, at, v);
    }
  }

  /** The operator's answers, one for each activation record met. */
  type Answers = seq<Option<(byte, byte)>>

  datatype Edit = Done(buf: seq<byte>, rest: Answers) | Overreach | Waiting

  /** Whether the record at `at` is a PICMG activation record. */
  predicate Asks(buf: seq<byte>, at: nat)
    requires at + HEADER + 4 <= |buf|
  {
    && buf[at] == OEM_EXTENSION && buf[at + HEADER..at + HEADER + 3] == PICMG
    && buf[at + HEADER + 3] == AMC_ACTIVATION
  }

  /** What is done to one record: nothing, or the current replaced if the operator wants that. */
  function Visit(buf: seq<byte>, at: nat, answers: Answers): (e: Edit)
    ensures e.Done? ==> |e.buf| == |buf|
  {
    if at + HEADER > |buf| then Overreach
    else if buf[at] != OEM_EXTENSION then Done(buf, answers)
    else if at + HEADER + 4 > |buf| then Overreach
    else if !Asks(buf, at) then Done(buf, answers)
    else if answers == [] then Waiting
    else if answers[0].None? then Done(buf, answers[1..])
    else if at + HEADER + CURRENT_AT + 2 > |buf| || at + HEADER + buf[at + 2] > |buf| then Overreach
    else Done(EditCurrent(buf, at, answers[0].value), answers[1..])
  }

  type Visitor = (seq<byte>, nat, Answers) -> Edit

  ghost predicate KeepsLength(visit: Visitor) {
    forall buf, at, answers :: visit(buf, at, answers).Done? ==> |visit(buf, at, answers).buf| == |buf|
  }

  /** The loop over a loaded area, record by record up to the one with the end flag. */
  function Pass(visit: Visitor, buf: seq<byte>, at: nat, answers: Answers): (r: Edit)
    requires KeepsLength(visit)
    decreases |buf| - at
  {
    if at + HEADER > |buf| then Overreach
    else
      var e := visit(buf, at, answers);
      if !e.Done? || e.buf[at + 1] >= LAST then e
      else Pass(visit, e.buf, at + e.buf[at + 2] + HEADER, e.rest)
  }

  ghost predicate Activation(r: Rec) {
    r.kind == OEM_EXTENSION && |r.payload| >= 4 && r.payload[..3] == PICMG && r.payload[3] == AMC_ACTIVATION
  }

  /** The records an edit is safe on: an OEM header is complete, and a current is where it belongs. */
  ghost predicate Roomy(r: Rec) {
    r.kind == OEM_EXTENSION ==> |r.payload| >= if Activation(r) then CURRENT_AT + 2 else 4
  }

  /** The edit seen on records. */
  ghost function EditRecord(r: Rec, answers: Answers): (result: Option<(Rec, Answers)>)
    requires Roomy(r)
  {
    if !Activation(r) then Some((r, answers))
    else if answers == [] then None
    else Some((if answers[0].None? then r else WithCurrent(r, answers[0].value), answers[1..]))
  }

  ghost function EditRecords(rs: seq<Rec>, answers: Answers): (r: Option<(seq<Rec>, Answers)>)
    requires forall k :: 0 <= k < |rs| ==> Roomy(rs[k])
  {
    if rs == [] then Some((rs, answers))
    else match EditRecord(rs[0], answers)
      case None => None
      case Some((r, rest)) =>
        match EditRecords(rs[1..], rest)
        case None => None
        case Some((tail, rest')) => Some(([r] + tail, rest'))
  }

  /** A visit does to the bytes of a record what EditRecord does to the record. */
  ghost predicate Follows(visit: Visitor, pre: seq<byte>, r: Rec, post: seq<byte>, answers: Answers)
    requires Roomy(r)
  {
    var e := EditRecord(r, answers);
    visit(pre + Encode(r) + post, |pre|, answers)
    == if e.None? then Waiting else Done(pre + Encode(e.value.0) + post, e.value.1)
  }

  lemma VisitEncodes(pre: seq<byte>, r: Rec, post: seq<byte>, answers: Answers)
    requires Roomy(r) && |r.payload| < 256
    ensures Follows(Visit, pre, r, post, answers)
  {
    var buf, at := pre + Encode(r) + post, |pre|;
    RecordAt(pre, r, post);
    if r.kind == OEM_EXTENSION {
      assert buf[at + HEADER..at + HEADER + 3] == r.payload[..3];
      assert buf[at + HEADER + 3] == r.payload[3];
      assert Asks(buf, at) <==> Activation(r);
      if Activation(r) && answers != [] && answers[0].Some? {
        EditEncodes(pre, r, answers[0].value, post);
      }
    }
  }

  lemma PassStep(visit: Visitor, pre: seq<byte>, r: Rec, post: seq<byte>, answers: Answers, r': Rec, rest: Answers)
    requires KeepsLength(visit) && Roomy(r) && |r.payload| < 256
    requires Follows(visit, pre, r, post, answers) && EditRecord(r, answers) == Some((r', rest))
    ensures Pass(visit, pre + Encode(r) + post, |pre|, answers)
         == var buf := pre + Encode(r') + post;
            if r.format >= LAST then Done(buf, rest) else Pass(visit, buf, |pre + Encode(r')|, rest)
  {
    RecordAt(pre, r', post);
  }

  lemma LastEdit(r: Rec, r': Rec, answers: Answers, rest: Answers)
    requires Roomy(r) && EditRecord(r, answers) == Some((r', rest))
    ensures EditRecords([r], answers) == Some(([r'], rest)) && Chain([r']) == Encode(r')
  {
    ChainOne(r');
    assert [r][1..] == [] && [r'] + [] == [r'];
  }

  /** Editing the bytes of a chain is editing its records: the result is again a chain, sealed
      throughout, with the same lengths, in the same place. */
  lemma {:induction false} PassChain(visit: Visitor, pre: seq<byte>, rs: seq<Rec>, post: seq<byte>, answers: Answers)
    requires KeepsLength(visit) && WellFormed(rs) && forall k :: 0 <= k < |rs| ==> Roomy(rs[k])
    requires forall pre, r, post, answers :: Roomy(r) && |r.payload| < 256 ==> Follows(visit, pre, r, post, answers)
    ensures var e := EditRecords(rs, answers);
            Pass(visit, pre + Chain(rs) + post, |pre|, answers)
            == if e.None? then Waiting else Done(pre + Chain(e.value.0) + post, e.value.1)
    decreases |rs|
  {
    var r, tail := rs[0], Chain(rs[1..]);
    Regroup(pre, Encode(r), tail, post);
    assert Follows(visit, pre, r, tail + post, answers);
    var e := EditRecord(r, answers);
    if e.Some? {
      var (r', rest) := e.value;
      Regroup(pre, Encode(r'), tail, post);
      PassStep(visit, pre, r, tail + post, answers, r', rest);
      if |rs| == 1 {
        assert rs == [r];
        LastEdit(r, r', answers, rest);
        assert Encode(r') + tail == Encode(r');
      } else {
        PassChain(visit, pre + Encode(r'), rs[1..], post, rest);
        var f := EditRecords(rs[1..], rest);
        if f.Some? {
          assert ([r'] + f.value.0)[1..] == f.value.0;
          Regroup(pre, Encode(r'), Chain(f.value.0), post);
        }
      }
    }
  }

  lemma EditPassChain(pre: seq<byte>, rs: seq<Rec>, post: seq<byte>, answers: Answers)
    requires WellFormed(rs) && forall k :: 0 <= k < |rs| ==> Roomy(rs[k])
    ensures var e := EditRecords(rs, answers);
            Pass(Visit, pre + Chain(rs) + post, |pre|, answers)
            == if e.None? then Waiting else Done(pre + Chain(e.value.0) + post, e.value.1)
  {
    forall pre, r, post, answers | Roomy(r) && |r.payload| < 256 ensures Follows(Visit, pre, r, post, answers) {
      VisitEncodes(pre, r, post, answers);
    }
    PassChain(Visit, pre, rs, post, answers);
  }

  ghost predicate SameShape(rs: seq<Rec>, rs': seq<Rec>) {
    && |rs'| == |rs|
    && (forall k :: 0 <= k < |rs| ==>
          && rs'[k].kind == rs[k].kind && rs'[k].format == rs[k].format && |rs'[k].payload| == |rs[k].payload|
          && (!Activation(rs[k]) ==> rs'[k] == rs[k]))
  }

  /** Editing changes no type, flag or length, and nothing but activation records. */
  lemma {:induction false} EditRecordsShape(rs: seq<Rec>, answers: Answers)
    requires forall k :: 0 <= k < |rs| ==> Roomy(rs[k])
    ensures var e := EditRecords(rs, answers);
            e.Some? ==> SameShape(rs, e.value.0) && |Chain(e.value.0)| == |Chain(rs)|
  {
    if rs != [] {
      var e := EditRecord(rs[0], answers);
      if e.Some? {
        EditRecordsShape(rs[1..], e.value.1);
        var f := EditRecords(rs[1..], e.value.1);
        if f.Some? {
          assert ([e.value.0] + f.value.0)[1..] == f.value.0;
        }
      }
    }
  }

  lemma NoPrefix(rs: seq<Rec>, post: seq<byte>)
    ensures [] + Chain(rs) + post == Chain(rs) + post
  {
  }

  lemma ShapeWellFormed(rs: seq<Rec>, rs': seq<Rec>)
    requires WellFormed(rs) && SameShape(rs, rs')
    ensures WellFormed(rs')
  {
  }

  /** After any edit of a chain below 64 KiB the walker still measures it exactly. */
  lemma EditedChainWalks(rs: seq<Rec>, post: seq<byte>, answers: Answers)
    requires WellFormed(rs) && |Chain(rs)| < U16 && forall k :: 0 <= k < |rs| ==> Roomy(rs[k])
    ensures var e := Pass(Visit, Chain(rs) + post, 0, answers);
            e.Done? ==> Measured(e.buf) == Size(|Chain(rs)|, true)
  {
    EditPassChain([], rs, post, answers);
    NoPrefix(rs, post);
    EditRecordsShape(rs, answers);
    var e := EditRecords(rs, answers);
    if e.Some? {
      NoPrefix(e.value.0, post);
      ShapeWellFormed(rs, e.value.0);
      WalkCondition(e.value.0, post);
    }
  }
}
