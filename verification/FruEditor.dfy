/** The multirecord walker and editor in the form of the program: loops over one byte buffer. */
module FruEditor {
  import opened Bytes
  import opened FruMultiRecord

  /** The 8-bit running sum of a stretch of the buffer. */
  method ByteSum(a: array<byte>, at: nat, n: nat) returns (checksum: byte)
    requires at + n <= a.Length
    ensures checksum == Sum(a[at..at + n]) % 256
  {
    checksum := 0;
    ghost var s := a[at..at + n];
    for index := 0 to n
      invariant checksum == Sum(s[..index]) % 256
    {
      SumStep8(s, index);
      checksum := (checksum as int + a[at + index] as int) % 256;
    }
    assert s[..n] == s;
  }

  method ReadHeader(a: array<byte>, count: nat) returns (h: Header)
    ensures h == HeaderAt(a[..], count)
  {
    if count + HEADER > a.Length {
      return Out;
    }
    var checksum := ByteSum(a, count, HEADER);
    assert a[..][count..count + HEADER] == a[count..count + HEADER];
    h := if checksum != 0 then Bad(a[count + 2]) else Good(a[count + 2], a[count + 1] >= LAST);
  }

  /** ipmi_fru_get_adjust_size_from_buffer.  If it has not ended after 65536 records it never does. */
  method AdjustSize(a: array<byte>) returns (m: Measure)
    ensures m == Measured(a[..])
    ensures m == Unfinished <==> forall steps :: Walk(Headers(a[..]), 0, steps) == Unfinished
  {
    hide Walk, HeaderAt;
    ghost var header := Headers(a[..]);
    WalkEnds(header, 0);
    var count: nat, left: nat := 0, U16;
    m := Unfinished;
    while m == Unfinished && left > 0
      invariant m == Unfinished ==> Walk(header, count, left) == Measured(a[..])
      invariant m != Unfinished ==> m == Measured(a[..])
    {
      WalkStep(header, count, left);
      var head := ReadHeader(a, count);
      if head == Out {
        m := Overrun;
      } else {
        count := (count + head.len + HEADER) % U16;
        if head.Bad? || head.last {
          m := Size(count, head.Good?);
        }
      }
      left := left - 1;
    }
    WalkNone(header, count);
  }

  /** Both checksums of the record at `at` stored in place. */
  method UpdateChecksums(a: array<byte>, at: nat)
    requires at + HEADER <= a.Length && at + HEADER + a[at + 2] <= a.Length
    modifies a
    ensures a[..] == Reseal(old(a[..]), at)
  {
    var length := a[at + 2];
    var sum := ByteSum(a, at + HEADER, length);
    assert a[..][at + HEADER..at + HEADER + length] == a[at + HEADER..at + HEADER + length];
    a[at + 3] := Neg(sum);
    ghost var b := a[..];
    assert b == old(a[..])[at + 3 := Neg(sum)];
    sum := ByteSum(a, at, HEADER - 1);
    assert b[at..at + 4] == a[at..at + 4];
    a[at + 4] := Neg(sum);
    assert a[..] == b[at + 4 := Neg(sum)];
  }

  /** How an edit ended. */
  datatype Status = Ok | Beyond | NoAnswer

  function StatusOf(e: Edit): (r: Status) {
    if e.Done? then Ok else if e.Overreach? then Beyond else NoAnswer
  }

  /** ipmi_fru_picmg_ext_edit, with the caller's test for a PICMG record. */
  method ExtEdit(a: array<byte>, at: nat, answers: Answers) returns (st: Status, rest: Answers)
    requires at + HEADER <= a.Length
    modifies a
    ensures var e := Visit(old(a[..]), at, answers);
            && st == StatusOf(e)
            && (e.Done? ==> a[..] == e.buf && rest == e.rest)
            && (!e.Done? ==> a[..] == old(a[..]))
  {
    st, rest := Ok, answers;
    if a[at] == OEM_EXTENSION {
      if at + HEADER + 4 > a.Length {
        st := Beyond;
      } else if Asks(a[..], at) {
        if answers == [] {
          st := NoAnswer;
        } else {
          rest := answers[1..];
          if answers[0].Some? {
            var x := at + HEADER + CURRENT_AT;
            if x + 2 > a.Length || at + HEADER + a[at + 2] > a.Length {
              st := Beyond;
            } else {
              a[x], a[x + 1] := answers[0].value.0, answers[0].value.1;
              assert a[..] == old(a[..])[x := answers[0].value.0][x + 1 := answers[0].value.1];
              UpdateChecksums(a, at);
            }
          }
        }
      }
    }
  }

  /** The loop over the records of a loaded area. */
  method EditArea(a: array<byte>, offset: nat, answers: Answers) returns (st: Status, rest: Answers)
    modifies a
    ensures var e := Pass(Visit, old(a[..]), offset, answers);
            st == StatusOf(e) && (e.Done? ==> a[..] == e.buf && rest == e.rest)
  {
    hide Visit;
    ghost var spec := Pass(Visit, a[..], offset, answers);
    var i, more := offset, true;
    st, rest := Ok, answers;
    while more
      invariant more ==> Pass(Visit, a[..], i, rest) == spec
      invariant !more ==> st == StatusOf(spec) && (spec.Done? ==> a[..] == spec.buf && rest == spec.rest)
      decreases more, a.Length - i
    {
      if i + HEADER > a.Length {
        st, more := Beyond, false;
      } else {
        st, rest := ExtEdit(a, i, rest);
        more := st == Ok && a[i + 1] < LAST;
        i := i + a[i + 2] + HEADER;
      }
    }
  }
}
