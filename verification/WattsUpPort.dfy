/**
 The packet writer and parser in the form of the program: one 256-byte buffer, filled from the
 front, and cut into strings in place by overwriting separators with NUL.
 */
module WattsUpPort {
  import opened CString
  import opened WattsUp

  /** The C string that starts at `s`. */
  function StringAt(b: Text, s: nat): (r: Text)
    requires s <= |b|
  {
    b[s..][..Find(b[s..], NUL)]
  }

  /** A string is where its characters are and a NUL, or the end, follows. */
  lemma StringIs(b: Text, s: nat, t: Text)
    requires s + |t| <= |b| && b[s..s + |t|] == t
    requires (forall i :: 0 <= i < |t| ==> t[i] != NUL) && (s + |t| < |b| ==> b[s + |t|] == NUL)
    ensures StringAt(b, s) == t
  {
    assert forall i :: 0 <= i < |t| ==> b[s..][i] == t[i];
    assert Find(b[s..], NUL) == |t|;
  }

  lemma StringFacts(b: Text, s: nat)
    requires s <= |b|
    ensures var t := StringAt(b, s);
            && s + |t| <= |b| && b[s..s + |t|] == t
            && (forall i :: 0 <= i < |t| ==> t[i] != NUL) && (s + |t| < |b| ==> b[s + |t|] == NUL)
  {
    var n := Find(b[s..], NUL);
    assert b[s..][..n] == b[s..s + n];
  }

  lemma StringSuffix(b: Text, s: nat, j: nat)
    requires s <= |b| && j <= |StringAt(b, s)|
    ensures s + j <= |b| && StringAt(b, s + j) == StringAt(b, s)[j..]
  {
    StringFacts(b, s);
    StringIs(b, s + j, StringAt(b, s)[j..]);
  }

  /** A NUL before a string leaves it alone. */
  lemma StringBehind(b: Text, k: nat, s: nat)
    requires k < s <= |b|
    ensures StringAt(b[k := NUL], s) == StringAt(b, s)
  {
    assert b[k := NUL][s..] == b[s..];
  }

  /** A NUL inside a string makes two of it. */
  lemma StringCut(b: Text, s: nat, k: nat)
    requires s <= |b| && k < |StringAt(b, s)|
    ensures s + k < |b| && StringAt(b[s + k := NUL], s) == StringAt(b, s)[..k]
    ensures StringAt(b[s + k := NUL], s + k + 1) == StringAt(b, s)[k + 1..]
  {
    StringFacts(b, s);
    StringSuffix(b, s, k + 1);
    StringIs(b[s + k := NUL], s, StringAt(b, s)[..k]);
    StringBehind(b, s + k, s + k + 1);
  }

  /** A NUL behind a string leaves it alone. */
  lemma StringKept(b: Text, s: nat, k: nat)
    requires s <= |b| && s + |StringAt(b, s)| < k < |b|
    ensures StringAt(b[k := NUL], s) == StringAt(b, s)
  {
    StringFacts(b, s);
    StringIs(b[k := NUL], s, StringAt(b, s));
  }

  /** Fields read so far, and what is still to come. */
  function Prepend(list: seq<Text>, r: Fields): (result: Fields) {
    if r.Fields? then Fields(list + r.list) else r
  }

  lemma {:induction false} BodyAppend(a: seq<Text>, f: Text)
    ensures Body(a + [f]) == Body(a) + [','] + f
    decreases |a|
  {
    if a == [] {
      assert a + [f] == [f] && Body([f][1..]) == [];
    } else {
      assert (a + [f])[1..] == a[1..] + [f];
      BodyAppend(a[1..], f);
    }
  }

  lemma {:induction false} FitsAppend(a: seq<Text>, f: Text, len: nat)
    ensures Fits(a + [f], len) <==> Fits(a, len) && len + |Body(a)| + |f| + 4 < BUFFER
    decreases |a|
  {
    if a == [] {
      assert a + [f] == [f];
    } else {
      assert (a + [f])[1..] == a[1..] + [f];
      FitsAppend(a[1..], f, len + 1 + |a[0]|);
    }
  }

  lemma {:induction false} FitsPrefix(fields: seq<Text>, n: nat, len: nat)
    requires n <= |fields| && Fits(fields, len)
    ensures Fits(fields[..n], len)
  {
    if n > 0 {
      assert fields[..n][1..] == fields[1..][..n - 1];
      FitsPrefix(fields[1..], n - 1, len + 1 + |fields[0]|);
    }
  }

  /** The overflow test of a field is what decides whether the fields up to it fit. */
  lemma FieldStep(fields: seq<Text>, i: nat, len: nat)
    requires i < |fields| && Fits(fields[..i], len)
    ensures Body(fields[..i + 1]) == Body(fields[..i]) + [','] + fields[i]
    ensures Fits(fields[..i + 1], len) <==> len + |Body(fields[..i])| + |fields[i]| + 4 < BUFFER
    ensures Fits(fields, len) ==> Fits(fields[..i + 1], len)
  {
    assert fields[..i + 1] == fields[..i] + [fields[i]];
    BodyAppend(fields[..i], fields[i]);
    FitsAppend(fields[..i], fields[i], len);
    if Fits(fields, len) {
      FitsPrefix(fields, i + 1, len);
    }
  }

  /** The text of what was read: a NUL is put behind it. */
  lemma StringRead(b: Text, len: nat)
    requires len < |b|
    ensures StringAt(b[len := NUL], 0) == b[..len][..Find(b[..len], NUL)]
  {
    var k := Find(b[..len], NUL);
    StringIs(b[len := NUL], 0, b[..len][..k]);
  }

  /** How the parse of a received packet ended. */
  datatype Outcome = Complete | Broken | Overflow

  function OutcomeOf(f: Fields): (r: Outcome) {
    match f
    case Fields(_) => Complete
    case Bad => Broken
    case Wild => Overflow
  }

  lemma StageCmd(t0: Text, t1: Text)
    requires Find(t0, ',') < |t0| && t1 == t0[Find(t0, ',') + 1..]
    ensures ParseFrom(t0) == ParseSub(t0[0], t1)
  {
  }

  lemma StageSub(cmd: char, t1: Text, t2: Text)
    requires Find(t1, ',') < |t1| && t2 == t1[Find(t1, ',') + 1..]
    ensures ParseSub(cmd, t1) == ParseCount(cmd, t1[0], t2)
  {
  }

  lemma PrependStep(split: Text -> Piece, list: seq<Text>, t: Text, i: nat, count: nat)
    requires i < count && i < MAX_FIELDS && (split(t).Uncut? ==> i + 1 == count)
    ensures var piece := split(t);
            Prepend(list, ReadFields(split, t, i, count)) ==
            Prepend(list + [piece.field], ReadFields(split, if piece.Cut? then piece.rest else t, i + 1, count))
  {
  }

  lemma PrependFails(split: Text -> Piece, list: seq<Text>, t: Text, i: nat, count: nat)
    requires i < count
    ensures split(t).Uncut? && i + 1 < count ==> Prepend(list, ReadFields(split, t, i, count)) == Bad
    ensures !(split(t).Uncut? && i + 1 < count) && i >= MAX_FIELDS ==>
      Prepend(list, ReadFields(split, t, i, count)) == Wild
  {
  }

  lemma PrependNone(r: Fields)
    ensures Prepend([], r) == r
  {
    if r.Fields? {
      assert [] + r.list == r.list;
    }
  }

  lemma PrependDone(list: seq<Text>, t: Text, count: nat)
    ensures Prepend(list, ReadFields(Split, t, count, count)) == Fields(list)
  {
    assert list + [] == list;
  }

  /** The strings that the field pointers point to. */
  ghost predicate Stored(b: Text, starts: seq<nat>, list: seq<Text>) {
    |starts| == |list| && forall i :: 0 <= i < |starts| ==> starts[i] <= |b| && StringAt(b, starts[i]) == list[i]
  }

  ghost predicate Before(starts: seq<nat>, list: seq<Text>, s: nat) {
    |starts| == |list| && forall i :: 0 <= i < |starts| ==> starts[i] + |list[i]| < s
  }

  /** A cut behind the stored fields keeps them, and the field cut off joins them. */
  lemma StoredAfter(b: Text, b': Text, starts: seq<nat>, list: seq<Text>, s: nat, found: bool, next: nat,
                    field: nat, f: Text)
    requires Stored(b, starts, list) && Before(starts, list, s)
    requires found ==> s < next <= |b|
    requires b' == if found then b[next - 1 := NUL] else b
    requires field <= |b'| && StringAt(b', field) == f
    ensures Stored(b', starts, list) && Stored(b', starts + [field], list + [f])
  {
    if found {
      forall i | 0 <= i < |starts| ensures StringAt(b', starts[i]) == list[i] {
        StringKept(b, starts[i], next - 1);
      }
    }
    assert Stored(b', starts, list);
  }

  lemma WriteStart(p: Packet)
    requires |p.fields| <= MAX_FIELDS
    ensures |Head(p)| + 1 < BUFFER && Body(p.fields[..0]) == [] && Fits(p.fields[..0], |Head(p)|)
  {
  }

  class Port {
    const buf: array<char>
    var len: nat
    var sent: seq<Text>

    constructor ()
      ensures buf.Length == BUFFER && sent == [] && fresh(buf)
    {
      buf := new char[BUFFER](_ => NUL);
      len, sent := 0, [];
    }

    method Put(at: nat, t: Text)
      requires at + |t| <= buf.Length
      modifies buf
      ensures buf[..at] == old(buf[..at]) && buf[at..at + |t|] == t
    {
      for i := 0 to |t|
        invariant buf[..at] == old(buf[..at]) && buf[at..at + i] == t[..i]
      {
        buf[at + i] := t[i];
      }
    }

    /** wu_write. */
    method Write(p: Packet) returns (ok: bool)
      requires buf.Length == BUFFER && |p.fields| <= MAX_FIELDS
      modifies this`len, this`sent, buf
      ensures ok <==> Fits(p.fields, |Head(p)|)
      ensures ok ==> len <= 253 && buf[..len] == Written(p) && sent == old(sent) + [Written(p)]
      ensures !ok ==> sent == old(sent)
    {
      hide Head, Body, Fits;
      WriteStart(p);
      Put(0, Head(p));
      len := |Head(p)|;
      for i := 0 to |p.fields|
        invariant len == |Head(p)| + |Body(p.fields[..i])| && len + 1 < BUFFER
        invariant buf[..len] == Head(p) + Body(p.fields[..i])
        invariant Fits(p.fields[..i], |Head(p)|) && sent == old(sent)
      {
        FieldStep(p.fields, i, |Head(p)|);
        if len + |p.fields[i]| + 4 >= BUFFER {
          ok := false;
          return;
        }
        PutField(p.fields[i], Head(p) + Body(p.fields[..i]));
      }
      assert p.fields[..|p.fields|] == p.fields;
      WrittenBounded(p);
      buf[len] := ';';
      len := len + 1;
      assert buf[..len] == Head(p) + Body(p.fields) + [';'];
      sent := sent + [buf[..len]];
      ok := true;
    }

    method PutField(f: Text, ghost before: Text)
      requires buf.Length == BUFFER && len + 1 + |f| <= BUFFER && buf[..len] == before
      modifies this`len, buf
      ensures len == old(len) + 1 + |f| && buf[..len] == before + [','] + f
    {
      Put(len, [','] + f);
      assert buf[..len + 1 + |f|] == buf[..len] + buf[len..len + 1 + |f|];
      len := len + 1 + |f|;
    }

    /** strpbrk, or strchr if both characters are the same: where the string ends if neither occurs. */
    method Scan(s: nat, x: char, y: char) returns (found: bool, k: nat)
      requires s <= buf.Length && x != NUL && y != NUL
      ensures k == Index(StringAt(buf[..], s), x, y) && (found <==> k < |StringAt(buf[..], s)|)
    {
      ghost var t := StringAt(buf[..], s);
      StringFacts(buf[..], s);
      k := 0;
      while s + k < buf.Length && buf[s + k] != NUL && buf[s + k] != x && buf[s + k] != y
        invariant k <= |t|
        invariant forall i :: 0 <= i < k ==> t[i] != x && t[i] != y
        decreases |t| - k
      {
        assert buf[..][s..s + |t|] == t;
        assert k < |t| ==> t[k] == buf[s + k];
        k := k + 1;
      }
      assert k < |t| ==> t[k] == buf[s + k];
      found := s + k < buf.Length && buf[s + k] != NUL;
    }

    method Terminate(k: nat)
      requires k < buf.Length
      modifies buf
      ensures buf[..] == old(buf[..])[k := NUL]
    {
      buf[k] := NUL;
    }

    method SkipSpace(s: nat) returns (s': nat)
      requires s <= buf.Length
      ensures s <= s' <= buf.Length && s' + |StringAt(buf[..], s')| == s + |StringAt(buf[..], s)|
      ensures StringAt(buf[..], s') == TrimLeft(StringAt(buf[..], s))
    {
      hide StringAt, TrimLeft;
      ghost var t := StringAt(buf[..], s);
      StringFacts(buf[..], s);
      var j := 0;
      while s + j < buf.Length && Space(buf[s + j])
        invariant 0 <= j <= |t|
        invariant forall i :: 0 <= i < j ==> Space(t[i])
        decreases |t| - j
      {
        assert j < |t| ==> t[j] == buf[s + j];
        j := j + 1;
      }
      assert j < |t| ==> t[j] == buf[s + j];
      TrimAt(t, j);
      StringSuffix(buf[..], s, j);
      s' := s + j;
    }

    /** The string at `s` cut at its first separator. */
    method Cut(s: nat, x: char, y: char) returns (found: bool, next: nat)
      requires s <= buf.Length && x != NUL && y != NUL
      modifies buf
      ensures var t := StringAt(old(buf[..]), s);
              var k := Index(t, x, y);
              && (found <==> k < |t|) && StringAt(buf[..], s) == t[..k]
              && (found ==> next == s + k + 1 <= buf.Length && buf[..] == old(buf[..])[next - 1 := NUL])
              && (found ==> StringAt(buf[..], next) == t[k + 1..])
      ensures !found ==> buf[..] == old(buf[..])
    {
      hide StringAt, Index;
      var k;
      found, k := Scan(s, x, y);
      next := s + k + 1;
      if found {
        StringCut(buf[..], s, k);
        Terminate(s + k);
      }
    }

    /** One parameter cut off in place: where it starts, and where the rest does. */
    method CutField(s: nat) returns (found: bool, field: nat, next: nat)
      requires s <= buf.Length
      modifies buf
      ensures field <= buf.Length
      ensures var piece := Split(StringAt(old(buf[..]), s));
              && StringAt(buf[..], field) == piece.field && (found <==> piece.Cut?)
              && (found ==> s < next <= buf.Length && field + |piece.field| < next)
              && (found ==> buf[..] == old(buf[..])[next - 1 := NUL] && StringAt(buf[..], next) == piece.rest)
      ensures !found ==> buf[..] == old(buf[..])
    {
      found, next := Cut(s, ',', ';');
      field := SkipSpace(s);
    }

    /** The parameter loop of parse_packet: the field pointers, or how it failed. */
    method ReadParameters(s0: nat, count: nat) returns (outcome: Outcome, starts: seq<nat>)
      requires s0 <= buf.Length
      modifies buf
      ensures var spec := ReadFields(Split, StringAt(old(buf[..]), s0), 0, count);
              outcome == OutcomeOf(spec) && (spec.Fields? ==> Stored(buf[..], starts, spec.list))
    {
      hide ReadFields, Split, StringAt, Prepend;
      ghost var rest := StringAt(buf[..], s0);
      ghost var spec := ReadFields(Split, rest, 0, count);
      ghost var list: seq<Text> := [];
      PrependNone(spec);
      var i: nat, s: nat := 0, s0;
      outcome, starts := Complete, [];
      while outcome == Complete && i < count
        invariant i <= count && s <= buf.Length
        invariant Stored(buf[..], starts, list)
        invariant outcome == Complete && i < count ==> Before(starts, list, s) && rest == StringAt(buf[..], s)
        invariant outcome == Complete ==> spec == Prepend(list, ReadFields(Split, rest, i, count))
        invariant outcome != Complete ==> outcome == OutcomeOf(spec)
        decreases outcome == Complete, count - i
      {
        ghost var b, piece := buf[..], Split(rest);
        var found, field, next := CutField(s);
        StoredAfter(b, buf[..], starts, list, s, found, next, field, piece.field);
        outcome := if !found && i + 1 < count then Broken else if i >= MAX_FIELDS then Overflow else Complete;
        if outcome == Complete {
          PrependStep(Split, list, rest, i, count);
          starts, list := starts + [field], list + [piece.field];
          i := i + 1;
          if found {
            s, rest := next, piece.rest;
          }
        } else {
          PrependFails(Split, list, rest, i, count);
        }
      }
      if outcome == Complete {
        PrependDone(list, rest, count);
      }
    }

    /** parse_packet.  Overflow: the NUL behind a full buffer, or a nineteenth field pointer, is stored
        out of bounds. */
    method ParsePacket() returns (outcome: Outcome, cmd: char, sub: char, count: nat, starts: seq<nat>)
      requires len <= buf.Length
      modifies buf
      ensures len == buf.Length ==> outcome == Overflow
      ensures var spec := Parse(old(buf[..len]));
              len < buf.Length ==>
              && (outcome == Complete <==> spec.Ok?) && (outcome == Overflow <==> spec.Undefined?)
              && (spec.Ok? ==> cmd == spec.cmd && sub == spec.sub && count == spec.count
                               && Stored(buf[..], starts, spec.fields))
    {
      hide ParseFrom, StringAt, Stored;
      outcome, cmd, sub, count, starts := Broken, NUL, NUL, 0, [];
      if len == buf.Length {
        outcome := Overflow;
        return;
      }
      ghost var b := buf[..];
      StringRead(b, len);
      Terminate(len);
      assert buf[..len] == b[..len];
      var found, s := After(0, '#');
      if found {
        assert Parse(b[..len]) == ParseFrom(StringAt(buf[..], s));
        outcome, cmd, sub, count, starts := ParseHead(s);
      }
    }

    /** Behind the first `x` of the string at `s`. */
    method After(s: nat, x: char) returns (found: bool, next: nat)
      requires s <= buf.Length && x != NUL
      ensures var t := StringAt(buf[..], s);
              var k := Find(t, x);
              && (found <==> k < |t|)
              && (found ==> next == s + k + 1 <= buf.Length && StringAt(buf[..], next) == t[k + 1..])
    {
      var k;
      found, k := Scan(s, x, x);
      next := s + k + 1;
      if found {
        StringSuffix(buf[..], s, k + 1);
      }
    }

    /** The rest of parse_packet from behind the hash mark. */
    method ParseHead(s0: nat) returns (outcome: Outcome, cmd: char, sub: char, count: nat, starts: seq<nat>)
      requires s0 <= buf.Length
      modifies buf
      ensures var spec := ParseFrom(StringAt(old(buf[..]), s0));
              && (outcome == Complete <==> spec.Ok?) && (outcome == Overflow <==> spec.Undefined?)
              && (spec.Ok? ==> cmd == spec.cmd && sub == spec.sub && count == spec.count)
              && (spec.Ok? ==> Stored(buf[..], starts, spec.fields))
    {
      outcome, cmd, sub, count, starts := Broken, NUL, NUL, 0, [];
      StringFacts(buf[..], s0);
      var found, s1 := After(s0, ',');
      if found {
        cmd := buf[s0];
        StageCmd(StringAt(buf[..], s0), StringAt(buf[..], s1));
        outcome, sub, count, starts := ParseSubCommand(cmd, s1);
      }
    }

    method ParseSubCommand(cmd: char, s1: nat) returns (outcome: Outcome, sub: char, count: nat, starts: seq<nat>)
      requires s1 <= buf.Length
      modifies buf
      ensures var spec := ParseSub(cmd, StringAt(old(buf[..]), s1));
              && (outcome == Complete <==> spec.Ok?) && (outcome == Overflow <==> spec.Undefined?)
              && (spec.Ok? ==> cmd == spec.cmd && sub == spec.sub && count == spec.count)
              && (spec.Ok? ==> Stored(buf[..], starts, spec.fields))
    {
      outcome, sub, count, starts := Broken, NUL, 0, [];
      StringFacts(buf[..], s1);
      var found, s2 := After(s1, ',');
      if found {
        sub := buf[s1];
        StageSub(cmd, StringAt(buf[..], s1), StringAt(buf[..], s2));
        CountKeeps(cmd, sub, StringAt(buf[..], s2));
        outcome, count, starts := ParseParameters(cmd, sub, s2);
      }
    }

    method ParseParameters(ghost cmd: char, ghost sub: char, s: nat)
      returns (outcome: Outcome, count: nat, starts: seq<nat>)
      requires s <= buf.Length
      modifies buf
      ensures var spec := ParseCount(cmd, sub, StringAt(old(buf[..]), s));
              && (outcome == Complete <==> spec.Ok?) && (outcome == Overflow <==> spec.Undefined?)
              && (spec.Ok? ==> count == spec.count && Stored(buf[..], starts, spec.fields))
    {
      outcome, count, starts := Broken, 0, [];
      var found, next := Cut(s, ',', ',');
      if found {
        count := Atoi(StringAt(buf[..], s));
        outcome, starts := ReadParameters(next, count);
      }
    }
  }
}
