/**
 Saving the event log as text and reading it back: one line of seven hexadecimal bytes for each
 standard event, with a comment behind a hash mark.
 */
module SelText {
  import opened Bytes
  import opened CString

  const LINE_BUFFER := 1024
  const BYTES := 7
  const LONG_MAX := 0x7fff_ffff_ffff_ffff

  /** The part of a standard event record that goes through the file; `kind` is the 7-bit event type. */
  datatype Event = Event(rev: byte, sensorType: byte, sensor: byte, kind: byte, assertion: bool,
                         data0: byte, data1: byte, data2: byte)

  function ToBytes(e: Event): (b: seq<byte>)
    requires e.kind < 128
    ensures |b| == BYTES
  {
    [e.rev, e.sensorType, e.sensor, if e.assertion then e.kind + 128 else e.kind, e.data0, e.data1, e.data2]
  }

  function FromBytes(b: seq<byte>): (e: Event)
    requires |b| == BYTES
    ensures e.kind < 128
  {
    Event(b[0], b[1], b[2], b[3] % 128, b[3] >= 128, b[4], b[5], b[6])
  }

  // ----- writing

  function HexDigit(n: nat): (r: char)
    requires n < 16
  {
    if n < 10 then ('0' as int + n) as char else ('a' as int + n - 10) as char
  }

  function Token(b: byte): (t: Text)
    ensures |t| == 4
  {
    ['0', 'x', HexDigit(b / 16), HexDigit(b % 16)]
  }

  /** The tokens of a line with a blank between any two. */
  function Spaced(b: seq<byte>): (r: Text)
    requires b != []
  {
    Token(b[0]) + if |b| == 1 then [] else [' '] + Spaced(b[1..])
  }

  function Line(b: seq<byte>, comment: Text): (r: Text)
    requires b != []
  {
    Spaced(b) + [' ', '#', ' '] + comment + ['\n']
  }

  // ----- reading

  /** The value of a digit in any base up to 16. */
  function DigitOf(c: char): (d: nat)
    ensures d <= 16
  {
    if '0' <= c <= '9' then c as int - '0' as int
    else if 'a' <= c <= 'f' then c as int - 'a' as int + 10
    else if 'A' <= c <= 'F' then c as int - 'A' as int + 10
    else 16
  }

  function Accumulate(base: nat, s: Text, acc: nat): (r: nat) {
    if s == [] || DigitOf(s[0]) >= base then acc else Accumulate(base, s[1..], acc * base + DigitOf(s[0]))
  }

  /** strtol of an unsigned number in base 0. */
  function Magnitude(s: Text): (r: nat) {
    if |s| > 2 && s[0] == '0' && (s[1] == 'x' || s[1] == 'X') && DigitOf(s[2]) < 16 then Accumulate(16, s[2..], 0)
    else if s != [] && s[0] == '0' then Accumulate(8, s, 0)
    else Accumulate(10, s, 0)
  }

  /** strtol(tok, NULL, 0) cut down to a byte; a number out of range is the nearest long. */
  function Number(tok: Text): (r: byte) {
    var s := TrimLeft(tok);
    if s != [] && s[0] == '-' then
      var m := Magnitude(s[1..]);
      if m > LONG_MAX then 0 else (256 - m % 256) % 256
    else
      var m := Magnitude(if s != [] && s[0] == '+' then s[1..] else s);
      if m > LONG_MAX then 255 else m % 256
  }

  /** The text up to the hash mark. */
  function Uncommented(line: Text): (r: Text) {
    line[..Find(line, '#')]
  }

  function TrimRight(s: Text): (t: Text)
    ensures |t| <= |s| && t == s[..|t|]
    ensures t == [] || !Space(t[|t| - 1])
  {
    if s == [] || !Space(s[|s| - 1]) then s else TrimRight(s[..|s| - 1])
  }

  /** What strtok finds first: the blanks before a token, and where the token ends. */
  function Blanks(s: Text): (k: nat)
    ensures k <= |s| && (forall i :: 0 <= i < k ==> s[i] == ' ') && (k < |s| ==> s[k] != ' ')
  {
    if s == [] || s[0] != ' ' then 0 else 1 + Blanks(s[1..])
  }

  /** The number of the next token and what follows it, or that there is none. */
  datatype Scanned = Value(b: byte, rest: Text) | End

  function Scan(s: Text): (r: Scanned) {
    var t := s[Blanks(s)..];
    var k := Find(t, ' ');
    if t == [] then End else Value(Number(t[..k]), t[k..])
  }

  /** The token loop with `data` stored: at most seven numbers. */
  function ReadNumbers(scan: Text -> Scanned, s: Text, data: seq<byte>): (r: seq<byte>)
    decreases BYTES - |data|
  {
    if scan(s).End? || |data| >= BYTES then data else ReadNumbers(scan, scan(s).rest, data + [scan(s).b])
  }

  /** One line: its seven bytes, unless it is blank or has fewer. */
  function ParseLine(line: Text): (r: Option<seq<byte>>)
    ensures r.Some? ==> |r.value| == BYTES
  {
    var data := ReadNumbers(Scan, TrimLeft(TrimRight(Uncommented(line))), []);
    if |data| == BYTES then Some(data) else None
  }

  /** fgets: up to and with a newline, and no more than the buffer holds. */
  function LineLength(file: Text): (n: nat)
    ensures n <= |file| && (file != [] ==> n > 0)
  {
    var k := Find(file, '\n');
    var n := if k < |file| then k + 1 else k;
    if n < LINE_BUFFER then n else LINE_BUFFER - 1
  }

  /** ipmi_sel_add_entries_fromfile: the events added to the log; `accept` tells which addition, counted
      from the first, the device accepts, and the first it does not ends the loop. */
  function Load(file: Text, accept: nat -> bool, events: seq<Event>): (added: seq<Event>)
    decreases |file|
  {
    if file == [] then events
    else
      var n := LineLength(file);
      var b := ParseLine(file[..n]);
      if b.None? then Load(file[n..], accept, events)
      else if !accept(|events|) then events
      else Load(file[n..], accept, events + [FromBytes(b.value)])
  }

  // ----- the round trip

  lemma HexValue(n: nat)
    requires n < 16
    ensures DigitOf(HexDigit(n)) == n
  {
  }

  lemma AccumulateTwo(x: char, y: char)
    requires DigitOf(x) < 16 && DigitOf(y) < 16
    ensures Accumulate(16, [x, y], 0) == 16 * DigitOf(x) + DigitOf(y)
  {
    assert [x, y][1..] == [y] && [y][1..] == [];
    assert Accumulate(16, [y], DigitOf(x)) == DigitOf(x) * 16 + DigitOf(y);
  }

  lemma TokenMagnitude(b: byte)
    ensures Magnitude(Token(b)) == b
  {
    var t := Token(b);
    HexValue(b / 16);
    HexValue(b % 16);
    AccumulateTwo(t[2], t[3]);
    assert t[2..] == [t[2], t[3]];
  }

  lemma NumberToken(b: byte)
    ensures Number(Token(b)) == b
  {
    TokenMagnitude(b);
    TrimNone(Token(b));
  }

  lemma TokenPlain(b: byte)
    ensures forall i :: 0 <= i < 4 ==> Token(b)[i] != '#' && !Space(Token(b)[i])
  {
  }

  /** Nothing in the numbers of a line could be taken for a comment or an end of line, and they
      neither start nor end with white space. */
  lemma {:induction false} SpacedPlain(b: seq<byte>)
    requires b != []
    ensures var s := Spaced(b);
            && (forall i :: 0 <= i < |s| ==> s[i] != '#' && s[i] != '\n')
            && |s| >= 4 && !Space(s[0]) && !Space(s[|s| - 1])
  {
    TokenPlain(b[0]);
    if |b| > 1 {
      SpacedPlain(b[1..]);
    }
  }

  /** A scanner that reads a token where one stands, blanks or none before it. */
  ghost predicate Reads(scan: Text -> Scanned) {
    && (forall b, rest :: rest == [] || rest[0] == ' ' ==> scan(Token(b) + rest) == Value(b, rest))
    && (forall s :: scan([' '] + s) == scan(s))
    && scan([]) == End
  }

  lemma ScanToken(b: byte, rest: Text)
    requires rest == [] || rest[0] == ' '
    ensures Scan(Token(b) + rest) == Value(b, rest)
  {
    var s := Token(b) + rest;
    TokenPlain(b);
    NumberToken(b);
    assert forall i :: 0 <= i < 4 ==> s[i] == Token(b)[i];
    assert Blanks(s) == 0 && s[0..] == s;
    assert rest != [] ==> s[4] == ' ';
    assert Find(s, ' ') == 4;
    assert s[..4] == Token(b) && s[4..] == rest;
  }

  lemma ScanReads()
    ensures Reads(Scan)
  {
    forall b, rest | rest == [] || rest[0] == ' ' ensures Scan(Token(b) + rest) == Value(b, rest) {
      ScanToken(b, rest);
    }
    forall s ensures Scan([' '] + s) == Scan(s) {
      var t := [' '] + s;
      assert t[1..] == s && Blanks(t) == 1 + Blanks(s);
      assert t[Blanks(t)..] == s[Blanks(s)..];
    }
  }

  lemma Shift<T>(a: seq<T>, s: seq<T>)
    requires s != []
    ensures a + [s[0]] + s[1..] == a + s
  {
  }

  lemma {:induction false} ReadSpaced(scan: Text -> Scanned, b: seq<byte>, pre: Text, data: seq<byte>)
    requires Reads(scan) && b != [] && |data| + |b| <= BYTES && (pre == [] || pre == [' '])
    ensures ReadNumbers(scan, pre + Spaced(b), data) == data + b
    decreases |b|
  {
    var s := Spaced(b);
    assert pre == [] ==> pre + s == s;
    assert scan(pre + s) == scan(s);
    if |b| == 1 {
      assert s == Token(b[0]) + [] && b == [b[0]];
      assert scan(Token(b[0]) + []) == Value(b[0], []);
      assert ReadNumbers(scan, [], data + [b[0]]) == data + [b[0]];
    } else {
      assert scan(s) == Value(b[0], [' '] + Spaced(b[1..]));
      ReadSpaced(scan, b[1..], [' '], data + [b[0]]);
      Shift(data, b);
    }
  }

  lemma Trimmed(s: Text)
    requires |s| > 0 && !Space(s[0]) && !Space(s[|s| - 1])
    ensures TrimLeft(TrimRight(s + [' '])) == s
  {
    var t := s + [' '];
    assert t[..|t| - 1] == s;
    assert TrimRight(s) == s;
    TrimNone(s);
  }

  lemma UncommentedLine(b: seq<byte>, comment: Text)
    requires b != []
    ensures Uncommented(Line(b, comment)) == Spaced(b) + [' ']
  {
    var s, line := Spaced(b), Line(b, comment);
    SpacedPlain(b);
    assert forall i :: 0 <= i < |s| ==> line[i] == s[i];
    assert line[|s|] == ' ' && line[|s| + 1] == '#';
    assert Find(line, '#') == |s| + 1;
  }

  /** A line gives back its seven bytes, whatever its comment. */
  lemma LineRoundTrip(b: seq<byte>, comment: Text)
    requires |b| == BYTES
    ensures ParseLine(Line(b, comment)) == Some(b)
  {
    var line := Line(b, comment);
    assert TrimLeft(TrimRight(Uncommented(line))) == Spaced(b) by {
      UncommentedLine(b, comment);
      SpacedPlain(b);
      Trimmed(Spaced(b));
    }
    assert ReadNumbers(Scan, Spaced(b), []) == b by {
      ScanReads();
      ReadSpaced(Scan, b, [], []);
      assert [] + Spaced(b) == Spaced(b) && [] + b == b;
    }
  }

  lemma EventRoundTrip(e: Event)
    requires e.kind < 128
    ensures FromBytes(ToBytes(e)) == e
  {
  }

  /** What SEL save writes: a line for each event. */
  function Saved(events: seq<Event>, comments: seq<Text>): (r: Text)
    requires |events| == |comments| && forall i :: 0 <= i < |events| ==> events[i].kind < 128
  {
    if events == [] then [] else Line(ToBytes(events[0]), comments[0]) + Saved(events[1..], comments[1..])
  }

  /** A comment that leaves its line in one piece. */
  ghost predicate OneLine(comment: Text) {
    |comment| + 38 < LINE_BUFFER && forall i :: 0 <= i < |comment| ==> comment[i] != '\n'
  }

  lemma {:induction false} SpacedLength(b: seq<byte>)
    requires b != []
    ensures |Spaced(b)| == 5 * |b| - 1
  {
    if |b| > 1 {
      SpacedLength(b[1..]);
    }
  }

  lemma LineEnd(s: Text, rest: Text)
    requires (forall i :: 0 <= i < |s| ==> s[i] != '\n') && |s| + 1 < LINE_BUFFER
    ensures var file := s + ['\n'] + rest;
            LineLength(file) == |s| + 1 && file[..|s| + 1] == s + ['\n'] && file[|s| + 1..] == rest
  {
    var file := s + ['\n'] + rest;
    assert file[|s|] == '\n';
    assert Find(file, '\n') == |s|;
  }

  /** The first line of a file is read whole. */
  lemma FirstLine(b: seq<byte>, comment: Text, rest: Text)
    requires |b| == BYTES && OneLine(comment)
    ensures var file := Line(b, comment) + rest;
            && LineLength(file) == |Line(b, comment)|
            && file[..LineLength(file)] == Line(b, comment) && file[LineLength(file)..] == rest
  {
    var line := Line(b, comment);
    SpacedPlain(b);
    SpacedLength(b);
    LineEnd(Spaced(b) + [' ', '#', ' '] + comment, rest);
    assert line == Spaced(b) + [' ', '#', ' '] + comment + ['\n'];
  }

  lemma LoadStep(file: Text, rest: Text, b: seq<byte>, accept: nat -> bool, before: seq<Event>)
    requires file != [] && file[LineLength(file)..] == rest && |b| == BYTES
    requires ParseLine(file[..LineLength(file)]) == Some(b)
    ensures Load(file, accept, before)
         == if accept(|before|) then Load(rest, accept, before + [FromBytes(b)]) else before
  {
  }

  lemma LoadFirst(e: Event, comment: Text, rest: Text, accept: nat -> bool, before: seq<Event>)
    requires e.kind < 128 && OneLine(comment)
    ensures Load(Line(ToBytes(e), comment) + rest, accept, before)
         == if accept(|before|) then Load(rest, accept, before + [e]) else before
  {
    var b := ToBytes(e);
    FirstLine(b, comment, rest);
    LineRoundTrip(b, comment);
    EventRoundTrip(e);
    LoadStep(Line(b, comment) + rest, rest, b, accept, before);
  }

  lemma LoadNone(accept: nat -> bool, before: seq<Event>)
    ensures Load([], accept, before) == before
  {
  }

  lemma PrefixShift(before: seq<Event>, events: seq<Event>, k: nat)
    requires k < |events|
    ensures before + [events[0]] + events[1..][..k] == before + events[..1 + k]
  {
  }

  /** How many of `n` additions, the first with number `from`, are accepted in a row. */
  function Accepted(accept: nat -> bool, from: nat, n: nat): (k: nat)
    ensures k <= n && (k < n ==> !accept(from + k)) && forall i :: from <= i < from + k ==> accept(i)
    decreases n
  {
    if n == 0 || !accept(from) then 0 else 1 + Accepted(accept, from + 1, n - 1)
  }

  /** Saving a log and loading the file adds the same events in the same order, up to the first that the
      device does not accept. */
  lemma {:induction false} SaveLoad(events: seq<Event>, comments: seq<Text>, accept: nat -> bool, before: seq<Event>)
    requires |events| == |comments|
    requires forall i :: 0 <= i < |events| ==> events[i].kind < 128 && OneLine(comments[i])
    ensures Load(Saved(events, comments), accept, before)
         == before + events[..Accepted(accept, |before|, |events|)]
    decreases |events|
  {
    hide Load, Line, ToBytes;
    if events == [] {
      LoadNone(accept, before);
      assert before + [] == before;
    } else {
      var e := events[0];
      LoadFirst(e, comments[0], Saved(events[1..], comments[1..]), accept, before);
      if accept(|before|) {
        SaveLoad(events[1..], comments[1..], accept, before + [e]);
        PrefixShift(before, events, Accepted(accept, |before| + 1, |events| - 1));
      } else {
        assert before + [] == before;
      }
    }
  }

  // ----- the program

  method ReadTokens(s0: Text) returns (rqdata: seq<byte>)
    ensures rqdata == ReadNumbers(Scan, s0, []) && |rqdata| <= BYTES
  {
    rqdata := [];
    var tok := Scan(s0);
    ghost var s := s0;
    while tok.Value? && |rqdata| < BYTES
      invariant tok == Scan(s) && |rqdata| <= BYTES && ReadNumbers(Scan, s, rqdata) == ReadNumbers(Scan, s0, [])
      decreases BYTES - |rqdata|
    {
      rqdata, s := rqdata + [tok.b], tok.rest;
      tok := Scan(tok.rest);
    }
  }

  method ClipComment(line: Text) returns (end: nat)
    ensures end == Find(line, '#')
  {
    end := 0;
    while end < |line| && line[end] != '#'
      invariant end <= |line| && forall i :: 0 <= i < end ==> line[i] != '#'
    {
      end := end + 1;
    }
  }

  method ClipSpace(line: Text, end0: nat) returns (end: nat)
    requires end0 <= |line|
    ensures end <= end0 && line[..end] == TrimRight(line[..end0])
  {
    end := end0;
    while end > 0 && Space(line[end - 1])
      invariant end <= end0 && TrimRight(line[..end]) == TrimRight(line[..end0])
    {
      assert line[..end][..end - 1] == line[..end - 1];
      end := end - 1;
    }
  }

  method SkipSpace(text: Text) returns (s: Text)
    ensures s == TrimLeft(text)
  {
    s := text;
    while s != [] && Space(s[0])
      invariant TrimLeft(s) == TrimLeft(text)
      decreases |s|
    {
      s := s[1..];
    }
    TrimNone(s);
  }

  /** Comment clipped, white space trimmed from both ends, and the token loop. */
  method ReadLine(line: Text) returns (r: Option<seq<byte>>)
    ensures r == ParseLine(line)
  {
    hide ReadNumbers, Scan, TrimLeft, TrimRight;
    var end := ClipComment(line);
    end := ClipSpace(line, end);
    var s := SkipSpace(line[..end]);
    var rqdata := ReadTokens(s);
    r := if |rqdata| < BYTES then None else Some(rqdata);
  }

  /** ipmi_sel_add_entries_fromfile: line by line to the end of the file, or to a rejected event. */
  method LoadFile(file: Text, accept: nat -> bool) returns (events: seq<Event>)
    ensures events == Load(file, accept, [])
  {
    events := [];
    var rest := file;
    while rest != []
      invariant Load(rest, accept, events) == Load(file, accept, [])
      decreases |rest|
    {
      var n := LineLength(rest);
      var b := ReadLine(rest[..n]);
      if b.Some? {
        if !accept(|events|) {
          return;
        }
        events := events + [FromBytes(b.value)];
      }
      rest := rest[n..];
    }
  }
}
