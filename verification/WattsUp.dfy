/**
 The packets of the WattsUp meter: the writer that builds `#c,s,n,f,...,f;` in a 256-byte buffer and
 the parser that takes such text apart.
 */
module WattsUp {
  import opened CString

  const BUFFER := 256
  const MAX_FIELDS := 18
  const U32 := 0x1_0000_0000

  datatype Packet = Packet(cmd: char, sub: char, fields: seq<Text>)

  // ----- decimal numbers

  predicate Digit(c: char) {
    '0' <= c <= '9'
  }

  function Digits(n: nat): (s: Text)
    ensures |s| > 0 && forall i :: 0 <= i < |s| ==> Digit(s[i])
    ensures |s| == 1 <==> n < 10
    ensures |s| <= 2 <==> n < 100
  {
    if n < 10 then ['0' + n as char] else Digits(n / 10) + ['0' + (n % 10) as char]
  }

  function DigitValue(c: char): (r: nat)
    requires Digit(c)
  {
    c as int - '0' as int
  }

  function Value(s: Text): (r: nat)
    requires forall i :: 0 <= i < |s| ==> Digit(s[i])
  {
    if s == [] then 0 else 10 * Value(s[..|s| - 1]) + DigitValue(s[|s| - 1])
  }

  lemma {:induction false} ValueDigits(n: nat)
    ensures Value(Digits(n)) == n
  {
    if n >= 10 {
      ValueDigits(n / 10);
      var s := Digits(n);
      assert s[..|s| - 1] == Digits(n / 10);
    }
  }

  function Leading(s: Text): (t: Text)
    ensures |t| <= |s| && t == s[..|t|]
    ensures forall i :: 0 <= i < |t| ==> Digit(t[i])
    ensures |t| < |s| ==> !Digit(s[|t|])
  {
    if s == [] || !Digit(s[0]) then [] else [s[0]] + Leading(s[1..])
  }

  function ToU32(n: nat): (r: nat) {
    if n < U32 then n else n % U32
  }

  /** atoi, stored as an unsigned number. */
  function Atoi(s: Text): (r: nat) {
    var t := TrimLeft(s);
    if t == [] then 0
    else if t[0] == '-' then ToU32(U32 - Value(Leading(t[1..])) % U32)
    else ToU32(Value(Leading(if t[0] == '+' then t[1..] else t)))
  }

  lemma LeadingAll(s: Text)
    requires forall i :: 0 <= i < |s| ==> Digit(s[i])
    ensures Leading(s) == s
  {
    assert |Leading(s)| == |s|;
  }

  lemma AtoiDigits(n: nat)
    requires n < U32
    ensures Atoi(Digits(n)) == n
  {
    var s := Digits(n);
    TrimNone(s);
    LeadingAll(s);
    ValueDigits(n);
    assert Digit(s[0]) && s[0] != '-' && s[0] != '+';
  }

  // ----- writing

  function Head(p: Packet): (r: Text) {
    ['#', p.cmd, ',', p.sub, ','] + Digits(|p.fields|)
  }

  function Body(fields: seq<Text>): (r: Text) {
    if fields == [] then [] else [','] + fields[0] + Body(fields[1..])
  }

  /** Whether every field passes the overflow test with `len` characters before it. */
  predicate Fits(fields: seq<Text>, len: nat) {
    fields == [] || (len + |fields[0]| + 4 < BUFFER && Fits(fields[1..], len + 1 + |fields[0]|))
  }

  function Written(p: Packet): (r: Text) {
    Head(p) + Body(p.fields) + [';']
  }

  lemma {:induction false} FitsBounds(fields: seq<Text>, len: nat)
    requires Fits(fields, len)
    ensures fields != [] ==> len + |Body(fields)| + 3 < BUFFER
  {
    if fields != [] {
      FitsBounds(fields[1..], len + 1 + |fields[0]|);
    }
  }

  /** An accepted packet never exceeds 253 characters. */
  lemma WrittenBounded(p: Packet)
    requires |p.fields| <= MAX_FIELDS && Fits(p.fields, |Head(p)|)
    ensures |Written(p)| <= 253
  {
    FitsBounds(p.fields, |Head(p)|);
  }

  // ----- parsing

  datatype Result = Ok(cmd: char, sub: char, count: nat, fields: seq<Text>) | Malformed | Undefined

  datatype Fields = Fields(list: seq<Text>) | Bad | Wild

  /** What is cut off at the first separator, or that there is none. */
  datatype Piece = Cut(field: Text, rest: Text) | Uncut(field: Text)

  function Split(s: Text): (r: Piece) {
    var k := Index(s, ',', ';');
    if k < |s| then Cut(TrimLeft(s[..k]), s[k + 1..]) else Uncut(TrimLeft(s))
  }

  /** The parameter loop at `i` with `s` left.  Wild: a nineteenth field pointer is stored. */
  function ReadFields(split: Text -> Piece, s: Text, i: nat, count: nat): (r: Fields)
    decreases count - i
  {
    if i >= count then Fields([])
    else
      var piece := split(s);
      if piece.Uncut? && i + 1 < count then Bad
      else if i >= MAX_FIELDS then Wild
      else if piece.Uncut? then Fields([piece.field])
      else match ReadFields(split, piece.rest, i + 1, count)
        case Fields(list) => Fields([piece.field] + list)
        case other => other
  }

  function Collect(cmd: char, sub: char, count: nat, list: Fields): (r: Result) {
    match list
    case Fields(fields) => Ok(cmd, sub, count, fields)
    case Bad => Malformed
    case Wild => Undefined
  }

  /** The count up to the third comma, and the parameters. */
  function ParseCount(cmd: char, sub: char, u: Text): (r: Result) {
    var c := Find(u, ',');
    if c == |u| then Malformed
    else Collect(cmd, sub, Atoi(u[..c]), ReadFields(Split, u[c + 1..], 0, Atoi(u[..c])))
  }

  function ParseSub(cmd: char, t: Text): (r: Result) {
    var b := Find(t, ',');
    if b == |t| then Malformed else ParseCount(cmd, t[0], t[b + 1..])
  }

  /** The text after the hash mark. */
  function ParseFrom(s: Text): (r: Result) {
    var a := Find(s, ',');
    if a == |s| then Malformed else ParseSub(s[0], s[a + 1..])
  }

  /** parse_packet on the characters read: the text ends at the first NUL. */
  function Parse(raw: Text): (r: Result) {
    var s := raw[..Find(raw, NUL)];
    var h := Find(s, '#');
    if h == |s| then Malformed else ParseFrom(s[h + 1..])
  }

  // ----- the round trip

  ghost predicate Clean(f: Text) {
    (forall i :: 0 <= i < |f| ==> f[i] != ',' && f[i] != ';') && (f == [] || !Space(f[0]))
  }

  ghost predicate AllClean(fields: seq<Text>) {
    forall i :: 0 <= i < |fields| ==> Clean(fields[i])
  }

  ghost predicate NoNul(fields: seq<Text>) {
    forall i :: 0 <= i < |fields| ==> forall j :: 0 <= j < |fields[i]| ==> fields[i][j] != NUL
  }

  /** The parameters after the third comma, up to and with the semicolon. */
  function Params(fields: seq<Text>): (r: Text)
    requires fields != []
  {
    fields[0] + if |fields| == 1 then [';'] else [','] + Params(fields[1..])
  }

  lemma {:induction false} BodyParams(fields: seq<Text>)
    requires fields != []
    ensures Body(fields) + [';'] == [','] + Params(fields)
  {
    if |fields| == 1 {
      assert Body(fields[1..]) == [];
    } else {
      BodyParams(fields[1..]);
      assert Body(fields) + [';'] == [','] + fields[0] + (Body(fields[1..]) + [';']);
    }
  }

  /** A clean field before a separator is cut off whole. */
  ghost predicate CutsClean(split: Text -> Piece) {
    forall f, x, tail :: Clean(f) && (x == ',' || x == ';') ==> split(f + ([x] + tail)) == Cut(f, tail)
  }

  lemma Around(f: Text, x: char, tail: Text)
    ensures var s := f + ([x] + tail); |f| < |s| && s[|f|] == x && s[..|f|] == f && s[|f| + 1..] == tail
  {
  }

  lemma FirstSeparator(s: Text, k: nat)
    requires k < |s| && (s[k] == ',' || s[k] == ';') && forall i :: 0 <= i < k ==> s[..k][i] != ',' && s[..k][i] != ';'
    ensures Index(s, ',', ';') == k
  {
    hide Index;
    assert forall i :: 0 <= i < k ==> s[i] == s[..k][i];
  }

  lemma SplitCut(f: Text, x: char, tail: Text)
    requires Clean(f) && (x == ',' || x == ';')
    ensures Split(f + ([x] + tail)) == Cut(f, tail)
  {
    hide TrimLeft, Index;
    Around(f, x, tail);
    FirstSeparator(f + ([x] + tail), |f|);
    TrimNone(f);
  }

  lemma SplitCuts()
    ensures CutsClean(Split)
  {
    forall f, x, tail | Clean(f) && (x == ',' || x == ';') ensures Split(f + ([x] + tail)) == Cut(f, tail) {
      SplitCut(f, x, tail);
    }
  }

  lemma HeadAndRest(s: seq<Text>)
    requires s != []
    ensures [s[0]] + s[1..] == s
  {
  }

  /** The parameter loop takes a packet's text apart again. */
  lemma {:induction false} ReadParams(split: Text -> Piece, fields: seq<Text>, i: nat, count: nat)
    requires CutsClean(split)
    requires fields != [] && AllClean(fields) && count == i + |fields| && count <= MAX_FIELDS
    ensures ReadFields(split, Params(fields), i, count) == Fields(fields)
    decreases |fields|
  {
    HeadAndRest(fields);
    if |fields| == 1 {
      assert split(Params(fields)) == Cut(fields[0], []) by {
        assert Params(fields) == fields[0] + ([';'] + []);
      }
    } else {
      ReadParams(split, fields[1..], i + 1, count);
      assert split(Params(fields)) == Cut(fields[0], Params(fields[1..]));
    }
  }

  /** Whatever the parser returns as a field is clean. */
  lemma {:induction false} FieldsClean(split: Text -> Piece, s: Text, i: nat, count: nat)
    requires forall s :: Clean(split(s).field)
    requires ReadFields(split, s, i, count).Fields?
    ensures AllClean(ReadFields(split, s, i, count).list)
    decreases count - i
  {
    if i < count && split(s).Cut? {
      FieldsClean(split, split(s).rest, i + 1, count);
    }
  }

  lemma TrimClean(f: Text)
    requires forall i :: 0 <= i < |f| ==> f[i] != ',' && f[i] != ';'
    ensures Clean(TrimLeft(f))
  {
  }

  lemma SplitClean(s: Text)
    ensures Clean(Split(s).field)
  {
    var k := Index(s, ',', ';');
    assert k == |s| ==> s[..k] == s;
    TrimClean(s[..k]);
  }

  ghost predicate NoComma(s: Text) {
    forall i :: 0 <= i < |s| ==> s[i] != ','
  }

  /** The first comma of a text that has one. */
  lemma Comma(s: Text, pre: Text, rest: Text)
    requires s == pre + ([','] + rest) && NoComma(pre)
    ensures Find(s, ',') == |pre| < |s| && s[..|pre|] == pre && s[|pre| + 1..] == rest
  {
    assert s[|pre|] == ',';
  }

  lemma AtCount(cmd: char, sub: char, u: Text, pre: Text, rest: Text)
    requires u == pre + ([','] + rest) && NoComma(pre)
    ensures ParseCount(cmd, sub, u) == Collect(cmd, sub, Atoi(pre), ReadFields(Split, rest, 0, Atoi(pre)))
  {
    Comma(u, pre, rest);
  }

  lemma AtSub(cmd: char, t: Text, pre: Text, u: Text)
    requires t == pre + ([','] + u) && NoComma(pre)
    ensures ParseSub(cmd, t) == ParseCount(cmd, t[0], u)
  {
    Comma(t, pre, u);
  }

  lemma AtCmd(s: Text, pre: Text, t: Text)
    requires s == pre + ([','] + t) && NoComma(pre)
    ensures ParseFrom(s) == ParseSub(s[0], t)
  {
    Comma(s, pre, t);
  }

  /** The text of a packet after its hash mark, up to its parameters. */
  lemma Layout(p: Packet) returns (t: Text, u: Text, rest: Text)
    requires p.fields != []
    ensures rest == Params(p.fields) && u == Digits(|p.fields|) + ([','] + rest)
    ensures t == [p.sub] + ([','] + u) && Written(p) == ['#'] + ([p.cmd] + ([','] + t))
  {
    hide Digits, Params, Body;
    BodyParams(p.fields);
    rest := Params(p.fields);
    u := Digits(|p.fields|) + ([','] + rest);
    t := [p.sub] + ([','] + u);
    assert Written(p) == Head(p) + (Body(p.fields) + [';']);
  }

  predicate Plain(c: char) {
    c != ',' && c != NUL
  }

  /** The parse of a packet, and of one whose command or sub-command is a comma. */
  lemma ParseStages(p: Packet, s: Text) returns (t: Text, u: Text, v: Text)
    requires p.fields != [] && Written(p) == ['#'] + s
    ensures v == [','] + u && t == [p.sub] + v
    ensures u == Digits(|p.fields|) + ([','] + Params(p.fields))
    ensures p.cmd != ',' ==> ParseFrom(s) == ParseSub(p.cmd, t)
    ensures p.cmd == ',' ==> ParseFrom(s) == ParseSub(',', [','] + t)
  {
    hide ParseSub, Params, Digits, Written;
    var rest;
    t, u, rest := Layout(p);
    v := [','] + u;
    assert s == (['#'] + s)[1..] == [p.cmd] + ([','] + t);
    if p.cmd != ',' {
      AtCmd(s, [p.cmd], t);
    } else {
      assert s == [] + ([','] + ([','] + t));
      AtCmd(s, [], [','] + t);
    }
  }

  lemma ParseClean(p: Packet, s: Text)
    requires 1 <= |p.fields| <= MAX_FIELDS && p.cmd != ',' && p.sub != ',' && AllClean(p.fields)
    requires Written(p) == ['#'] + s
    ensures ParseFrom(s) == Ok(p.cmd, p.sub, |p.fields|, p.fields)
  {
    hide ParseFrom, ParseSub, ParseCount, Params, Digits, Split, ReadFields, Written;
    var t, u, v := ParseStages(p, s);
    AtSub(p.cmd, t, [p.sub], u);
    AtCount(p.cmd, p.sub, u, Digits(|p.fields|), Params(p.fields));
    AtoiDigits(|p.fields|);
    SplitCuts();
    ReadParams(Split, p.fields, 0, |p.fields|);
  }

  /** A count that is missing is zero. */
  lemma NoCount(cmd: char, sub: char, u: Text, rest: Text)
    requires u == [','] + rest
    ensures ParseCount(cmd, sub, u) == Ok(cmd, sub, 0, [])
  {
    assert u == [] + ([','] + rest);
    AtCount(cmd, sub, u, [], rest);
    assert Atoi([]) == 0;
  }

  lemma CountKeeps(cmd: char, sub: char, u: Text)
    ensures var r := ParseCount(cmd, sub, u); r.Ok? ==> r.cmd == cmd && r.sub == sub
  {
  }

  /** A command character that is a comma swallows a separator. */
  lemma ParseComma(p: Packet, s: Text)
    requires 1 <= |p.fields| <= MAX_FIELDS && (p.cmd == ',' || p.sub == ',')
    requires Written(p) == ['#'] + s
    ensures ParseFrom(s) != Ok(p.cmd, p.sub, |p.fields|, p.fields)
  {
    hide ParseFrom, ParseSub, ParseCount, Params, Digits, Written;
    var t, u, v := ParseStages(p, s);
    if p.cmd == ',' {
      assert [','] + t == [] + ([','] + t);
      AtSub(',', [','] + t, [], t);
      if p.sub == ',' {
        NoCount(',', ',', t, v);
      } else {
        CountKeeps(',', ',', t);
      }
    } else {
      assert t == [] + ([','] + v);
      AtSub(p.cmd, t, [], v);
      NoCount(p.cmd, ',', v, u);
    }
  }

  lemma {:induction false} BodyNoNul(fields: seq<Text>)
    requires NoNul(fields)
    ensures forall i :: 0 <= i < |Body(fields)| ==> Body(fields)[i] != NUL
  {
    if fields != [] {
      BodyNoNul(fields[1..]);
    }
  }

  /** Where the text of a written packet ends. */
  lemma TextOf(p: Packet)
    requires NoNul(p.fields)
    ensures Find(Written(p), NUL) == if p.cmd == NUL then 1 else if p.sub == NUL then 3 else |Written(p)|
  {
    BodyNoNul(p.fields);
    var w := Written(p);
    assert w[0] == '#' && w[1] == p.cmd && w[2] == ',' && w[3] == p.sub;
    assert forall i :: 4 <= i < |w| ==> w[i] != NUL;
  }

  lemma ParseNul(p: Packet)
    requires NoNul(p.fields) && (p.cmd == NUL || p.sub == NUL)
    ensures Parse(Written(p)) == Malformed
  {
    TextOf(p);
    var w := Written(p);
    if p.cmd == NUL {
      assert w[..1] == ['#'] && Find(['#'], '#') == 0;
      assert ['#'][1..] == [];
    } else {
      assert w[..3] == ['#', p.cmd, ','] && Find(['#', p.cmd, ','], '#') == 0;
      var s := ['#', p.cmd, ','][1..];
      assert s == [p.cmd, ','];
      if p.cmd == ',' {
        assert s == [] + ([','] + [',']) && [','] == [] + ([','] + []);
        AtCmd(s, [], [',']);
        AtSub(',', [','], [], []);
      } else {
        assert s == [p.cmd] + ([','] + []);
        AtCmd(s, [p.cmd], []);
      }
    }
  }

  /** No input whatever yields an unclean field. */
  lemma ParsedClean(s: Text)
    ensures ParseFrom(s).Ok? ==> AllClean(ParseFrom(s).fields)
  {
    if ParseFrom(s).Ok? {
      forall s ensures Clean(Split(s).field) {
        SplitClean(s);
      }
      var t := s[Find(s, ',') + 1..];
      var u := t[Find(t, ',') + 1..];
      var c := Find(u, ',');
      assert ParseFrom(s) == Collect(s[0], t[0], Atoi(u[..c]), ReadFields(Split, u[c + 1..], 0, Atoi(u[..c])));
      FieldsClean(Split, u[c + 1..], 0, Atoi(u[..c]));
    }
  }

  lemma WholeText(w: Text)
    requires w != [] && w[0] == '#' && Find(w, NUL) == |w|
    ensures Parse(w) == ParseFrom(w[1..])
  {
    assert w[..|w|] == w;
  }

  lemma ParseWhole(p: Packet) returns (s: Text)
    requires NoNul(p.fields) && p.cmd != NUL && p.sub != NUL
    ensures Written(p) == ['#'] + s && Parse(Written(p)) == ParseFrom(s)
  {
    TextOf(p);
    WholeText(Written(p));
    s := Written(p)[1..];
  }

  /** Exactly when parsing gives back what was written: for packets with parameters, if command and
      sub-command are neither comma nor NUL and no field holds a separator or starts with white
      space. */
  lemma RoundTrip(p: Packet)
    requires 1 <= |p.fields| <= MAX_FIELDS && NoNul(p.fields)
    ensures Parse(Written(p)) == Ok(p.cmd, p.sub, |p.fields|, p.fields)
       <==> Plain(p.cmd) && Plain(p.sub) && AllClean(p.fields)
  {
    if p.cmd == NUL || p.sub == NUL {
      ParseNul(p);
    } else {
      var s := ParseWhole(p);
      if p.cmd == ',' || p.sub == ',' {
        ParseComma(p, s);
      } else if AllClean(p.fields) {
        ParseClean(p, s);
      } else {
        ParsedClean(s);
      }
    }
  }

  lemma ZeroText(p: Packet) returns (t: Text)
    requires p.fields == []
    ensures t == [p.sub] + ([','] + ['0', ';']) && Written(p)[1..] == [p.cmd] + ([','] + t)
  {
    t := [p.sub] + ([','] + ['0', ';']);
    assert Digits(0) == ['0'] && Body([]) == [];
    assert Written(p) == ['#', p.cmd, ',', p.sub, ',', '0', ';'];
  }

  lemma SwallowedComma(s: Text, t: Text)
    requires s == [','] + ([','] + t)
    ensures ParseFrom(s) == ParseCount(',', ',', t)
  {
    assert s == [] + ([','] + ([','] + t)) && [','] + t == [] + ([','] + t);
    AtCmd(s, [], [','] + t);
    AtSub(',', [','] + t, [], t);
  }

  lemma ZeroComma(cmd: char, s: Text, t: Text)
    requires s == [cmd] + ([','] + t) && t == [','] + ([','] + ['0', ';'])
    ensures ParseFrom(s) == Ok(cmd, ',', 0, [])
  {
    var v := [','] + ['0', ';'];
    if cmd == ',' {
      SwallowedComma(s, t);
      NoCount(',', ',', t, v);
    } else {
      assert t == [] + ([','] + v);
      AtCmd(s, [cmd], t);
      AtSub(cmd, t, [], v);
      NoCount(cmd, ',', v, ['0', ';']);
    }
  }

  /** A packet without parameters has no third comma: it does not parse, and is given back exactly if
      its sub-command is a comma, which makes up for the one that is missing. */
  lemma ZeroFields(p: Packet)
    requires p.fields == []
    ensures Parse(Written(p)) == Ok(p.cmd, p.sub, 0, []) <==> p.sub == ',' && p.cmd != NUL
    ensures p.sub != ',' && p.cmd != ',' ==> Parse(Written(p)) == Malformed
  {
    hide ParseFrom, ParseSub, Written, Digits;
    if p.cmd == NUL || p.sub == NUL {
      ParseNul(p);
    } else {
      var s := ParseWhole(p);
      var t := ZeroText(p);
      assert s == (['#'] + s)[1..] == [p.cmd] + ([','] + t);
      if p.sub == ',' {
        ZeroComma(p.cmd, s, t);
      } else if p.cmd == ',' {
        SwallowedComma(s, t);
        CountKeeps(',', ',', t);
      } else {
        AtCmd(s, [p.cmd], t);
        AtSub(p.cmd, t, [p.sub], ['0', ';']);
        assert NoComma(['0', ';']);
      }
    }
  }
}
