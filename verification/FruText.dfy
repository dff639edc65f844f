/**
 The type/length encoded strings of a FRU (section 13 of the IPMI FRU Information Storage Definition
 v1.0): six-bit characters packed into bytes, and the plainer encodings beside them.
 */
module FruText {
  import opened Bytes

  const GROUP := 0x100_0000

  /** The bytes of a string as one little-endian number: the bit stream the characters are cut from. */
  function Stream(data: seq<byte>): (r: nat) {
    if data == [] then 0 else data[0] + 256 * Stream(data[1..])
  }

  /** Bits 6j to 6j+5 of a bit stream. */
  function Sextet(bits: nat, j: nat): (b: byte)
    ensures b < 64
  {
    if j == 0 then bits % 64 else Sextet(bits / 64, j - 1)
  }

  function Groups(len: nat): (r: nat) {
    (len + 2) / 3
  }

  /** The buffer the code allocates has room for exactly those. */
  lemma SizeExact(len: nat)
    ensures var n := (len + 2) * 4 / 3; n - n % 4 == 4 * Groups(len)
  {
  }

  lemma StreamStep(data: seq<byte>, i: nat)
    requires i < |data|
    ensures Stream(data[i..]) == data[i] + 256 * Stream(data[i + 1..])
  {
    assert data[i..][1..] == data[i + 1..];
  }

  /** Three bytes on in the stream. */
  lemma StreamThree(data: seq<byte>)
    requires |data| >= 3
    ensures Stream(data) == data[0] + 256 * data[1] + 65536 * data[2] + GROUP * Stream(data[3..])
  {
    hide Stream;
    assert data[0..] == data;
    StreamStep(data, 0);
    StreamStep(data, 1);
    StreamStep(data, 2);
  }

  lemma StreamDrop(data: seq<byte>)
    requires |data| >= 3
    ensures Stream(data) == Stream(data[..3]) + GROUP * Stream(data[3..]) && Stream(data[..3]) < GROUP
  {
    StreamThree(data);
    StreamThree(data[..3]);
    assert data[..3][3..] == [] && Stream([]) == 0;
    hide Stream;
  }

  function Pow64(m: nat): (r: nat) {
    if m == 0 then 1 else 64 * Pow64(m - 1)
  }

  lemma DivStep(g: nat, rest: nat, p: nat)
    ensures (g + 64 * p * rest) / 64 == g / 64 + p * rest && (g + 64 * p * rest) % 64 == g % 64
  {
    assert g + 64 * p * rest == 64 * (g / 64 + p * rest) + g % 64;
  }

  /** The first `m` characters depend on the first `6m` bits only. */
  lemma {:induction false} SextetLow(g: nat, rest: nat, m: nat, j: nat)
    requires j < m
    ensures Sextet(g + Pow64(m) * rest, j) == Sextet(g, j)
  {
    DivStep(g, rest, Pow64(m - 1));
    if j > 0 {
      SextetLow(g / 64, rest, m - 1, j - 1);
    }
  }

  /** The later ones are those of the stream without these bits. */
  lemma {:induction false} SextetHigh(g: nat, rest: nat, m: nat, j: nat)
    requires g < Pow64(m)
    ensures Sextet(g + Pow64(m) * rest, m + j) == Sextet(rest, j)
  {
    if m > 0 {
      DivStep(g, rest, Pow64(m - 1));
      SextetHigh(g / 64, rest, m - 1, j);
    }
  }

  lemma PowGroup()
    ensures Pow64(4) == GROUP
  {
  }

  lemma SliceOn(data: seq<byte>, k: nat, from: nat, to: nat)
    requires k <= from <= to <= |data|
    ensures data[k..][from - k..to - k] == data[from..to]
  {
  }

  /** Group `g` of a string yields characters 4g to 4g+3, zero bits standing in for missing bytes. */
  lemma {:induction false} GroupSextets(data: seq<byte>, g: nat, k: nat)
    requires 3 * g < |data| && k < 4
    ensures var end := if 3 * g + 3 < |data| then 3 * g + 3 else |data|;
            Sextet(Stream(data), 4 * g + k) == Sextet(Stream(data[3 * g..end]), k)
    decreases g
  {
    hide Stream, Sextet, Pow64;
    PowGroup();
    if g == 0 {
      if |data| > 3 {
        StreamDrop(data);
        SextetLow(Stream(data[..3]), Stream(data[3..]), 4, k);
        assert data[0..3] == data[..3];
      } else {
        assert data[0..|data|] == data;
      }
    } else {
      StreamDrop(data);
      SextetHigh(Stream(data[..3]), Stream(data[3..]), 4, 4 * (g - 1) + k);
      GroupSextets(data[3..], g - 1, k);
      var end := if 3 * g + 3 < |data| then 3 * g + 3 else |data|;
      SliceOn(data, 3, 3 * g, end);
    }
  }

  // ----- nothing is lost in the characters

  lemma PowNext(n: nat)
    ensures Pow64(n + 4) == GROUP * Pow64(n)
  {
    assert Pow64(n + 4) == 64 * Pow64(n + 3);
    assert Pow64(n + 3) == 64 * Pow64(n + 2);
    assert Pow64(n + 2) == 64 * Pow64(n + 1);
  }

  /** At most three bytes are less than one group. */
  lemma StreamShort(data: seq<byte>)
    requires |data| <= 3
    ensures Stream(data) < GROUP && (data == [] ==> Stream(data) == 0)
  {
    if data != [] {
      assert data[0..] == data && data[|data|..] == [] && Stream([]) == 0;
      StreamStep(data, 0);
      hide Stream;
      if |data| > 1 {
        StreamStep(data, 1);
      }
      if |data| > 2 {
        StreamStep(data, 2);
      }
    }
  }

  lemma {:induction false} SextetsDetermine(x: nat, y: nat, m: nat)
    requires x < Pow64(m) && y < Pow64(m) && forall j :: 0 <= j < m ==> Sextet(x, j) == Sextet(y, j)
    ensures x == y
  {
    if m > 0 {
      assert Sextet(x, 0) == Sextet(y, 0);
      forall j | 0 <= j < m - 1 ensures Sextet(x / 64, j) == Sextet(y / 64, j) {
        assert Sextet(x, j + 1) == Sextet(y, j + 1);
      }
      SextetsDetermine(x / 64, y / 64, m - 1);
    }
  }

  lemma {:induction false} StreamDetermines(a: seq<byte>, b: seq<byte>)
    requires |a| == |b| && Stream(a) == Stream(b)
    ensures a == b
  {
    if a != [] {
      assert a == [a[0]] + a[1..] && b == [b[0]] + b[1..];
      StreamDetermines(a[1..], b[1..]);
    }
  }

  lemma {:induction false} StreamBound(data: seq<byte>)
    ensures Stream(data) < Pow64(4 * Groups(|data|))
  {
    assert Pow64(0) == 1;
    hide Stream, Pow64;
    if data == [] {
      StreamShort(data);
    } else if |data| <= 3 {
      PowNext(0);
      StreamShort(data);
    } else {
      StreamDrop(data);
      StreamBound(data[3..]);
      PowNext(4 * Groups(|data| - 3));
    }
  }

  /** Equal characters of equally many bytes come from equal bytes. */
  lemma CharactersDetermine(a: seq<byte>, b: seq<byte>)
    requires |a| == |b|
    requires forall j :: 0 <= j < 4 * Groups(|a|) ==> Sextet(Stream(a), j) == Sextet(Stream(b), j)
    ensures a == b
  {
    StreamBound(a);
    StreamBound(b);
    SextetsDetermine(Stream(a), Stream(b), 4 * Groups(|a|));
    StreamDetermines(a, b);
  }

  // ----- the other encodings

  const BCD_PLUS := "0123456789 -.:,_"
  const HEX := "0123456789abcdef"

  /** Two hexadecimal digits for a byte. */
  predicate HexAt(b: byte, s: seq<byte>, at: nat)
    requires at + 2 <= |s|
  {
    s[at] as char == HEX[b / 16] && s[at + 1] as char == HEX[b % 16]
  }

  /** What each encoding makes of the bytes of a string. */
  predicate Encodes(kind: int, body: seq<byte>, s: seq<byte>) {
    match kind
    case 0 =>
      && |s| == 2 * |body|
      && (forall k :: 0 <= k < |body| ==> HexAt(body[k], s, 2 * k))
    case 1 => |s| == |body| && forall k :: 0 <= k < |body| ==> s[k] as char == BCD_PLUS[body[k] % 16]
    case 2 => |s| == 4 * Groups(|body|) && forall j :: 0 <= j < |s| ==> s[j] == 0x20 + Sextet(Stream(body), j)
    case _ => s == body
  }

  method HexDump(body: seq<byte>) returns (s: seq<byte>)
    ensures |s| == 2 * |body|
    ensures forall k :: 0 <= k < |body| ==> HexAt(body[k], s, 2 * k)
  {
    s := [];
    for i := 0 to |body|
      invariant |s| == 2 * i
      invariant forall k :: 0 <= k < i ==> HexAt(body[k], s, 2 * k)
    {
      s := s + [HEX[body[i] / 16] as int, HEX[body[i] % 16] as int];
    }
  }

  /** One character a byte: the high half of it is not looked at. */
  method BcdPlus(body: seq<byte>) returns (s: seq<byte>)
    ensures |s| == |body|
    ensures forall k :: 0 <= k < |body| ==> s[k] as char == BCD_PLUS[body[k] % 16]
  {
    s := [];
    for k := 0 to |body|
      invariant |s| == k
      invariant forall i :: 0 <= i < k ==> s[i] as char == BCD_PLUS[body[i] % 16]
    {
      s := s + [BCD_PLUS[body[k] % 16] as int];
    }
  }

  /** Four characters shifted out of 24 bits. */
  method FourChars(str: array<byte>, j: nat, bits0: nat)
    requires j + 4 <= str.Length
    modifies str
    ensures forall x :: j <= x < j + 4 ==> str[x] == 0x20 + Sextet(bits0, x - j)
    ensures forall x :: 0 <= x < str.Length && !(j <= x < j + 4) ==> str[x] == old(str[x])
  {
    var bits := bits0;
    for k: nat := 0 to 4
      invariant forall y: nat {:trigger Sextet(bits, y)} :: Sextet(bits, y) == Sextet(bits0, k + y)
      invariant forall x :: j <= x < j + k ==> str[x] == 0x20 + Sextet(bits0, x - j)
      invariant forall x :: 0 <= x < str.Length && !(j <= x < j + 4) ==> str[x] == old(str[x])
    {
      assert Sextet(bits, 0) == Sextet(bits0, k + 0);
      str[j + k] := bits % 64 + 0x20;
      ghost var before := bits;
      bits := bits / 64;
      forall y: nat ensures Sextet(bits, y) == Sextet(bits0, k + 1 + y) {
        assert Sextet(before, y + 1) == Sextet(bits, y);
      }
    }
  }

  /** The six-bit loop: up to three bytes are loaded, then four characters shifted out. */
  method SixBit(body: seq<byte>) returns (s: seq<byte>)
    ensures |s| == 4 * Groups(|body|)
    ensures forall j :: 0 <= j < |s| ==> s[j] == 0x20 + Sextet(Stream(body), j)
  {
    hide Stream, Sextet;
    var size := (|body| + 2) * 4 / 3;
    size := size - size % 4;
    SizeExact(|body|);
    var str := new byte[size + 1](_ => 0);
    var i, j := 0, 0;
    while i < |body|
      invariant i % 3 == 0 && 3 * j == 4 * i && j <= size && i <= |body| + 2
      invariant forall x :: 0 <= x < j ==> str[x] == 0x20 + Sextet(Stream(body), x)
      decreases |body| + 3 - i
    {
      var end := if i + 3 < |body| then i + 3 else |body|;
      FourChars(str, j, Stream(body[i..end]));
      forall x | j <= x < j + 4 ensures str[x] == 0x20 + Sextet(Stream(body), x) {
        GroupSextets(body, i / 3, x - j);
      }
      i, j := i + 3, j + 4;
    }
    s := str[..size];
  }

  /** get_fru_area_str: the string, if it has characters, and the offset behind it. */
  method AreaString(data: seq<byte>, offset: nat) returns (str: Option<seq<byte>>, offset': nat)
    requires offset < |data| && offset + 1 + data[offset] % 64 <= |data|
    ensures offset' == offset + 1 + data[offset] % 64
    ensures var (kind, len: int) := (data[offset] / 64, data[offset] % 64);
            if len == 0 then str == None else str.Some? && Encodes(kind, data[offset + 1..offset + 1 + len], str.value)
  {
    var (kind, len: int) := (data[offset] / 64, data[offset] % 64);
    var body := data[offset + 1..offset + 1 + len];
    offset' := offset + 1 + len;
    if len == 0 {
      str := None;
      return;
    }
    match kind
    case 0 =>
      var s := HexDump(body);
      str := Some(s);
    case 1 =>
      var s := BcdPlus(body);
      str := Some(s);
    case 2 =>
      var s := SixBit(body);
      str := Some(s);
    case _ =>
      str := Some(body);
  }
}
