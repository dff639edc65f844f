/** Bytes, byte sums and little-endian numbers, shared by every protocol model. */
module Bytes {

  type byte = b: int | 0 <= b < 256

  /** Subtraction of unsigned chars. */
  function Minus(a: byte, b: byte): (r: byte) {
    (a + 256 - b) % 256
  }

  datatype Option<+T> = None | Some(value: T)

  /** The unbounded sum of a byte sequence. */
  function Sum(s: seq<byte>): (r: nat) {
    if s == [] then 0 else s[0] + Sum(s[1..])
  }

  lemma {:induction false} SumConcat(a: seq<byte>, b: seq<byte>)
    ensures Sum(a + b) == Sum(a) + Sum(b)
  {
    if a == [] {
      assert a + b == b;
    } else {
      assert (a + b)[1..] == a[1..] + b;
      SumConcat(a[1..], b);
    }
  }

  lemma SumStep(s: seq<byte>, i: nat)
    requires i < |s|
    ensures Sum(s[..i + 1]) == Sum(s[..i]) + s[i]
  {
    SumConcat(s[..i], [s[i]]);
    assert s[..i + 1] == s[..i] + [s[i]];
  }

  /** One step of a running sum kept in eight or in sixteen bits. */
  lemma SumStep8(s: seq<byte>, i: nat)
    requires i < |s|
    ensures Sum(s[..i + 1]) % 256 == (Sum(s[..i]) % 256 + s[i]) % 256
  {
    SumStep(s, i);
  }

  lemma SumStep16(s: seq<byte>, i: nat)
    requires i < |s|
    ensures Sum(s[..i + 1]) % 0x1_0000 == (Sum(s[..i]) % 0x1_0000 + s[i]) % 0x1_0000
  {
    SumStep(s, i);
  }

  lemma Sum3(a: byte, b: byte, c: byte)
    ensures Sum([a, b, c]) == a + b + c
  {
    SumConcat([a], [b, c]);
    SumConcat([b], [c]);
    assert [a] + [b, c] == [a, b, c] && [b] + [c] == [b, c];
  }

  /** The three-byte little-endian form of a length. */
  function Le24(n: nat): (s: seq<byte>)
    ensures |s| == 3
  {
    [n % 256, (n / 256) % 256, (n / 65536) % 256]
  }

  function FromLe24(s: seq<byte>): (r: nat)
    requires |s| == 3
  {
    var (lo: int, mid: int, hi: int) := (s[0], s[1], s[2]);
    lo + 256 * mid + 65536 * hi
  }

  lemma Le24RoundTrip(n: nat)
    ensures n < 0x100_0000 ==> FromLe24(Le24(n)) == n
  {
    var h := n / 256;
    assert n == 256 * h + n % 256;
    assert h == 256 * (h / 256) + h % 256;
    assert n / 65536 == h / 256;
  }

  /** The bytes `s` with the stretch starting at `at` replaced by `data`. */
  function Splice(s: seq<byte>, at: nat, data: seq<byte>): (r: seq<byte>)
    requires at + |data| <= |s|
    ensures |r| == |s|
    ensures forall x :: 0 <= x < |s| ==> r[x] == if at <= x < at + |data| then data[x - at] else s[x]
  {
    s[..at] + data + s[at + |data|..]
  }

  lemma Associate<T>(a: seq<T>, b: seq<T>, c: seq<T>)
    ensures (a + b) + c == a + (b + c)
  {
  }

  lemma Regroup(a: seq<byte>, b: seq<byte>, c: seq<byte>, d: seq<byte>)
    ensures a + (b + c) + d == a + b + (c + d) == (a + b) + c + d
  {
  }

  /** At most the first `n` bytes. */
  function Take(data: seq<byte>, n: nat): (r: seq<byte>)
    ensures |r| == (if n < |data| then n else |data|) && r == data[..|r|]
  {
    data[..if n < |data| then n else |data|]
  }

  /** A device's store with `data` put at `at`; what lies past its end is not kept. */
  function Store(dev: seq<byte>, at: nat, data: seq<byte>): (r: seq<byte>)
    ensures |r| == |dev|
    ensures forall x :: 0 <= x < |dev| ==> r[x] == if at <= x < at + |data| then data[x - at] else dev[x]
  {
    seq(|dev|, x requires 0 <= x < |dev| => if at <= x < at + |data| then data[x - at] else dev[x])
  }

  lemma NothingStored(dev: seq<byte>, at: nat, data: seq<byte>)
    requires data == []
    ensures Store(dev, at, data) == dev
  {
  }
}
