/** Bytes and the little-endian integer encodings used by `binary.Write(..., binary.LittleEndian, ...)`
    on the encoder side and by `fread` into `uint32_t` on the (little-endian) player side. */
module Bytes {

  import Numeric

  type Byte = bv8

  const Two16: nat := 0x1_0000
  const Two31: nat := 0x8000_0000
  const Two32: nat := 0x1_0000_0000

  /** Go's `byte(x)` / `uint8(x)` conversion of an int: the low eight bits. */
  function Low8(x: int): (b: Byte)
    ensures b as int == x % 256
    ensures 0 <= x < 256 ==> b as int == x
  {
    ByteOf(x % 256)
  }

  /** The byte holding a number in [0, 256), counted up from zero: the solver's direct
      int-to-bit-vector conversion is too costly to rely on. */
  function ByteOf(n: int): (b: Byte)
    requires 0 <= n < 256
    ensures b as int == n
  {
    if n == 0 then 0 else ByteOf(n - 1) + 1
  }

  /** Go's `uint32(x)` conversion of an int: the value modulo 2^32. */
  function U32(x: int): (r: nat)
    ensures r < Two32
    ensures (x - r) % Two32 == 0
    ensures 0 <= x < Two32 ==> r == x
  {
    x % Two32
  }

  /** C's conversion of a `uint32_t` into an `int` (32-bit two's complement): values from 2^31
      on turn negative. */
  function Int32Of(v: int): (r: int)
    ensures -(Two31 as int) <= r < Two31
    ensures (r - v) % Two32 == 0
    ensures 0 <= v < Two31 ==> r == v
    ensures Two31 <= v < Two32 ==> r == v - Two32
  {
    var w := v % Two32;
    if w >= Two31 then w - Two32 else w
  }

  function LE16(x: nat): (r: seq<Byte>)
    requires x < Two16
    ensures |r| == 2
  {
    [Low8(x), Low8(x / 0x100)]
  }

  /** Four bytes, least significant first: the low half then the high half. */
  function LE32(x: nat): (r: seq<Byte>)
    requires x < Two32
    ensures |r| == 4
  {
    LE16(x % Two16) + LE16(x / Two16)
  }

  /** A byte as a number in [0, 256). */
  function Val(b: Byte): (v: nat)
    ensures v < 256
  {
    b as nat
  }

  function ReadLE16(s: seq<Byte>): (v: nat)
    requires |s| >= 2
    ensures v < Two16
  {
    Val(s[0]) + 0x100 * Val(s[1])
  }

  function ReadLE32(s: seq<Byte>): (v: nat)
    requires |s| >= 4
    ensures v < Two32
  {
    ReadLE16(s) + Two16 * ReadLE16(s[2..])
  }

  lemma LE16RoundTrip(x: nat)
    requires x < Two16
    ensures ReadLE16(LE16(x)) == x
  {
  }

  lemma LE32RoundTrip(x: nat)
    requires x < Two32
    ensures ReadLE32(LE32(x)) == x
  {
    LE16RoundTrip(x % Two16);
    LE16RoundTrip(x / Two16);
    assert LE32(x)[2..] == LE16(x / Two16);
  }

  lemma Low8Val(b: Byte)
    ensures Low8(Val(b)) == b
  {
  }

  /** Every two bytes are the encoding of the value they are read as. */
  lemma ReadLE16Inverse(s: seq<Byte>)
    requires |s| == 2
    ensures LE16(ReadLE16(s)) == s
  {
    Numeric.DivModUnique(ReadLE16(s), 0x100, Val(s[1]), Val(s[0]));
    Low8Val(s[0]);
    Low8Val(s[1]);
  }

  /** Every four bytes are the encoding of the value they are read as. */
  lemma ReadLE32Inverse(s: seq<Byte>)
    requires |s| == 4
    ensures LE32(ReadLE32(s)) == s
  {
    var lo, hi := ReadLE16(s[..2]), ReadLE16(s[2..]);
    assert ReadLE32(s) == lo + Two16 * hi;
    Numeric.DivModUnique(ReadLE32(s), Two16, hi, lo);
    ReadLE16Inverse(s[..2]);
    ReadLE16Inverse(s[2..]);
    assert s == s[..2] + s[2..];
  }

  /** The pieces of a concatenation of six, by offset. */
  lemma Pieces6(a: seq<Byte>, b: seq<Byte>, c: seq<Byte>, d: seq<Byte>, e: seq<Byte>, f: seq<Byte>)
    ensures var s := a + b + c + d + e + f;
            var i1 := |a|; var i2 := i1 + |b|; var i3 := i2 + |c|; var i4 := i3 + |d|; var i5 := i4 + |e|;
            && s[..i1] == a && s[i1..i2] == b && s[i2..i3] == c && s[i3..i4] == d && s[i4..i5] == e && s[i5..] == f
  {
  }

  /** The pieces of a concatenation of five, by offset. */
  lemma Pieces5(a: seq<Byte>, b: seq<Byte>, c: seq<Byte>, d: seq<Byte>, e: seq<Byte>)
    ensures var s := a + b + c + d + e;
            var i1 := |a|; var i2 := i1 + |b|; var i3 := i2 + |c|; var i4 := i3 + |d|;
            && s[..i1] == a && s[i1..i2] == b && s[i2..i3] == c && s[i3..i4] == d && s[i4..] == e
  {
  }

  /** A slice of a slice is a slice. */
  lemma SliceOfSlice(s: seq<Byte>, a: nat, b: nat, i: nat, j: nat)
    requires a <= b <= |s| && i <= j <= b - a
    ensures s[a..b][i..j] == s[a + i..a + j]
  {
    forall k | 0 <= k < j - i ensures s[a..b][i..j][k] == s[a + i..a + j][k] {
    }
  }
}
