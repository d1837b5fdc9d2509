/** The player's pixel unpackers (player/src/decoding.c): 16 palette positions of 1, 2 or 3
    bits each, packed most significant bit first into 2, 4 or 6 bytes.

    Each unpacker is written byte by byte, as the C is: a byte (or, for 3 bits, a group of
    three bytes) yields a fixed run of outputs. The encoder's packer is not part of this model,
    so each unpacker is paired with a reference packer that lays the fields out MSB-first, and
    the round trips in both directions are proved. unpack_bits4 and unpack_bits8 are modelled
    twice: as written (`...AsWritten`), with a lemma exhibiting the defect, and as evidently
    intended. */
module Unpack {

  import opened Bytes

  /** Every element is at most `max`. */
  predicate AllAtMost(v: seq<Byte>, max: Byte)
  {
    forall i :: 0 <= i < |v| ==> v[i] <= max
  }

  /** `(b >> shift) & mask`, the shape of every non-straddling output. */
  function Field(b: Byte, shift: Byte, mask: Byte): (r: Byte)
    requires shift < 8
    ensures r <= mask
  {
    (b >> shift) & mask
  }

  /** A 16-element block is its four quarters in order. */
  lemma Quarters(v: seq<Byte>)
    requires |v| == 16
    ensures v == v[..4] + v[4..8] + v[8..12] + v[12..]
  {
  }

  // ---------------------------------------------------------------------------------------
  // 1 bit per pixel

  /** The eight 1-bit outputs of one byte, top bit first. */
  function UnpackByte1(b: Byte): (dst: seq<Byte>)
    ensures |dst| == 8
  {
    [Field(b, 7, 1), Field(b, 6, 1), Field(b, 5, 1), Field(b, 4, 1),
     Field(b, 3, 1), Field(b, 2, 1), Field(b, 1, 1), Field(b, 0, 1)]
  }

  /** unpack_bits2: two bytes, eight outputs each. */
  function UnpackBits2(src: seq<Byte>): (dst: seq<Byte>)
    requires |src| >= 2
    ensures |dst| == 16
  {
    UnpackByte1(src[0]) + UnpackByte1(src[1])
  }

  /** Reference packer: eight 1-bit values in one byte, the first in the top bit. */
  function PackByte1(w: seq<Byte>): Byte
    requires |w| == 8
  {
    (w[0] << 7) | (w[1] << 6) | (w[2] << 5) | (w[3] << 4) |
    (w[4] << 3) | (w[5] << 2) | (w[6] << 1) | w[7]
  }

  function PackBits2(v: seq<Byte>): (r: seq<Byte>)
    requires |v| == 16
    ensures |r| == 2
  {
    [PackByte1(v[..8]), PackByte1(v[8..])]
  }

  /** Eight bits packed and unpacked again come back. */
  lemma UnpackPackByte1(w: seq<Byte>)
    requires |w| == 8 && AllAtMost(w, 1)
    ensures UnpackByte1(PackByte1(w)) == w
  {
    assert w[0] <= 1 && w[1] <= 1 && w[2] <= 1 && w[3] <= 1;
    assert w[4] <= 1 && w[5] <= 1 && w[6] <= 1 && w[7] <= 1;
    FieldsOfPacked1(w[0], w[1], w[2], w[3], w[4], w[5], w[6], w[7], PackByte1(w));
    UnpackByte1Is(PackByte1(w), w);
  }

  lemma UnpackByte1Is(b: Byte, w: seq<Byte>)
    requires |w| == 8
    requires Field(b, 7, 1) == w[0] && Field(b, 6, 1) == w[1] && Field(b, 5, 1) == w[2] && Field(b, 4, 1) == w[3]
    requires Field(b, 3, 1) == w[4] && Field(b, 2, 1) == w[5] && Field(b, 1, 1) == w[6] && Field(b, 0, 1) == w[7]
    ensures UnpackByte1(b) == w
  {
  }

  lemma FieldsOfPacked1(x0: Byte, x1: Byte, x2: Byte, x3: Byte, x4: Byte, x5: Byte, x6: Byte, x7: Byte, b: Byte)
    requires x0 <= 1 && x1 <= 1 && x2 <= 1 && x3 <= 1 && x4 <= 1 && x5 <= 1 && x6 <= 1 && x7 <= 1
    requires b == (x0 << 7) | (x1 << 6) | (x2 << 5) | (x3 << 4) | (x4 << 3) | (x5 << 2) | (x6 << 1) | x7
    ensures Field(b, 7, 1) == x0 && Field(b, 6, 1) == x1 && Field(b, 5, 1) == x2 && Field(b, 4, 1) == x3
    ensures Field(b, 3, 1) == x4 && Field(b, 2, 1) == x5 && Field(b, 1, 1) == x6 && Field(b, 0, 1) == x7
  {
  }

  /** A byte unpacked into bits and packed again comes back. */
  lemma PackUnpackByte1(b: Byte)
    ensures PackByte1(UnpackByte1(b)) == b
  {
  }

  /** Unpacking a packed block of 1-bit values gives the values back. */
  lemma UnpackPackBits2(v: seq<Byte>)
    requires |v| == 16 && AllAtMost(v, 1)
    ensures UnpackBits2(PackBits2(v)) == v
  {
    UnpackPackByte1(v[..8]);
    UnpackPackByte1(v[8..]);
    assert v == v[..8] + v[8..];
  }

  /** Every 2-byte input is the packing of its unpacked values: no bit is lost. */
  lemma PackUnpackBits2(src: seq<Byte>)
    requires |src| == 2
    ensures PackBits2(UnpackBits2(src)) == src
  {
    var u0, u1 := UnpackByte1(src[0]), UnpackByte1(src[1]);
    assert (u0 + u1)[..8] == u0 && (u0 + u1)[8..] == u1;
    PackUnpackByte1(src[0]);
    PackUnpackByte1(src[1]);
  }

  // ---------------------------------------------------------------------------------------
  // 2 bits per pixel

  /** The four 2-bit outputs of one byte, top field first. */
  function UnpackByte2(b: Byte): (dst: seq<Byte>)
    ensures |dst| == 4
  {
    [Field(b, 6, 3), Field(b, 4, 3), Field(b, 2, 3), Field(b, 0, 3)]
  }

  /** unpack_bits4 as evidently intended: four bytes, four outputs each. */
  function UnpackBits4(src: seq<Byte>): (dst: seq<Byte>)
    requires |src| >= 4
    ensures |dst| == 16
  {
    UnpackByte2(src[0]) + UnpackByte2(src[1]) + UnpackByte2(src[2]) + UnpackByte2(src[3])
  }

  /** unpack_bits4 as written: outputs 13, 14 and 15 read `src[4]` instead of `src[3]`, so five
      bytes are read and the low six bits of `src[3]` are never used. */
  function UnpackBits4AsWritten(src: seq<Byte>): (dst: seq<Byte>)
    requires |src| >= 5
    ensures |dst| == 16
  {
    UnpackByte2(src[0]) + UnpackByte2(src[1]) + UnpackByte2(src[2]) +
    [Field(src[3], 6, 3), Field(src[4], 4, 3), Field(src[4], 2, 3), Field(src[4], 0, 3)]
  }

  /** Reference packer: four 2-bit values in one byte, the first in the top two bits. */
  function PackByte2(w: seq<Byte>): Byte
    requires |w| == 4
  {
    (w[0] << 6) | (w[1] << 4) | (w[2] << 2) | w[3]
  }

  function PackBits4(v: seq<Byte>): (r: seq<Byte>)
    requires |v| == 16
    ensures |r| == 4
  {
    [PackByte2(v[..4]), PackByte2(v[4..8]), PackByte2(v[8..12]), PackByte2(v[12..])]
  }

  /** Four 2-bit fields packed and unpacked again come back. */
  lemma UnpackPackByte2(w: seq<Byte>)
    requires |w| == 4 && AllAtMost(w, 3)
    ensures UnpackByte2(PackByte2(w)) == w
  {
    assert w[0] <= 3 && w[1] <= 3 && w[2] <= 3 && w[3] <= 3;
    FieldsOfPacked2(w[0], w[1], w[2], w[3], PackByte2(w));
    UnpackByte2Is(PackByte2(w), w);
  }

  lemma UnpackByte2Is(b: Byte, w: seq<Byte>)
    requires |w| == 4
    requires Field(b, 6, 3) == w[0] && Field(b, 4, 3) == w[1] && Field(b, 2, 3) == w[2] && Field(b, 0, 3) == w[3]
    ensures UnpackByte2(b) == w
  {
  }

  lemma FieldsOfPacked2(x0: Byte, x1: Byte, x2: Byte, x3: Byte, b: Byte)
    requires x0 <= 3 && x1 <= 3 && x2 <= 3 && x3 <= 3
    requires b == (x0 << 6) | (x1 << 4) | (x2 << 2) | x3
    ensures Field(b, 6, 3) == x0 && Field(b, 4, 3) == x1 && Field(b, 2, 3) == x2 && Field(b, 0, 3) == x3
  {
  }

  /** A byte unpacked into 2-bit fields and packed again comes back. */
  lemma PackUnpackByte2(b: Byte)
    ensures PackByte2(UnpackByte2(b)) == b
  {
  }

  /** Unpacking a packed block of 2-bit values gives the values back. */
  lemma UnpackPackBits4(v: seq<Byte>)
    requires |v| == 16 && AllAtMost(v, 3)
    ensures UnpackBits4(PackBits4(v)) == v
  {
    UnpackPackByte2(v[..4]);
    UnpackPackByte2(v[4..8]);
    UnpackPackByte2(v[8..12]);
    UnpackPackByte2(v[12..]);
    Quarters(v);
  }

  /** Every 4-byte input is the packing of its unpacked values. */
  lemma PackUnpackBits4(src: seq<Byte>)
    requires |src| == 4
    ensures PackBits4(UnpackBits4(src)) == src
  {
    var u0, u1, u2, u3 := UnpackByte2(src[0]), UnpackByte2(src[1]), UnpackByte2(src[2]), UnpackByte2(src[3]);
    var u := u0 + u1 + u2 + u3;
    assert u[..4] == u0 && u[4..8] == u1 && u[8..12] == u2 && u[12..] == u3;
    PackUnpackByte2(src[0]);
    PackUnpackByte2(src[1]);
    PackUnpackByte2(src[2]);
    PackUnpackByte2(src[3]);
  }

  /** The unpacker as written reads the last three fields from the byte after the block: for
      sixteen 3s packed into 0xFF 0xFF 0xFF 0xFF and followed by a zero byte it yields 0 at
      positions 13 to 15. */
  lemma UnpackBits4AsWrittenLosesFields()
    ensures var v := seq(16, _ => 3 as Byte);
            var dst := UnpackBits4AsWritten(PackBits4(v) + [0]);
            dst != v && dst[13] == 0 && dst[14] == 0 && dst[15] == 0
  {
    var v := seq(16, _ => 3 as Byte);
    assert v[..4] == v[4..8] == v[8..12] == v[12..] == [3, 3, 3, 3];
    assert PackBits4(v) == [0xFF, 0xFF, 0xFF, 0xFF];
    var dst := UnpackBits4AsWritten(PackBits4(v) + [0]);
    assert dst[13] != v[13];
  }

  /** Outside positions 13 to 15 the unpacker as written agrees with the intended one, and it
      never looks at the low six bits of the fourth byte. */
  lemma UnpackBits4AsWrittenAgrees(src: seq<Byte>, b: Byte)
    requires |src| >= 5
    ensures UnpackBits4AsWritten(src)[..13] == UnpackBits4(src)[..13]
    ensures UnpackBits4AsWritten(src[3 := (src[3] & 0xC0) | (b & 0x3F)]) == UnpackBits4AsWritten(src)
  {
    var src' := src[3 := (src[3] & 0xC0) | (b & 0x3F)];
    assert Field(src'[3], 6, 3) == Field(src[3], 6, 3);
  }

  // ---------------------------------------------------------------------------------------
  // 3 bits per pixel

  /** The eight 3-bit outputs of the bytes a, b, c, as the C intends them: outputs 2 and 5
      straddle a byte boundary. */
  function UnpackTriple(a: Byte, b: Byte, c: Byte): (dst: seq<Byte>)
    ensures |dst| == 8
  {
    [Field(a, 5, 7), Field(a, 2, 7), ((a & 3) << 1) + Field(b, 7, 1),
     Field(b, 4, 7), Field(b, 1, 7), ((b & 1) << 2) + Field(c, 6, 3),
     Field(c, 3, 7), Field(c, 0, 7)]
  }

  /** The same outputs as written. C's `+` binds tighter than `<<`, and `<<` tighter than `&`,
      so the straddling outputs parse as `((a & 3) << (1 + (b >> 7))) & 1` and
      `((b & 1) << (2 + (c >> 6))) & 3`. Operands are promoted to int; every intermediate here
      is below 256, so bv8 arithmetic computes the same values. */
  function UnpackTripleAsWritten(a: Byte, b: Byte, c: Byte): (dst: seq<Byte>)
    ensures |dst| == 8
  {
    UnpackTriple(a, b, c)[2 := ((a & 3) << (1 + (b >> 7))) & 1][5 := ((b & 1) << (2 + (c >> 6))) & 3]
  }

  /** unpack_bits8 as evidently intended: bytes 0-2 hold outputs 0-7, bytes 3-5 outputs 8-15. */
  function UnpackBits8(src: seq<Byte>): (dst: seq<Byte>)
    requires |src| >= 6
    ensures |dst| == 16
  {
    UnpackTriple(src[0], src[1], src[2]) + UnpackTriple(src[3], src[4], src[5])
  }

  /** unpack_bits8 as written. */
  function UnpackBits8AsWritten(src: seq<Byte>): (dst: seq<Byte>)
    requires |src| >= 6
    ensures |dst| == 16
  {
    UnpackTripleAsWritten(src[0], src[1], src[2]) + UnpackTripleAsWritten(src[3], src[4], src[5])
  }

  /** As written, each straddling output is 0 whatever the input: the shift counts are at
      least 1 and 2, which clears the bits the masks keep. */
  lemma StraddlingAsWrittenZero(a: Byte, b: Byte, c: Byte)
    ensures ((a & 3) << (1 + (b >> 7))) & 1 == 0
    ensures ((b & 1) << (2 + (c >> 6))) & 3 == 0
  {
  }

  /** As written, the four straddling outputs are 0 whatever the input. */
  lemma UnpackBits8AsWrittenZeros(src: seq<Byte>)
    requires |src| >= 6
    ensures var dst := UnpackBits8AsWritten(src);
            dst[2] == 0 && dst[5] == 0 && dst[10] == 0 && dst[13] == 0
  {
    StraddlingAsWrittenZero(src[0], src[1], src[2]);
    StraddlingAsWrittenZero(src[3], src[4], src[5]);
  }

  /** Every output that does not straddle a byte boundary agrees with the intended unpacker. */
  lemma UnpackBits8AsWrittenAgrees(src: seq<Byte>)
    requires |src| >= 6
    ensures forall k :: 0 <= k < 16 && k % 8 != 2 && k % 8 != 5 ==>
              UnpackBits8AsWritten(src)[k] == UnpackBits8(src)[k]
  {
  }

  /** Reference packer: eight 3-bit values in three bytes, the first in the top three bits. */
  function PackTriple(w: seq<Byte>): (r: seq<Byte>)
    requires |w| == 8
    ensures |r| == 3
  {
    [ (w[0] << 5) | (w[1] << 2) | (w[2] >> 1),
      (w[2] << 7) | (w[3] << 4) | (w[4] << 1) | (w[5] >> 2),
      (w[5] << 6) | (w[6] << 3) | w[7] ]
  }

  function PackBits8(v: seq<Byte>): (r: seq<Byte>)
    requires |v| == 16
    ensures |r| == 6
  {
    PackTriple(v[..8]) + PackTriple(v[8..])
  }

  /** The fields held by the first packed byte. */
  lemma FieldsOfPackedA(x0: Byte, x1: Byte, x2: Byte, a: Byte)
    requires x0 <= 7 && x1 <= 7 && x2 <= 7
    requires a == (x0 << 5) | (x1 << 2) | (x2 >> 1)
    ensures Field(a, 5, 7) == x0 && Field(a, 2, 7) == x1 && a & 3 == x2 >> 1
  {
  }

  /** The fields held by the second packed byte. */
  lemma FieldsOfPackedB(x2: Byte, x3: Byte, x4: Byte, x5: Byte, b: Byte)
    requires x2 <= 7 && x3 <= 7 && x4 <= 7 && x5 <= 7
    requires b == (x2 << 7) | (x3 << 4) | (x4 << 1) | (x5 >> 2)
    ensures Field(b, 7, 1) == x2 & 1 && Field(b, 4, 7) == x3 && Field(b, 1, 7) == x4 && b & 1 == x5 >> 2
  {
  }

  /** The fields held by the third packed byte. */
  lemma FieldsOfPackedC(x5: Byte, x6: Byte, x7: Byte, c: Byte)
    requires x5 <= 7 && x6 <= 7 && x7 <= 7
    requires c == (x5 << 6) | (x6 << 3) | x7
    ensures Field(c, 6, 3) == x5 & 3 && Field(c, 3, 7) == x6 && Field(c, 0, 7) == x7
  {
  }

  /** A 3-bit value split into its top bits and its low bits is whole again. */
  lemma Straddle(x: Byte, hi: Byte, lo: Byte, n: Byte)
    requires x <= 7 && (n == 1 || n == 2)
    requires hi == x >> n && lo == x & ((1 << n) - 1)
    ensures (hi << n) + lo == x
  {
  }

  /** Eight 3-bit values packed and unpacked again come back. */
  lemma UnpackPackTriple(w: seq<Byte>)
    requires |w| == 8 && AllAtMost(w, 7)
    ensures var t := PackTriple(w); UnpackTriple(t[0], t[1], t[2]) == w
  {
    var t := PackTriple(w);
    assert w[0] <= 7 && w[1] <= 7 && w[2] <= 7 && w[3] <= 7;
    assert w[4] <= 7 && w[5] <= 7 && w[6] <= 7 && w[7] <= 7;
    FieldsOfPackedA(w[0], w[1], w[2], t[0]);
    FieldsOfPackedB(w[2], w[3], w[4], w[5], t[1]);
    FieldsOfPackedC(w[5], w[6], w[7], t[2]);
    Straddle(w[2], t[0] & 3, Field(t[1], 7, 1), 1);
    Straddle(w[5], t[1] & 1, Field(t[2], 6, 3), 2);
  }

  /** Three bytes unpacked into 3-bit values and packed again come back. */
  lemma PackUnpackTriple(a: Byte, b: Byte, c: Byte)
    ensures PackTriple(UnpackTriple(a, b, c)) == [a, b, c]
  {
    var u := UnpackTriple(a, b, c);
    var x0, x1, x2, x3 := Field(a, 5, 7), Field(a, 2, 7), ((a & 3) << 1) + Field(b, 7, 1), Field(b, 4, 7);
    var x4, x5, x6, x7 := Field(b, 1, 7), ((b & 1) << 2) + Field(c, 6, 3), Field(c, 3, 7), Field(c, 0, 7);
    RepackTriple(a, b, c, x0, x1, x2, x3, x4, x5, x6, x7);
    PackTripleIs([x0, x1, x2, x3, x4, x5, x6, x7], x0, x1, x2, x3, x4, x5, x6, x7, a, b, c);
  }

  /** The three bytes rebuilt from their eight 3-bit fields. */
  lemma RepackTriple(a: Byte, b: Byte, c: Byte, x0: Byte, x1: Byte, x2: Byte, x3: Byte, x4: Byte, x5: Byte, x6: Byte, x7: Byte)
    requires x0 == Field(a, 5, 7) && x1 == Field(a, 2, 7) && x2 == ((a & 3) << 1) + Field(b, 7, 1)
    requires x3 == Field(b, 4, 7) && x4 == Field(b, 1, 7) && x5 == ((b & 1) << 2) + Field(c, 6, 3)
    requires x6 == Field(c, 3, 7) && x7 == Field(c, 0, 7)
    ensures (x0 << 5) | (x1 << 2) | (x2 >> 1) == a
    ensures (x2 << 7) | (x3 << 4) | (x4 << 1) | (x5 >> 2) == b
    ensures (x5 << 6) | (x6 << 3) | x7 == c
  {
  }

  lemma PackTripleIs(w: seq<Byte>, x0: Byte, x1: Byte, x2: Byte, x3: Byte, x4: Byte, x5: Byte, x6: Byte, x7: Byte,
                     a: Byte, b: Byte, c: Byte)
    requires w == [x0, x1, x2, x3, x4, x5, x6, x7]
    requires (x0 << 5) | (x1 << 2) | (x2 >> 1) == a
    requires (x2 << 7) | (x3 << 4) | (x4 << 1) | (x5 >> 2) == b
    requires (x5 << 6) | (x6 << 3) | x7 == c
    ensures PackTriple(w) == [a, b, c]
  {
  }

  /** Unpacking a packed block of 3-bit values gives the values back. */
  lemma UnpackPackBits8(v: seq<Byte>)
    requires |v| == 16 && AllAtMost(v, 7)
    ensures UnpackBits8(PackBits8(v)) == v
  {
    var t0, t1 := PackTriple(v[..8]), PackTriple(v[8..]);
    assert (t0 + t1)[0] == t0[0] && (t0 + t1)[1] == t0[1] && (t0 + t1)[2] == t0[2];
    assert (t0 + t1)[3] == t1[0] && (t0 + t1)[4] == t1[1] && (t0 + t1)[5] == t1[2];
    UnpackPackTriple(v[..8]);
    UnpackPackTriple(v[8..]);
    assert v == v[..8] + v[8..];
  }

  /** Every 6-byte input is the packing of its unpacked values. */
  lemma PackUnpackBits8(src: seq<Byte>)
    requires |src| == 6
    ensures PackBits8(UnpackBits8(src)) == src
  {
    var u0, u1 := UnpackTriple(src[0], src[1], src[2]), UnpackTriple(src[3], src[4], src[5]);
    assert (u0 + u1)[..8] == u0 && (u0 + u1)[8..] == u1;
    PackUnpackTriple(src[0], src[1], src[2]);
    PackUnpackTriple(src[3], src[4], src[5]);
    assert src == [src[0], src[1], src[2]] + [src[3], src[4], src[5]];
  }

  /** Sixteen 7s pack into six 0xFF bytes; the unpacker as written returns 0 for four of them. */
  lemma UnpackBits8AsWrittenLosesFields()
    ensures var v := seq(16, _ => 7 as Byte);
            var dst := UnpackBits8AsWritten(PackBits8(v));
            dst != v && dst[2] == 0
  {
    var v := seq(16, _ => 7 as Byte);
    assert v[..8] == v[8..] == [7, 7, 7, 7, 7, 7, 7, 7];
    assert PackBits8(v) == [0xFF, 0xFF, 0xFF, 0xFF, 0xFF, 0xFF];
    var dst := UnpackBits8AsWritten(PackBits8(v));
    UnpackBits8AsWrittenZeros(PackBits8(v));
    assert dst[2] != v[2];
  }
}
