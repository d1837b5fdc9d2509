/** Reading a file as a byte sequence at a position, the way both readers of the codec do it:
    Go's `file.Read` / `binary.Read` and C's `fread` never fail loudly. A read that runs past the
    end delivers what is there, leaves the rest of the destination as it was (zero here) and
    leaves the position at the end of the file; a seek may move the position past the end. */
module Stream {

  import opened Bytes

  /** The n bytes at pos, zero where the file has ended. */
  function Take(s: seq<Byte>, pos: nat, n: nat): (r: seq<Byte>)
    ensures |r| == n
    ensures pos + n <= |s| ==> r == s[pos..pos + n]
    ensures forall i :: 0 <= i < n && pos + i >= |s| ==> r[i] == 0
  {
    seq(n, i requires 0 <= i < n => if pos + i < |s| then s[pos + i] else 0)
  }

  /** The position after a read of n bytes at pos. */
  function After(s: seq<Byte>, pos: nat, n: nat): (p: nat)
    ensures pos <= p <= pos + n
    ensures pos + n <= |s| ==> p == pos + n
    ensures pos + n > |s| ==> p == (if pos < |s| then |s| else pos)
  {
    if pos + n <= |s| then pos + n else if pos < |s| then |s| else pos
  }

  /** A little-endian 16-bit read; a short read decodes nothing and leaves the value 0. */
  function ReadU16(s: seq<Byte>, pos: nat): (v: nat)
    ensures v < Two16
    ensures pos + 2 > |s| ==> v == 0
  {
    if pos + 2 <= |s| then ReadLE16(s[pos..pos + 2]) else 0
  }

  /** A little-endian 32-bit read; a short read decodes nothing and leaves the value 0. */
  function ReadU32(s: seq<Byte>, pos: nat): (v: nat)
    ensures v < Two32
    ensures pos + 4 > |s| ==> v == 0
  {
    if pos + 4 <= |s| then ReadLE32(s[pos..pos + 4]) else 0
  }

  /** A one-byte read; past the end the value stays 0. */
  function ReadU8(s: seq<Byte>, pos: nat): (v: nat)
    ensures v < 256
    ensures pos >= |s| ==> v == 0
  {
    if pos < |s| then Val(s[pos]) else 0
  }

  /** A one-byte read into a byte variable that starts at 0. */
  function ReadByte(s: seq<Byte>, pos: nat): (b: Byte)
    ensures Val(b) == ReadU8(s, pos)
  {
    if pos < |s| then s[pos] else 0
  }

  /** Reading n bytes at offset i of a written block w reads w's own bytes. */
  lemma TakeInside(s: seq<Byte>, pos: nat, w: seq<Byte>, i: nat, n: nat)
    requires pos + |w| <= |s| && s[pos..pos + |w|] == w && i + n <= |w|
    ensures Take(s, pos + i, n) == w[i..i + n]
  {
    SliceOfSlice(s, pos, pos + |w|, i, i + n);
  }

  /** Reading back a 16-bit field where LE16(x) was written. */
  lemma ReadU16At(s: seq<Byte>, pos: nat, x: nat)
    requires x < Two16 && pos + 2 <= |s| && s[pos..pos + 2] == LE16(x)
    ensures ReadU16(s, pos) == x && After(s, pos, 2) == pos + 2
  {
    LE16RoundTrip(x);
  }

  /** Reading back a 32-bit field where LE32(x) was written. */
  lemma ReadU32At(s: seq<Byte>, pos: nat, x: nat)
    requires x < Two32 && pos + 4 <= |s| && s[pos..pos + 4] == LE32(x)
    ensures ReadU32(s, pos) == x && After(s, pos, 4) == pos + 4
  {
    LE32RoundTrip(x);
  }
}
