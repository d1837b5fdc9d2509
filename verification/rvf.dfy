/** The RVF container as the encoder writes it (encoder/rvffile.go): a header with the palette
    and an optional audio block, then one record per frame, raw or compressed. Each writer is a
    function from its arguments to the bytes it appends to the file. */
module RvfFile {

  import opened Bytes
  import opened Results
  import opened Colors
  import opened Wave

  /** Bits of the header's flags byte. */
  const CompressionNone: Byte := 0
  const CompressionFull: Byte := 1
  const AudioBlock: Byte := 2
  const AudioStream: Byte := 4

  /** Bits of a compressed frame's flags byte. */
  const FrameRegular: Byte := 0
  const FrameIsKeyframe: Byte := 1
  const FrameIsFirst: Byte := 2
  const FrameIsLast: Byte := 4

  /** 'R', 'V', 'F' and the format version 3. */
  const Magic: seq<Byte> := [0x52, 0x56, 0x46, 3]

  /** Magic, width, height and frame count, each count as Go's `uint32(...)` of an int, and the four
      bytes of the float32 frame time, which are carried as they are. */
  function FixedHeader(width: int, height: int, frames: int, frameTime: seq<Byte>): (r: seq<Byte>)
    requires |frameTime| == 4
    ensures |r| == 20 && r[..4] == Magic && r[16..] == frameTime
  {
    Magic + LE32(U32(width)) + LE32(U32(height)) + LE32(U32(frames)) + frameTime
  }

  /** The flags byte as written: with audio the AudioBlock bit is added to the caller's flags. */
  function FlagsByte(flags: Byte, audio: Option<WavFile>): (f: Byte)
    ensures f & CompressionFull == flags & CompressionFull
    ensures audio.Some? ==> f & AudioBlock == AudioBlock
    ensures audio.None? ==> f == flags
  {
    if audio.None? then flags else flags | AudioBlock
  }

  /** With audio: channel count (one byte), sample rate (four bytes) and a quality byte. */
  function AudioFields(audio: Option<WavFile>): (r: seq<Byte>)
    ensures audio.None? ==> r == []
    ensures audio.Some? ==> |r| == 6
  {
    match audio
    case None => []
    case Some(a) => [Low8(a.channels)] + LE32(U32(a.sampleRate)) + [if a.isHiQuality then 1 else 0]
  }

  /** The three component bytes of one colour. */
  function ColorBytes(c: IntColor): (r: seq<Byte>)
    ensures |r| == 3
  {
    [Low8(c.r), Low8(c.g), Low8(c.b)]
  }

  /** The colours one after another. */
  function PaletteColors(palette: Palette): (r: seq<Byte>)
    ensures |r| == 3 * |palette|
  {
    if |palette| == 0 then [] else ColorBytes(palette[0]) + PaletteColors(palette[1..])
  }

  /** The palette section: `uint8(len - 1)`, then the colours. */
  function PaletteBytes(palette: Palette): (r: seq<Byte>)
    ensures |r| == 1 + 3 * |palette|
    ensures 1 <= |palette| <= 256 ==> Val(r[0]) + 1 == |palette|
    ensures r[1..] == PaletteColors(palette)
  {
    [Low8(|palette| - 1)] + PaletteColors(palette)
  }

  /** With audio, the sample data after its `uint32` length. */
  function AudioData(audio: Option<WavFile>): (r: seq<Byte>)
    ensures audio.None? ==> r == []
    ensures audio.Some? ==> |r| == 4 + |audio.value.data| && r[4..] == audio.value.data
  {
    match audio
    case None => []
    case Some(a) => LE32(U32(|a.data|)) + a.data
  }

  /** NewRVFfile: everything written before the first frame. */
  function NewRvfFile(palette: Palette, width: int, height: int, frames: int, frameTime: seq<Byte>,
                      flags: Byte, audio: Option<WavFile>): (r: seq<Byte>)
    requires |frameTime| == 4
    ensures |r| == 21 + |AudioFields(audio)| + 1 + 3 * |palette| + |AudioData(audio)|
  {
    FixedHeader(width, height, frames, frameTime) + [FlagsByte(flags, audio)] + AudioFields(audio)
      + PaletteBytes(palette) + AudioData(audio)
  }

  /** WriteRaw: one byte per palette index, the index modulo 256. */
  function WriteRaw(data: seq<int>): (r: seq<Byte>)
    ensures |r| == |data|
    ensures forall i :: 0 <= i < |data| && 0 <= data[i] < 256 ==> Val(r[i]) == data[i]
  {
    seq(|data|, i requires 0 <= i < |data| => Low8(data[i]))
  }

  /** WriteCompressed: the record length (payload plus five) before the flags byte and again after
      the payload, so the record can be walked in both directions. */
  function WriteCompressed(data: seq<Byte>, flags: Byte): (r: seq<Byte>)
    ensures |r| == |data| + 9
    ensures r[4] == flags && r[5..|r| - 4] == data
    ensures r[..4] == r[|r| - 4..]
    ensures |data| + 5 < Two32 ==> ReadLE32(r[..4]) == |data| + 5
  {
    var size := LE32(U32(|data| + 5));
    var r := size + [flags] + data + size;
    assert r[..4] == size && r[|r| - 4..] == size;
    LE32RoundTrip(U32(|data| + 5));
    r
  }

  /** The records after the header, one after another. */
  function Concat(records: seq<seq<Byte>>): (r: seq<Byte>)
  {
    if |records| == 0 then [] else Concat(records[..|records| - 1]) + records[|records| - 1]
  }

  /** The first k records are a prefix of all of them. */
  lemma {:induction false} ConcatPrefix(records: seq<seq<Byte>>, k: nat)
    requires k <= |records|
    ensures |Concat(records[..k])| <= |Concat(records)|
    ensures Concat(records)[..|Concat(records[..k])|] == Concat(records[..k])
    decreases |records| - k
  {
    if k < |records| {
      var n := |records|;
      var init := records[..n - 1];
      ConcatPrefix(init, k);
      assert init[..k] == records[..k];
      assert Concat(records) == Concat(init) + records[n - 1];
    } else {
      assert records[..k] == records;
    }
  }

  /** Record k lies right after the first k. */
  lemma RecordAt(records: seq<seq<Byte>>, k: nat)
    requires k < |records|
    ensures var start := |Concat(records[..k])|;
            && start + |records[k]| <= |Concat(records)|
            && Concat(records)[start..start + |records[k]|] == records[k]
  {
    ConcatPrefix(records, k + 1);
    assert records[..k + 1][..k] == records[..k];
    var whole, upto := Concat(records), Concat(records[..k + 1]);
    assert upto == Concat(records[..k]) + records[k];
    var start := |Concat(records[..k])|;
    assert whole[start..start + |records[k]|] == upto[start..];
  }

  /** One compressed frame as Encode hands it to WriteCompressed. */
  datatype CompressedFrame = CompressedFrame(flags: Byte, data: seq<Byte>)

  /** The records of a compressed file, in the order Encode writes them. */
  function CompressedRecords(frames: seq<CompressedFrame>): (r: seq<seq<Byte>>)
    ensures |r| == |frames|
  {
    if |frames| == 0 then []
    else CompressedRecords(frames[..|frames| - 1]) + [WriteCompressed(frames[|frames| - 1].data, frames[|frames| - 1].flags)]
  }

  /** Record i of a compressed file is frame i as WriteCompressed writes it. */
  lemma {:induction false} CompressedRecordIs(frames: seq<CompressedFrame>, i: nat)
    requires i < |frames|
    ensures CompressedRecords(frames)[i] == WriteCompressed(frames[i].data, frames[i].flags)
  {
    var n := |frames|;
    if i < n - 1 {
      CompressedRecordIs(frames[..n - 1], i);
    }
  }

  /** The records of an uncompressed file, one per frame of palette indices. */
  function RawRecords(frames: seq<seq<int>>): (r: seq<seq<Byte>>)
    ensures |r| == |frames|
  {
    if |frames| == 0 then [] else RawRecords(frames[..|frames| - 1]) + [WriteRaw(frames[|frames| - 1])]
  }

  /** Record i of an uncompressed file is frame i as WriteRaw writes it. */
  lemma {:induction false} RawRecordIs(frames: seq<seq<int>>, i: nat)
    requires i < |frames|
    ensures RawRecords(frames)[i] == WriteRaw(frames[i])
  {
    var n := |frames|;
    if i < n - 1 {
      RawRecordIs(frames[..n - 1], i);
    }
  }
}
