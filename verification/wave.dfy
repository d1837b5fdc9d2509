/** The WAVE reader of the encoder (encoder/wave.go): a RIFF file whose "WAVE" form holds a
    "fmt " chunk describing integer PCM samples and a "data" chunk with the samples, as laid
    out in the Multimedia Programming Interface and Data Specifications 1.0. */
module Wave {

  import opened Bytes
  import opened Results
  import opened Stream

  /** WAVfile: the channel count, the sample rate, whether samples are 16-bit, and the samples. */
  datatype WavFile = WavFile(channels: int, sampleRate: nat, isHiQuality: bool, data: seq<Byte>)

  /** The panics of OpenWAV. */
  datatype WavError =
    | WrongChunk(expected: string)
    | NotPcm
    | TooManyChannels
    | LowSampleRate
    | WrongBitDepth

  /** The chunk identifiers, as ASCII bytes. */
  const RiffName: seq<Byte> := [0x52, 0x49, 0x46, 0x46]  // "RIFF"
  const WaveName: seq<Byte> := [0x57, 0x41, 0x56, 0x45]  // "WAVE"
  const FmtName: seq<Byte> := [0x66, 0x6d, 0x74, 0x20]   // "fmt "
  const DataName: seq<Byte> := [0x64, 0x61, 0x74, 0x61]  // "data"

  /** assertChunkName: the four bytes at pos must spell the expected name; the result is the
      position after them. */
  function ExpectChunk(s: seq<Byte>, pos: nat, name: seq<Byte>, text: string): (r: Result<nat, WavError>)
    requires |name| == 4
    ensures r.Ok? <==> Take(s, pos, 4) == name
    ensures r.Ok? ==> r.value == After(s, pos, 4)
    ensures r.Err? ==> r.error == WrongChunk(text)
  {
    if Take(s, pos, 4) != name then Err(WrongChunk(text)) else Ok(After(s, pos, 4))
  }

  /** The fields of the "fmt " chunk the reader keeps. */
  datatype Format = Format(size: nat, tag: nat, channels: nat, sampleRate: nat, bits: nat)

  /** The "fmt " chunk body at pos, up to and including the bits per sample, and the position
      after the bits field. The byte rate and block alignment (six bytes) are skipped. */
  function ReadFormat(s: seq<Byte>, pos: nat): (r: (Format, nat))
    ensures r.0.size < Two32 && r.0.tag < Two16 && r.0.channels < Two16 && r.0.sampleRate < Two32
    ensures r.0.bits < Two16
  {
    var size := ReadU32(s, pos);
    var p1 := After(s, pos, 4);
    var tag := ReadU16(s, p1);
    var p2 := After(s, p1, 2);
    var channels := ReadU16(s, p2);
    var p3 := After(s, p2, 2);
    var rate := ReadU32(s, p3);
    var p4 := After(s, p3, 4) + 6;
    var bits := ReadU16(s, p4);
    (Format(size, tag, channels, rate, bits), After(s, p4, 2))
  }

  /** The checks OpenWAV makes on the format, in its order. */
  function CheckFormat(f: Format): (r: Result<Format, WavError>)
    ensures r.Ok? <==> f.tag == 1 && f.channels <= 2 && f.sampleRate >= 8000 && (f.bits == 8 || f.bits == 16)
    ensures r.Ok? ==> r.value == f
    ensures f.tag != 1 ==> r == Err(NotPcm)
    ensures f.tag == 1 && f.channels > 2 ==> r == Err(TooManyChannels)
    ensures f.tag == 1 && f.channels <= 2 && f.sampleRate < 8000 ==> r == Err(LowSampleRate)
  {
    if f.tag != 1 then Err(NotPcm)
    else if f.channels > 2 then Err(TooManyChannels)
    else if f.sampleRate < 8000 then Err(LowSampleRate)
    else if f.bits != 8 && f.bits != 16 then Err(WrongBitDepth)
    else Ok(f)
  }

  /** A name that ends in a non-zero byte can only match bytes that are really there. */
  lemma ChunkPresent(s: seq<Byte>, pos: nat, name: seq<Byte>)
    requires |name| == 4 && name[3] != 0 && Take(s, pos, 4) == name
    ensures pos + 4 <= |s| && s[pos..pos + 4] == name
  {
  }

  /** The RIFF header, the form type and the "fmt " chunk name; the result is the position
      of the "fmt " chunk size. The RIFF size is read and ignored. */
  function Preamble(s: seq<Byte>): (r: Result<nat, WavError>)
    ensures r.Ok? ==> |s| >= 16 && s[..4] == RiffName && s[8..12] == WaveName && s[12..16] == FmtName && r.value == 16
    ensures |s| >= 4 && s[..4] != RiffName ==> r == Err(WrongChunk("RIFF"))
  {
    match ExpectChunk(s, 0, RiffName, "RIFF")
    case Err(e) => Err(e)
    case Ok(p0) =>
      ChunkPresent(s, 0, RiffName);
      match ExpectChunk(s, After(s, p0, 4), WaveName, "WAVE")
      case Err(e) => Err(e)
      case Ok(p1) =>
        ChunkPresent(s, After(s, p0, 4), WaveName);
        var r := ExpectChunk(s, p1, FmtName, "fmt ");
        if r.Ok? then ChunkPresent(s, p1, FmtName); r else r
  }

  /** The "data" chunk at pos: its name, its size, and that many bytes read into a zeroed
      buffer, so a file cut short yields trailing zeros. */
  function ReadData(s: seq<Byte>, pos: nat): (r: Result<seq<Byte>, WavError>)
    ensures r.Ok? ==> Take(s, pos, 4) == DataName && |r.value| == ReadU32(s, After(s, pos, 4))
    ensures r.Err? ==> r.error == WrongChunk("data")
  {
    match ExpectChunk(s, pos, DataName, "data")
    case Err(e) => Err(e)
    case Ok(p) => Ok(Take(s, After(s, p, 4), ReadU32(s, p)))
  }

  /** OpenWAV over the file's bytes. A "fmt " chunk longer than 16 bytes has its tail skipped. */
  function OpenWav(s: seq<Byte>): (r: Result<WavFile, WavError>)
    ensures r.Ok? ==> |s| >= 16 && s[..4] == RiffName && s[8..12] == WaveName && s[12..16] == FmtName
    ensures r.Ok? ==> 0 <= r.value.channels <= 2 && r.value.sampleRate >= 8000
    ensures |s| >= 4 && s[..4] != RiffName ==> r == Err(WrongChunk("RIFF"))
  {
    match Preamble(s)
    case Err(e) => Err(e)
    case Ok(p) =>
      var (f, p3) := ReadFormat(s, p);
      match CheckFormat(f)
      case Err(e) => Err(e)
      case Ok(_) =>
        var p4 := if f.size > 16 then p3 + (f.size - 16) else p3;
        match ReadData(s, p4)
        case Err(e) => Err(e)
        case Ok(data) => Ok(WavFile(f.channels, f.sampleRate, f.bits == 16, data))
  }

  /** The 16 bytes of a PCM "fmt " chunk body: tag, channels, rate, then the byte rate and
      block alignment (`skipped`, six bytes the reader passes over) and the bits per sample. */
  function FmtBody(tag: nat, channels: nat, rate: nat, skipped: seq<Byte>, bits: nat): (b: seq<Byte>)
    requires tag < Two16 && channels < Two16 && rate < Two32 && |skipped| == 6 && bits < Two16
    ensures |b| == 16
  {
    LE16(tag) + LE16(channels) + LE32(rate) + skipped + LE16(bits)
  }

  /** The fixed 36 bytes that open a PCM WAVE file: the RIFF header, the form type and the
      "fmt " chunk up to the bits per sample. */
  function WavHead(size: nat, fmtSize: nat, tag: nat, channels: nat, rate: nat, skipped: seq<Byte>, bits: nat): (b: seq<Byte>)
    requires size < Two32 && fmtSize < Two32
    requires tag < Two16 && channels < Two16 && rate < Two32 && |skipped| == 6 && bits < Two16
    ensures |b| == 36
  {
    RiffName + LE32(size) + WaveName + FmtName + LE32(fmtSize) + FmtBody(tag, channels, rate, skipped, bits)
  }

  /** The fields of a RIFF/WAVE file that the reader looks at, and the ones it passes over:
      the RIFF size, the byte rate and block alignment. */
  datatype WavLayout = WavLayout(riffSize: nat, tag: nat, channels: nat, rate: nat, skipped: seq<Byte>,
                                 bits: nat, extra: seq<Byte>, data: seq<Byte>)
  {
    predicate Valid()
    {
      && riffSize < Two32 && tag < Two16 && channels < Two16 && rate < Two32 && |skipped| == 6
      && bits < Two16 && 16 + |extra| < Two32 && |data| < Two32
    }
  }

  /** A RIFF/WAVE file: the head, `extra` bytes at the end of the "fmt " chunk, and the
      "data" chunk with the samples. */
  function WavBytes(w: WavLayout): (b: seq<Byte>)
    requires w.Valid()
    ensures |b| == 44 + |w.extra| + |w.data|
  {
    WavHead(w.riffSize, 16 + |w.extra|, w.tag, w.channels, w.rate, w.skipped, w.bits)
      + w.extra + DataName + LE32(|w.data|) + w.data
  }

  /** The verdict of OpenWAV on a well-formed file, as a function of its format fields. */
  function Verdict(tag: nat, channels: nat, rate: nat, bits: nat, data: seq<Byte>): Result<WavFile, WavError>
  {
    if tag != 1 then Err(NotPcm)
    else if channels > 2 then Err(TooManyChannels)
    else if rate < 8000 then Err(LowSampleRate)
    else if bits != 8 && bits != 16 then Err(WrongBitDepth)
    else Ok(WavFile(channels, rate, bits == 16, data))
  }

  /** The fields of the head, by offset. */
  lemma WavHeadLayout(size: nat, fmtSize: nat, tag: nat, channels: nat, rate: nat, skipped: seq<Byte>, bits: nat)
    requires size < Two32 && fmtSize < Two32
    requires tag < Two16 && channels < Two16 && rate < Two32 && |skipped| == 6 && bits < Two16
    ensures var h := WavHead(size, fmtSize, tag, channels, rate, skipped, bits);
            && h[0..4] == RiffName && h[8..12] == WaveName && h[12..16] == FmtName
            && h[16..20] == LE32(fmtSize) && h[20..36] == FmtBody(tag, channels, rate, skipped, bits)
  {
    Pieces6(RiffName, LE32(size), WaveName, FmtName, LE32(fmtSize), FmtBody(tag, channels, rate, skipped, bits));
  }

  /** The fields of the "fmt " body, by offset. */
  lemma FmtBodyLayout(tag: nat, channels: nat, rate: nat, skipped: seq<Byte>, bits: nat)
    requires tag < Two16 && channels < Two16 && rate < Two32 && |skipped| == 6 && bits < Two16
    ensures var f := FmtBody(tag, channels, rate, skipped, bits);
            && f[0..2] == LE16(tag) && f[2..4] == LE16(channels) && f[4..8] == LE32(rate) && f[14..] == LE16(bits)
  {
    Pieces5(LE16(tag), LE16(channels), LE32(rate), skipped, LE16(bits));
  }

  /** Where the parts of WavBytes lie. */
  lemma WavBytesLayout(w: WavLayout)
    requires w.Valid()
    ensures var s := WavBytes(w);
            var e := |w.extra|;
            && s[..36] == WavHead(w.riffSize, 16 + e, w.tag, w.channels, w.rate, w.skipped, w.bits)
            && s[36 + e..40 + e] == DataName && s[40 + e..44 + e] == LE32(|w.data|)
            && s[44 + e..] == w.data
  {
    var h := WavHead(w.riffSize, 16 + |w.extra|, w.tag, w.channels, w.rate, w.skipped, w.bits);
    Pieces5(h, w.extra, DataName, LE32(|w.data|), w.data);
  }

  /** Where the fields of the head lie in a file that starts with it. */
  lemma HeadFields(s: seq<Byte>, size: nat, fmtSize: nat, tag: nat, channels: nat, rate: nat, skipped: seq<Byte>, bits: nat)
    requires size < Two32 && fmtSize < Two32
    requires tag < Two16 && channels < Two16 && rate < Two32 && |skipped| == 6 && bits < Two16
    requires |s| >= 36 && s[..36] == WavHead(size, fmtSize, tag, channels, rate, skipped, bits)
    ensures && s[0..4] == RiffName && s[8..12] == WaveName && s[12..16] == FmtName
            && s[16..20] == LE32(fmtSize) && s[20..22] == LE16(tag) && s[22..24] == LE16(channels)
            && s[24..28] == LE32(rate) && s[34..36] == LE16(bits)
  {
    WavHeadLayout(size, fmtSize, tag, channels, rate, skipped, bits);
    FmtBodyLayout(tag, channels, rate, skipped, bits);
    SliceOfSlice(s, 0, 36, 0, 4);
    SliceOfSlice(s, 0, 36, 8, 12);
    SliceOfSlice(s, 0, 36, 12, 16);
    SliceOfSlice(s, 0, 36, 16, 20);
    SliceOfSlice(s, 0, 36, 20, 36);
    SliceOfSlice(s, 20, 36, 0, 2);
    SliceOfSlice(s, 20, 36, 2, 4);
    SliceOfSlice(s, 20, 36, 4, 8);
    SliceOfSlice(s, 20, 36, 14, 16);
  }

  /** Reading the "fmt " body of a file that starts with the head. */
  lemma ReadFormatOfHead(s: seq<Byte>, size: nat, fmtSize: nat, tag: nat, channels: nat, rate: nat, skipped: seq<Byte>, bits: nat)
    requires size < Two32 && fmtSize < Two32
    requires tag < Two16 && channels < Two16 && rate < Two32 && |skipped| == 6 && bits < Two16
    requires |s| >= 36 && s[..36] == WavHead(size, fmtSize, tag, channels, rate, skipped, bits)
    ensures ReadFormat(s, 16) == (Format(fmtSize, tag, channels, rate, bits), 36)
  {
    HeadFields(s, size, fmtSize, tag, channels, rate, skipped, bits);
    ReadU32At(s, 16, fmtSize);
    ReadU16At(s, 20, tag);
    ReadU16At(s, 22, channels);
    ReadU32At(s, 24, rate);
    ReadU16At(s, 34, bits);
  }

  /** The preamble of a file that starts with the head is accepted. */
  lemma PreambleOfHead(s: seq<Byte>)
    requires |s| >= 16 && s[0..4] == RiffName && s[8..12] == WaveName && s[12..16] == FmtName
    ensures Preamble(s) == Ok(16)
  {
    assert Take(s, 0, 4) == RiffName && Take(s, 8, 4) == WaveName && Take(s, 12, 4) == FmtName;
  }

  /** A well-formed "data" chunk is read back whole. */
  lemma ReadDataOf(s: seq<Byte>, pos: nat, data: seq<Byte>)
    requires |data| < Two32 && |s| == pos + 8 + |data|
    requires s[pos..pos + 4] == DataName && s[pos + 4..pos + 8] == LE32(|data|) && s[pos + 8..] == data
    ensures ReadData(s, pos) == Ok(data)
  {
    ReadU32At(s, pos + 4, |data|);
    assert Take(s, pos + 8, |data|) == data;
  }

  /** Reading a file the builder wrote gives back its fields, or the error OpenWAV raises for
      the first field it rejects, whatever the RIFF size, byte rate and block alignment say:
      a zero channel count passes, and extra format bytes are skipped. */
  lemma OpenWavOfBytes(w: WavLayout)
    requires w.Valid()
    ensures OpenWav(WavBytes(w)) == Verdict(w.tag, w.channels, w.rate, w.bits, w.data)
  {
    var s := WavBytes(w);
    var e := |w.extra|;
    WavBytesLayout(w);
    HeadFields(s, w.riffSize, 16 + e, w.tag, w.channels, w.rate, w.skipped, w.bits);
    PreambleOfHead(s);
    ReadFormatOfHead(s, w.riffSize, 16 + e, w.tag, w.channels, w.rate, w.skipped, w.bits);
    ReadDataOf(s, 36 + e, w.data);
    OpenWavStages(s, Format(16 + e, w.tag, w.channels, w.rate, w.bits), w.data);
  }

  /** OpenWAV chains its stages: an accepted preamble, the format at 16, and the data chunk
      after the format chunk. */
  lemma OpenWavStages(s: seq<Byte>, f: Format, data: seq<Byte>)
    requires f.size >= 16 && Preamble(s) == Ok(16) && ReadFormat(s, 16) == (f, 36)
    requires ReadData(s, 20 + f.size) == Ok(data)
    ensures OpenWav(s) == Verdict(f.tag, f.channels, f.sampleRate, f.bits, data)
  {
    var p4 := if f.size > 16 then 36 + (f.size - 16) else 36;
    assert p4 == 20 + f.size;
    var c := CheckFormat(f);
    if c.Ok? {
      assert OpenWav(s) == Ok(WavFile(f.channels, f.sampleRate, f.bits == 16, data));
    } else {
      assert OpenWav(s) == Err(c.error);
    }
  }
}
