/** The player's reader of the RVF container (player/src/rvf_decode.c): the header parse of
    `rvf_open` and the frame stepping of `rvf_next_frame`, over the file as a byte sequence.
    `fread` is modelled as in module Stream: a read past the end delivers zeros and stops at the
    end of the file, and `fseek` may pass it. */
module RvfDecode {

  import Numeric
  import opened Bytes
  import opened Results
  import opened Colors
  import opened Stream
  import Wave
  import opened RvfFile

  datatype OpenError = WrongFormat | WrongVersion

  /** The audio description; the buffer is present only in a file with an audio block. */
  datatype Audio = Audio(channels: nat, frequency: nat, bitDepth: nat, buffer: Option<seq<Byte>>)

  /** The fixed part of the header. */
  datatype Header = Header(width: nat, height: nat, length: nat, frameTime: seq<Byte>, flags: Byte)

  /** An open file: the header fields, where the frames start and the size of a raw frame. */
  datatype Rvf = Rvf(width: nat, height: nat, length: nat, frameTime: seq<Byte>, isCompressed: bool,
                     audio: Option<Audio>, palette: seq<IntColor>, framesOffset: nat, frameSize: nat)

  /** Where playback stands: the frame last returned (-1 before the first) and the file position. */
  datatype Cursor = Cursor(currentFrame: int, pos: nat)

  /** The size of a raw frame: one byte per pixel. */
  function FrameSize(width: nat, height: nat): nat
  {
    width * height
  }

  /** The first three bytes read into a zeroed `uint32_t` on a little-endian machine. */
  function MagicValue(s: seq<Byte>): (v: nat)
    ensures v < 0x100_0000
  {
    var m := Take(s, 0, 3);
    Val(m[0]) + 0x100 * Val(m[1]) + Two16 * Val(m[2])
  }

  /** The magic test accepts exactly the bytes 'R', 'V', 'F'. */
  lemma MagicValueIff(s: seq<Byte>)
    ensures MagicValue(s) == 0x465652 <==> |s| >= 3 && s[..3] == Magic[..3]
  {
    var m := Take(s, 0, 3);
    MagicDigits(Val(m[0]), Val(m[1]), Val(m[2]));
    if |s| >= 3 {
      MagicBytes(s[..3], m);
    } else {
      assert m[2] == 0;
    }
  }

  /** Three digits in base 256 spell 0x465652 only as 0x52, 0x56, 0x46. */
  lemma MagicDigits(a: nat, b: nat, c: nat)
    requires a < 256 && b < 256 && c < 256
    ensures a + 0x100 * b + Two16 * c == 0x465652 <==> a == 0x52 && b == 0x56 && c == 0x46
  {
  }

  /** Three bytes are 'R', 'V', 'F' exactly when their values are. */
  lemma MagicBytes(t: seq<Byte>, m: seq<Byte>)
    requires |t| == 3 && m == t
    ensures t == Magic[..3] <==> Val(m[0]) == 0x52 && Val(m[1]) == 0x56 && Val(m[2]) == 0x46
  {
    assert Magic[..3] == [0x52, 0x56, 0x46];
    if Val(m[0]) == 0x52 && Val(m[1]) == 0x56 && Val(m[2]) == 0x46 {
      assert t == [m[0], m[1], m[2]];
    }
  }

  /** Magic, version, width, height, length, frame time and flags: the header up to offset 21. */
  function ReadHeader(s: seq<Byte>): (r: Result<(Header, nat), OpenError>)
    ensures r.Ok? <==> |s| >= 4 && s[..4] == Magic
    ensures r.Err? ==> (r.error == WrongFormat <==> !(|s| >= 3 && s[..3] == Magic[..3]))
    ensures r.Ok? ==> r.value.1 <= 21 && |r.value.0.frameTime| == 4
  {
    MagicValueIff(s);
    if MagicValue(s) != 0x465652 then Err(WrongFormat)
    else
      var p := After(s, 0, 3);
      if ReadU8(s, p) != 3 then
        Err(WrongVersion)
      else
        assert s[..4] == s[..3] + [s[3]];
        var p := After(s, p, 1);
        var width := ReadU32(s, p);
        var p := After(s, p, 4);
        var height := ReadU32(s, p);
        var p := After(s, p, 4);
        var length := ReadU32(s, p);
        var p := After(s, p, 4);
        var frameTime := Take(s, p, 4);
        var p := After(s, p, 4);
        var flags := ReadByte(s, p);
        Ok((Header(width, height, length, frameTime, flags), After(s, p, 1)))
  }

  /** Channels, frequency and quality, read when either audio bit is set; the bit depth is 16 iff
      the quality byte is non-zero. */
  function ReadAudioFields(s: seq<Byte>, pos: nat, flags: Byte): (r: (Option<Audio>, nat))
    ensures r.0.Some? <==> flags & AudioBlock != 0 || flags & AudioStream != 0
    ensures r.0.Some? ==> r.0.value.buffer.None? && r.0.value.channels < 256
    ensures r.0.Some? ==> r.0.value.bitDepth == 16 || r.0.value.bitDepth == 8
    ensures pos <= r.1 <= pos + 6
    ensures r.0.None? ==> r.1 == pos
  {
    if flags & AudioBlock != 0 || flags & AudioStream != 0 then
      var channels := ReadU8(s, pos);
      var p := After(s, pos, 1);
      var frequency := ReadU32(s, p);
      var p := After(s, p, 4);
      var quality := ReadU8(s, p);
      (Some(Audio(channels, frequency, if quality != 0 then 16 else 8, None)), After(s, p, 1))
    else (None, pos)
  }

  /** Three bytes per colour, as `fread` fills an array of packed `RVF_Color` records. */
  function Triples(b: seq<Byte>): (c: seq<IntColor>)
    requires |b| % 3 == 0
    ensures |c| == |b| / 3
    ensures forall i :: 0 <= i < |c| ==> IsByteColor(c[i])
  {
    if |b| == 0 then [] else [IntColor(Val(b[0]), Val(b[1]), Val(b[2]))] + Triples(b[3..])
  }

  /** The palette: a count byte holding colours - 1, then three bytes per colour. */
  function ReadPalette(s: seq<Byte>, pos: nat): (r: (seq<IntColor>, nat))
    ensures 1 <= |r.0| <= 256
    ensures |r.0| == ReadU8(s, pos) + 1
    ensures forall i :: 0 <= i < |r.0| ==> IsByteColor(r.0[i])
    ensures pos <= r.1
  {
    var colors := ReadU8(s, pos) + 1;
    var p := After(s, pos, 1);
    var b := Take(s, p, 3 * colors);
    (Triples(b), After(s, p, 3 * colors))
  }

  /** With the AudioBlock bit, the buffer after its `uint32` size. */
  function ReadAudioBuffer(s: seq<Byte>, pos: nat, flags: Byte, audio: Option<Audio>): (r: (Option<Audio>, nat))
    requires flags & AudioBlock != 0 ==> audio.Some?
    ensures r.0.Some? <==> audio.Some?
    ensures flags & AudioBlock == 0 ==> r == (audio, pos)
    ensures flags & AudioBlock != 0 ==>
      && r.0 == Some(audio.value.(buffer := r.0.value.buffer))
      && r.0.value.buffer.Some? && |r.0.value.buffer.value| == ReadU32(s, pos)
  {
    if flags & AudioBlock != 0 then
      var size := ReadU32(s, pos);
      var p := After(s, pos, 4);
      (Some(audio.value.(buffer := Some(Take(s, p, size)))), After(s, p, size))
    else (audio, pos)
  }

  /** The rest of rvf_open once the fixed header is read: the audio fields, the palette and the
      audio buffer, in file order; the frames start where the reads stop. */
  function ReadBody(s: seq<Byte>, h: Header, pos: nat): (f: Rvf)
    ensures f.width == h.width && f.height == h.height && f.length == h.length
    ensures f.frameTime == h.frameTime && (f.isCompressed <==> h.flags & CompressionFull != 0)
    ensures f.audio.Some? <==> h.flags & AudioBlock != 0 || h.flags & AudioStream != 0
    ensures f.frameSize == FrameSize(h.width, h.height)
    ensures 1 <= |f.palette| <= 256 && pos <= f.framesOffset
  {
    var audio := ReadAudioFields(s, pos, h.flags);
    var palette := ReadPalette(s, audio.1);
    var buffered := ReadAudioBuffer(s, palette.1, h.flags, audio.0);
    Rvf(h.width, h.height, h.length, h.frameTime, h.flags & CompressionFull != 0,
        buffered.0, palette.0, buffered.1, FrameSize(h.width, h.height))
  }

  /** rvf_open: a file is opened iff it starts with the magic and the version 3. */
  function Open(s: seq<Byte>): (r: Result<Rvf, OpenError>)
    ensures r.Ok? <==> |s| >= 4 && s[..4] == Magic
    ensures r.Err? ==> (r.error == WrongFormat <==> !(|s| >= 3 && s[..3] == Magic[..3]))
    ensures r.Ok? ==> 1 <= |r.value.palette| <= 256
  {
    var h := ReadHeader(s);
    if h.Err? then Err(h.error) else Ok(ReadBody(s, h.value.0, h.value.1))
  }

  /** What the player reads back from the audio the encoder wrote. */
  function WrittenAudio(audio: Option<Wave.WavFile>): (r: Option<Audio>)
    ensures r.Some? <==> audio.Some?
    ensures audio.Some? && 0 <= audio.value.channels < 256 ==>
      && r.value.channels == audio.value.channels && r.value.frequency == audio.value.sampleRate
      && (r.value.bitDepth == 16 <==> audio.value.isHiQuality) && r.value.buffer == Some(audio.value.data)
  {
    match audio
    case None => None
    case Some(a) => Some(Audio(Val(Low8(a.channels)), a.sampleRate, if a.isHiQuality then 16 else 8, Some(a.data)))
  }

  /** The arguments of NewRVFfile whose header the player can read back and play: the sizes and
      the frame count fit the `int` fields of RVF_File (player/src/rvf_decode.h), and so does
      `frame_size = width * height`; the palette has 1 .. 256 byte colours, and without audio the
      caller sets no audio bit. */
  predicate Writable(palette: Palette, width: int, height: int, frames: int, flags: Byte, audio: Option<Wave.WavFile>)
  {
    && 0 <= width < Two31 && 0 <= height < Two31 && 0 <= frames < Two31
    && FrameSize(width, height) < Two31
    && 1 <= |palette| <= 256 && (forall i :: 0 <= i < |palette| ==> IsByteColor(palette[i]))
    && (audio.None? ==> flags & AudioBlock == 0 && flags & AudioStream == 0)
    && (audio.Some? ==> 0 <= audio.value.channels < 256 && audio.value.sampleRate < Two32
                        && |audio.value.data| < Two32)
  }

  /** The fixed header is read back from where it was written. */
  lemma ReadHeaderOf(s: seq<Byte>, width: nat, height: nat, frames: nat, frameTime: seq<Byte>, flags: Byte)
    requires width < Two32 && height < Two32 && frames < Two32 && |frameTime| == 4
    requires |s| >= 21 && s[..20] == FixedHeader(width, height, frames, frameTime) && s[20] == flags
    ensures ReadHeader(s) == Ok((Header(width, height, frames, frameTime, flags), 21))
  {
    Pieces5(Magic, LE32(width), LE32(height), LE32(frames), frameTime);
    SliceOfSlice(s, 0, 20, 0, 4);
    SliceOfSlice(s, 0, 20, 4, 8);
    SliceOfSlice(s, 0, 20, 8, 12);
    SliceOfSlice(s, 0, 20, 12, 16);
    SliceOfSlice(s, 0, 20, 16, 20);
    assert s[..3] == Magic[..3];
    MagicValueIff(s);
    ReadU32At(s, 4, width);
    ReadU32At(s, 8, height);
    ReadU32At(s, 12, frames);
  }

  /** The audio fields are read back, given the flags byte the writer chose. */
  lemma ReadAudioFieldsOf(s: seq<Byte>, pos: nat, flags: Byte, audio: Option<Wave.WavFile>)
    requires audio.None? ==> flags & AudioBlock == 0 && flags & AudioStream == 0
    requires audio.Some? ==> flags & AudioBlock != 0 && 0 <= audio.value.channels < 256
                             && audio.value.sampleRate < Two32
    requires pos + |AudioFields(audio)| <= |s| && s[pos..pos + |AudioFields(audio)|] == AudioFields(audio)
    ensures ReadAudioFields(s, pos, flags)
         == (if audio.None? then None else Some(WrittenAudio(audio).value.(buffer := None)), pos + |AudioFields(audio)|)
  {
    if audio.Some? {
      var a := audio.value;
      var f := AudioFields(audio);
      assert f == [Low8(a.channels)] + LE32(a.sampleRate) + [if a.isHiQuality then 1 else 0];
      assert s[pos] == f[0] && s[pos + 5] == f[5];
      assert f[1..5] == LE32(a.sampleRate);
      SliceOfSlice(s, pos, pos + 6, 1, 5);
      ReadU32At(s, pos + 1, a.sampleRate);
    }
  }

  /** Grouping the written colour bytes in threes gives the palette back. */
  lemma {:induction false} TriplesOfColors(palette: Palette)
    requires forall i :: 0 <= i < |palette| ==> IsByteColor(palette[i])
    ensures Triples(PaletteColors(palette)) == palette
  {
    if |palette| > 0 {
      var b := PaletteColors(palette);
      assert b[..3] == ColorBytes(palette[0]) && b[3..] == PaletteColors(palette[1..]);
      TriplesOfColors(palette[1..]);
    }
  }

  /** Where the count byte and the colours of a written palette section lie. */
  lemma PaletteSection(s: seq<Byte>, pos: nat, palette: Palette)
    requires 1 <= |palette| <= 256
    requires pos + 1 + 3 * |palette| <= |s| && s[pos..pos + 1 + 3 * |palette|] == PaletteBytes(palette)
    ensures ReadU8(s, pos) + 1 == |palette|
    ensures Take(s, pos + 1, 3 * |palette|) == PaletteColors(palette)
  {
    var n := |palette|;
    assert s[pos] == s[pos..pos + 1 + 3 * n][0];
    SliceOfSlice(s, pos, pos + 1 + 3 * n, 1, 1 + 3 * n);
  }

  /** The palette is read back exactly when it has 1 .. 256 byte colours. */
  lemma ReadPaletteOf(s: seq<Byte>, pos: nat, palette: Palette)
    requires 1 <= |palette| <= 256 && forall i :: 0 <= i < |palette| ==> IsByteColor(palette[i])
    requires pos + 1 + 3 * |palette| <= |s| && s[pos..pos + 1 + 3 * |palette|] == PaletteBytes(palette)
    ensures ReadPalette(s, pos) == (palette, pos + 1 + 3 * |palette|)
  {
    PaletteSection(s, pos, palette);
    TriplesOfColors(palette);
  }

  /** The audio buffer is read back after its length. */
  lemma ReadAudioBufferOf(s: seq<Byte>, pos: nat, flags: Byte, audio: Option<Wave.WavFile>)
    requires audio.None? ==> flags & AudioBlock == 0
    requires audio.Some? ==> flags & AudioBlock != 0 && |audio.value.data| < Two32
    requires pos + |AudioData(audio)| <= |s| && s[pos..pos + |AudioData(audio)|] == AudioData(audio)
    ensures var meta := if audio.None? then None else Some(WrittenAudio(audio).value.(buffer := None));
            ReadAudioBuffer(s, pos, flags, meta) == (WrittenAudio(audio), pos + |AudioData(audio)|)
  {
    if audio.Some? {
      var w := WrittenAudio(audio);
      ReadAudioBufferSome(s, pos, flags, audio.value, w, Some(w.value.(buffer := None)));
    }
  }

  /** The audio-buffer read of ReadAudioBufferOf when there is audio. */
  lemma ReadAudioBufferSome(s: seq<Byte>, pos: nat, flags: Byte, a: Wave.WavFile, w: Option<Audio>, meta: Option<Audio>)
    requires flags & AudioBlock != 0 && |a.data| < Two32
    requires w == WrittenAudio(Some(a)) && meta == Some(w.value.(buffer := None))
    requires pos + 4 + |a.data| <= |s| && s[pos..pos + 4 + |a.data|] == AudioData(Some(a))
    ensures ReadAudioBuffer(s, pos, flags, meta) == (w, pos + 4 + |a.data|)
  {
    var n := |a.data|;
    var d := AudioData(Some(a));
    assert s[pos..pos + 4] == d[..4] == LE32(n);
    ReadU32At(s, pos, n);
    assert s[pos + 4..pos + 4 + n] == d[4..] == a.data;
    var r := ReadAudioBuffer(s, pos, flags, meta);
    assert r.0 == w;
    assert r.1 == pos + 4 + n;
  }

  /** Open, given the outcome of each stage. */
  lemma OpenStages(s: seq<Byte>, h: Header, audio: Option<Audio>, p2: nat, palette: seq<IntColor>, p3: nat,
                   buffered: Option<Audio>, p4: nat)
    requires ReadHeader(s) == Ok((h, 21))
    requires ReadAudioFields(s, 21, h.flags) == (audio, p2)
    requires ReadPalette(s, p2) == (palette, p3)
    requires ReadAudioBuffer(s, p3, h.flags, audio) == (buffered, p4)
    ensures Open(s) == Ok(Rvf(h.width, h.height, h.length, h.frameTime, h.flags & CompressionFull != 0,
                              buffered, palette, p4, FrameSize(h.width, h.height)))
  {
  }

  /** Where the sections of the header lie in a file that starts with it, at the offsets the
      reader uses: the audio fields end at p2 and the palette at p3. */
  lemma NewRvfFileLayout(palette: Palette, width: nat, height: nat, frames: nat, frameTime: seq<Byte>,
                         flags: Byte, audio: Option<Wave.WavFile>, rest: seq<Byte>, s: seq<Byte>, p2: nat, p3: nat)
    requires |frameTime| == 4
    requires s == NewRvfFile(palette, width, height, frames, frameTime, flags, audio) + rest
    requires p2 == 21 + |AudioFields(audio)| && p3 == p2 + 1 + 3 * |palette|
    ensures |s| >= 21 && s[..20] == FixedHeader(width, height, frames, frameTime) && s[20] == FlagsByte(flags, audio)
    ensures 21 + |AudioFields(audio)| <= |s| && s[21..21 + |AudioFields(audio)|] == AudioFields(audio)
    ensures p2 + 1 + 3 * |palette| <= |s| && s[p2..p2 + 1 + 3 * |palette|] == PaletteBytes(palette)
    ensures p3 + |AudioData(audio)| <= |s| && s[p3..p3 + |AudioData(audio)|] == AudioData(audio)
  {
    var f := FlagsByte(flags, audio);
    var fixed := FixedHeader(width, height, frames, frameTime);
    var af, pb, ad := AudioFields(audio), PaletteBytes(palette), AudioData(audio);
    HeaderSections(s, fixed, [f], af, pb, ad, rest, 21 + |af|, p3, p3 + |ad|);
    assert s[20] == f by {
      assert s[20..21] == [f];
    }
  }

  /** The six parts of a file that starts with a header, at offsets named by the caller. */
  lemma HeaderSections(s: seq<Byte>, fixed: seq<Byte>, fl: seq<Byte>, af: seq<Byte>, pb: seq<Byte>, ad: seq<Byte>,
                       rest: seq<Byte>, i2: nat, i3: nat, i4: nat)
    requires s == fixed + fl + af + pb + ad + rest && |fixed| == 20 && |fl| == 1
    requires i2 == 21 + |af| && i3 == i2 + |pb| && i4 == i3 + |ad|
    ensures i4 <= |s| && s[..20] == fixed && s[20..21] == fl
    ensures s[21..i2] == af && s[i2..i3] == pb && s[i3..i4] == ad
  {
    Pieces6(fixed, fl, af, pb, ad, rest);
  }

  /** rvf_open reads back every header field NewRVFfile wrote, whatever follows the header; the
      frames start right after it. */
  lemma OpenNewRvfFile(palette: Palette, width: nat, height: nat, frames: nat, frameTime: seq<Byte>,
                       flags: Byte, audio: Option<Wave.WavFile>, rest: seq<Byte>)
    requires |frameTime| == 4 && Writable(palette, width, height, frames, flags, audio)
    ensures var head := NewRvfFile(palette, width, height, frames, frameTime, flags, audio);
            Open(head + rest) == Ok(Rvf(width, height, frames, frameTime, flags & CompressionFull != 0,
                                        WrittenAudio(audio), palette, |head|, FrameSize(width, height)))
  {
    var head := NewRvfFile(palette, width, height, frames, frameTime, flags, audio);
    var s := head + rest;
    var f := FlagsByte(flags, audio);
    var p2 := 21 + |AudioFields(audio)|;
    var p3 := p2 + 1 + 3 * |palette|;
    NewRvfFileLayout(palette, width, height, frames, frameTime, flags, audio, rest, s, p2, p3);
    var meta := if audio.None? then None else Some(WrittenAudio(audio).value.(buffer := None));
    ReadHeaderOf(s, width, height, frames, frameTime, f);
    ReadAudioFieldsOf(s, 21, f, audio);
    ReadPaletteOf(s, p2, palette);
    ReadAudioBufferOf(s, p3, f, audio);
    OpenStages(s, Header(width, height, frames, frameTime, f), meta, p2, palette, p3, WrittenAudio(audio), |head|);
  }

  /** What rvf_next_frame hands on: the flags and the payload of a compressed record (the bytes the
      frame decoder is given), or the pixels of a raw frame. */
  datatype Frame = Compressed(flags: Byte, payload: seq<Byte>) | Raw(pixels: seq<Byte>)

  /** The frame at pos and the position after it. A compressed record gives its leading
      `uint32_t` length minus 5, in unsigned arithmetic, to the frame decoder, which is taken to
      consume exactly that many bytes; the 4-byte trailer is then skipped. */
  function ReadFrame(s: seq<Byte>, pos: nat, isCompressed: bool, frameSize: nat): (r: (Frame, nat))
    ensures r.0.Compressed? <==> isCompressed
    ensures isCompressed ==> |r.0.payload| == U32(ReadU32(s, pos) - 4 - 1) && r.1 >= pos + 4
    ensures !isCompressed ==> r.0.pixels == Take(s, pos, frameSize) && r.1 == After(s, pos, frameSize)
  {
    if isCompressed then
      var size := ReadU32(s, pos);
      var p := After(s, pos, 4);
      var flags := ReadByte(s, p);
      var p := After(s, p, 1);
      var n := U32(size - 4 - 1);
      (Compressed(flags, Take(s, p, n)), After(s, p, n) + 4)
    else
      (Raw(Take(s, pos, frameSize)), After(s, pos, frameSize))
  }

  /** Right after rvf_open: no frame returned yet, the file positioned at the first frame. */
  function Start(f: Rvf): Cursor
  {
    Cursor(-1, f.framesOffset)
  }

  /** rvf_next_frame: the counter moves on, wrapping to 0 and seeking back to the first frame once
      it reaches `length`, the header's count as the `int` field holds it; then one frame is read. */
  function NextFrame(f: Rvf, s: seq<Byte>, c: Cursor): (r: (Frame, Cursor))
    ensures c.currentFrame + 1 < Int32Of(f.length) ==>
      r.1.currentFrame == c.currentFrame + 1 && (r.0, r.1.pos) == ReadFrame(s, c.pos, f.isCompressed, f.frameSize)
    ensures c.currentFrame + 1 >= Int32Of(f.length) ==>
      r.1.currentFrame == 0 && (r.0, r.1.pos) == ReadFrame(s, f.framesOffset, f.isCompressed, f.frameSize)
    ensures c.currentFrame >= -1 ==> 0 <= r.1.currentFrame && (Int32Of(f.length) > 0 ==> r.1.currentFrame < Int32Of(f.length))
  {
    var wrap := c.currentFrame + 1 >= Int32Of(f.length);
    var frame := ReadFrame(s, if wrap then f.framesOffset else c.pos, f.isCompressed, f.frameSize);
    (frame.0, Cursor(if wrap then 0 else c.currentFrame + 1, frame.1))
  }

  /** One call of rvf_next_frame that does not wrap. */
  lemma NextFrameAt(f: Rvf, s: seq<Byte>, c: Cursor, frame: Frame, pos: nat)
    requires c.currentFrame + 1 < Int32Of(f.length) && ReadFrame(s, c.pos, f.isCompressed, f.frameSize) == (frame, pos)
    ensures NextFrame(f, s, c) == (frame, Cursor(c.currentFrame + 1, pos))
  {
  }

  /** Where playback stands after n calls of rvf_next_frame on a freshly opened file. */
  function Steps(f: Rvf, s: seq<Byte>, n: nat): Cursor
  {
    if n == 0 then Start(f) else NextFrame(f, s, Steps(f, s, n - 1)).1
  }

  /** After n >= 1 calls the counter is (n - 1) mod length. */
  lemma {:induction false} StepsCounter(f: Rvf, s: seq<Byte>, n: nat)
    requires 0 < f.length < Two31 && n >= 1
    ensures Steps(f, s, n).currentFrame == (n - 1) % f.length
  {
    if n > 1 {
      StepsCounter(f, s, n - 1);
      Numeric.ModNext(n - 2, f.length);
    }
  }

  /** A header count of 2^31 or more is a negative `int` in RVF_File, so `current_frame >= length`
      always holds: every call of rvf_next_frame seeks back and returns the first frame again. */
  lemma HugeLengthRewinds(f: Rvf, s: seq<Byte>, c: Cursor)
    requires Two31 <= f.length < Two32 && c.currentFrame >= -1
    ensures NextFrame(f, s, c).1.currentFrame == 0
    ensures NextFrame(f, s, c) == NextFrame(f, s, Start(f))
  {
  }

  /** Where the fields of a written compressed record lie. */
  lemma CompressedSection(s: seq<Byte>, pos: nat, data: seq<Byte>, flags: Byte)
    requires |data| + 5 < Two32
    requires pos + |data| + 9 <= |s| && s[pos..pos + |data| + 9] == WriteCompressed(data, flags)
    ensures ReadU32(s, pos) == |data| + 5 && ReadByte(s, pos + 4) == flags
    ensures Take(s, pos + 5, |data|) == data
  {
    var n := |data|;
    var w := WriteCompressed(data, flags);
    CompressedSize(s, pos, data, flags, w, n);
    CompressedFlags(s, pos, data, flags, w, n);
    CompressedPayload(s, pos, data, flags, w, n);
  }

  /** The length field of a written compressed record. */
  lemma CompressedSize(s: seq<Byte>, pos: nat, data: seq<Byte>, flags: Byte, w: seq<Byte>, n: nat)
    requires n == |data| && n + 5 < Two32 && w == WriteCompressed(data, flags)
    requires pos + n + 9 <= |s| && s[pos..pos + n + 9] == w
    ensures ReadU32(s, pos) == n + 5
  {
    SliceOfSlice(s, pos, pos + n + 9, 0, 4);
    assert s[pos..pos + 4] == w[..4];
  }

  /** The flags byte of a written compressed record. */
  lemma CompressedFlags(s: seq<Byte>, pos: nat, data: seq<Byte>, flags: Byte, w: seq<Byte>, n: nat)
    requires n == |data| && w == WriteCompressed(data, flags)
    requires pos + n + 9 <= |s| && s[pos..pos + n + 9] == w
    ensures ReadByte(s, pos + 4) == flags
  {
    assert s[pos + 4] == w[4];
  }

  /** The payload of a written compressed record, read with the length it was written with. */
  lemma CompressedPayload(s: seq<Byte>, pos: nat, data: seq<Byte>, flags: Byte, w: seq<Byte>, n: nat)
    requires n == |data| && w == WriteCompressed(data, flags)
    requires pos + n + 9 <= |s| && s[pos..pos + n + 9] == w
    ensures Take(s, pos + 5, n) == data
  {
    TakeInside(s, pos, w, 5, n);
  }

  /** A compressed record the encoder wrote is read back: its flags, its payload and the position
      just after the trailer. */
  lemma ReadFrameOfCompressed(s: seq<Byte>, pos: nat, data: seq<Byte>, flags: Byte, frameSize: nat)
    requires |data| + 5 < Two32
    requires var w := WriteCompressed(data, flags); pos + |w| <= |s| && s[pos..pos + |w|] == w
    ensures ReadFrame(s, pos, true, frameSize) == (Compressed(flags, data), pos + |data| + 9)
  {
    CompressedSection(s, pos, data, flags);
  }

  /** A raw frame the encoder wrote is read back as its palette indices. */
  lemma ReadFrameOfRaw(s: seq<Byte>, pos: nat, indices: seq<int>)
    requires forall i :: 0 <= i < |indices| ==> 0 <= indices[i] < 256
    requires var w := WriteRaw(indices); pos + |w| <= |s| && s[pos..pos + |w|] == w
    ensures ReadFrame(s, pos, false, |indices|) == (Raw(WriteRaw(indices)), pos + |indices|)
    ensures forall i :: 0 <= i < |indices| ==> Val(ReadFrame(s, pos, false, |indices|).0.pixels[i]) == indices[i]
  {
  }

  /** Where record k lies in a file whose frames section holds the records. */
  lemma RecordInFile(s: seq<Byte>, offset: nat, records: seq<seq<Byte>>, k: nat, p: nat)
    requires k < |records| && p == offset + |Concat(records[..k])|
    requires offset + |Concat(records)| <= |s| && s[offset..offset + |Concat(records)|] == Concat(records)
    ensures p + |records[k]| <= |s| && s[p..p + |records[k]|] == records[k]
  {
    RecordAt(records, k);
    var start := |Concat(records[..k])|;
    SliceOfSlice(s, offset, offset + |Concat(records)|, start, start + |records[k]|);
  }

  /** The record starting at k holds the first k records plus record k. */
  lemma ConcatStep(records: seq<seq<Byte>>, k: nat)
    requires k < |records|
    ensures |Concat(records[..k + 1])| == |Concat(records[..k])| + |records[k]|
  {
    assert records[..k + 1][..k] == records[..k];
  }

  /** Where each record of a frames section starts, and where the section ends. */
  function Starts(offset: nat, records: seq<seq<Byte>>): (at: seq<nat>)
    ensures |at| == |records| + 1
    ensures forall i {:trigger at[i]} :: 0 <= i <= |records| ==> at[i] == offset + |Concat(records[..i])|
  {
    seq(|records| + 1, i requires 0 <= i <= |records| => offset + |Concat(records[..i])|)
  }

  /** Compressed record k, written by WriteCompressed, is read back as its frame: reading at its
      start p ends at q, where record k + 1 starts. */
  lemma CompressedRecordRead(s: seq<Byte>, offset: nat, frameSize: nat, records: seq<seq<Byte>>, k: nat,
                             data: seq<Byte>, flags: Byte, p: nat, q: nat)
    requires k < |records| && records[k] == WriteCompressed(data, flags) && |data| + 5 < Two32
    requires offset + |Concat(records)| <= |s| && s[offset..offset + |Concat(records)|] == Concat(records)
    requires p == offset + |Concat(records[..k])| && q == offset + |Concat(records[..k + 1])|
    ensures ReadFrame(s, p, true, frameSize) == (Compressed(flags, data), q)
  {
    RecordInFile(s, offset, records, k, p);
    ConcatStep(records, k);
    ReadFrameOfRecord(s, p, q, records[k], data, flags, frameSize);
  }

  /** ReadFrameOfCompressed with the record and its end named by the caller. */
  lemma ReadFrameOfRecord(s: seq<Byte>, p: nat, q: nat, r: seq<Byte>, data: seq<Byte>, flags: Byte, frameSize: nat)
    requires r == WriteCompressed(data, flags) && |data| + 5 < Two32
    requires p + |r| <= |s| && s[p..p + |r|] == r && q == p + |r|
    ensures ReadFrame(s, p, true, frameSize) == (Compressed(flags, data), q)
  {
    ReadFrameOfCompressed(s, p, data, flags, frameSize);
  }

  /** Raw record k, written by WriteRaw, is read back as its bytes. */
  lemma RawRecordRead(s: seq<Byte>, offset: nat, records: seq<seq<Byte>>, k: nat, indices: seq<int>, p: nat, q: nat)
    requires k < |records| && records[k] == WriteRaw(indices)
    requires forall j :: 0 <= j < |indices| ==> 0 <= indices[j] < 256
    requires offset + |Concat(records)| <= |s| && s[offset..offset + |Concat(records)|] == Concat(records)
    requires p == offset + |Concat(records[..k])| && q == offset + |Concat(records[..k + 1])|
    ensures ReadFrame(s, p, false, |indices|) == (Raw(WriteRaw(indices)), q)
  {
    RecordInFile(s, offset, records, k, p);
    ConcatStep(records, k);
    ReadFrameOfRaw(s, p, indices);
  }

  /** The frames section holds played[i] between positions at[i] and at[i + 1], the first at
      the start of the section. */
  predicate ReadsAt(f: Rvf, s: seq<Byte>, at: seq<nat>, played: seq<Frame>)
  {
    && |at| == |played| + 1 && at[0] == f.framesOffset
    && forall i {:trigger played[i]} :: 0 <= i < |played| ==>
         ReadFrame(s, at[i], f.isCompressed, f.frameSize) == (played[i], at[i + 1])
  }

  /** A file whose frames read back one by one plays them in order: call k + 1 of rvf_next_frame
      starts at frame k and returns played[k]. */
  lemma {:induction false} PlaysFrames(f: Rvf, s: seq<Byte>, at: seq<nat>, played: seq<Frame>, k: nat)
    requires ReadsAt(f, s, at, played) && f.length == |played| < Two31 && k < |played|
    ensures Steps(f, s, k) == Cursor(k - 1, at[k])
    ensures NextFrame(f, s, Steps(f, s, k)) == (played[k], Cursor(k, at[k + 1]))
  {
    if k > 0 {
      PlaysFrames(f, s, at, played, k - 1);
    }
    assert played[k] == played[k];
  }

  /** The frames Encode hands to WriteCompressed, as the player returns them. */
  function CompressedPlayed(frames: seq<CompressedFrame>): (p: seq<Frame>)
    ensures |p| == |frames|
    ensures forall i :: 0 <= i < |frames| ==> p[i] == Compressed(frames[i].flags, frames[i].data)
  {
    seq(|frames|, i requires 0 <= i < |frames| => Compressed(frames[i].flags, frames[i].data))
  }

  /** records holds frames as WriteCompressed writes them, each small enough for its length field. */
  predicate WrittenCompressed(records: seq<seq<Byte>>, frames: seq<CompressedFrame>)
  {
    && |records| == |frames|
    && forall i {:trigger frames[i]} :: 0 <= i < |frames| ==>
         records[i] == WriteCompressed(frames[i].data, frames[i].flags) && |frames[i].data| + 5 < Two32
  }

  /** Every compressed record reads back as its frame. */
  lemma CompressedReadsAt(f: Rvf, s: seq<Byte>, records: seq<seq<Byte>>, frames: seq<CompressedFrame>)
    requires f.isCompressed && WrittenCompressed(records, frames)
    requires f.framesOffset + |Concat(records)| <= |s| && s[f.framesOffset..f.framesOffset + |Concat(records)|] == Concat(records)
    ensures ReadsAt(f, s, Starts(f.framesOffset, records), CompressedPlayed(frames))
  {
    var played := CompressedPlayed(frames);
    var at := Starts(f.framesOffset, records);
    assert records[..0] == [];
    forall i | 0 <= i < |played|
      ensures ReadFrame(s, at[i], true, f.frameSize) == (played[i], at[i + 1])
    {
      var frame := frames[i];
      CompressedRecordRead(s, f.framesOffset, f.frameSize, records, i, frame.data, frame.flags, at[i], at[i + 1]);
    }
  }

  /** Once the last frame has been returned, the next call starts over: it returns what the
      first call returned and leaves the file where the first call did. */
  lemma PlaysFramesAgain(f: Rvf, s: seq<Byte>, at: seq<nat>, played: seq<Frame>)
    requires ReadsAt(f, s, at, played) && Two31 > f.length == |played| > 0
    ensures NextFrame(f, s, Steps(f, s, |played|)) == NextFrame(f, s, Start(f))
    ensures NextFrame(f, s, Start(f)) == (played[0], Cursor(0, at[1]))
  {
    PlaysFrames(f, s, at, played, |played| - 1);
    PlaysFrames(f, s, at, played, 0);
  }

  /** records holds frames as WriteRaw writes them, each frame exactly frameSize palette indices
      that fit in a byte. */
  predicate WrittenRaw(records: seq<seq<Byte>>, frames: seq<seq<int>>, frameSize: nat)
  {
    && |records| == |frames|
    && forall i {:trigger frames[i]} :: 0 <= i < |frames| ==>
         && records[i] == WriteRaw(frames[i]) && |frames[i]| == frameSize
         && forall j :: 0 <= j < |frames[i]| ==> 0 <= frames[i][j] < 256
  }

  /** The frames RawEncode hands to WriteRaw, as the player returns them. */
  function RawPlayed(frames: seq<seq<int>>): (p: seq<Frame>)
    ensures |p| == |frames|
    ensures forall i :: 0 <= i < |frames| ==> p[i] == Raw(WriteRaw(frames[i]))
  {
    seq(|frames|, i requires 0 <= i < |frames| => Raw(WriteRaw(frames[i])))
  }

  /** Every raw record reads back as its frame. */
  lemma RawReadsAt(f: Rvf, s: seq<Byte>, records: seq<seq<Byte>>, frames: seq<seq<int>>)
    requires !f.isCompressed && WrittenRaw(records, frames, f.frameSize)
    requires f.framesOffset + |Concat(records)| <= |s| && s[f.framesOffset..f.framesOffset + |Concat(records)|] == Concat(records)
    ensures ReadsAt(f, s, Starts(f.framesOffset, records), RawPlayed(frames))
  {
    var played := RawPlayed(frames);
    var at := Starts(f.framesOffset, records);
    assert records[..0] == [];
    forall i | 0 <= i < |played|
      ensures ReadFrame(s, at[i], false, f.frameSize) == (played[i], at[i + 1])
    {
      var frame := frames[i];
      RawRecordRead(s, f.framesOffset, records, i, frame, at[i], at[i + 1]);
    }
  }

  /** A compressed file plays back the frames Encode wrote, in order: call k + 1 of
      rvf_next_frame returns frame k, its flags and its payload, and leaves the file at the start
      of record k + 1. */
  lemma PlaysInOrder(f: Rvf, s: seq<Byte>, records: seq<seq<Byte>>, frames: seq<CompressedFrame>, k: nat)
    requires f.isCompressed && f.length == |frames| < Two31 && k < |frames| && WrittenCompressed(records, frames)
    requires f.framesOffset + |Concat(records)| <= |s| && s[f.framesOffset..f.framesOffset + |Concat(records)|] == Concat(records)
    ensures Steps(f, s, k).currentFrame == k - 1
    ensures NextFrame(f, s, Steps(f, s, k))
            == (Compressed(frames[k].flags, frames[k].data), Cursor(k, f.framesOffset + |Concat(records[..k + 1])|))
  {
    var at, played := Starts(f.framesOffset, records), CompressedPlayed(frames);
    CompressedReadsAt(f, s, records, frames);
    PlaysFrames(f, s, at, played, k);
    var r := NextFrame(f, s, Steps(f, s, k));
    assert r.0 == Compressed(frames[k].flags, frames[k].data);
    assert r.1 == Cursor(k, f.framesOffset + |Concat(records[..k + 1])|);
  }

  /** An uncompressed file plays back the frames RawEncode wrote, in order, each as the bytes
      WriteRaw wrote for it. */
  lemma PlaysRawInOrder(f: Rvf, s: seq<Byte>, records: seq<seq<Byte>>, frames: seq<seq<int>>, k: nat)
    requires !f.isCompressed && f.length == |frames| < Two31 && k < |frames| && WrittenRaw(records, frames, f.frameSize)
    requires f.framesOffset + |Concat(records)| <= |s| && s[f.framesOffset..f.framesOffset + |Concat(records)|] == Concat(records)
    ensures Steps(f, s, k).currentFrame == k - 1
    ensures NextFrame(f, s, Steps(f, s, k))
            == (Raw(WriteRaw(frames[k])), Cursor(k, f.framesOffset + |Concat(records[..k + 1])|))
  {
    RawReadsAt(f, s, records, frames);
    PlaysFrames(f, s, Starts(f.framesOffset, records), RawPlayed(frames), k);
  }

  /** After the last compressed frame the player starts over with the first. */
  lemma PlaysAgain(f: Rvf, s: seq<Byte>, records: seq<seq<Byte>>, frames: seq<CompressedFrame>)
    requires f.isCompressed && Two31 > f.length == |frames| > 0 && WrittenCompressed(records, frames)
    requires f.framesOffset + |Concat(records)| <= |s| && s[f.framesOffset..f.framesOffset + |Concat(records)|] == Concat(records)
    ensures NextFrame(f, s, Steps(f, s, |frames|)) == NextFrame(f, s, Start(f))
    ensures NextFrame(f, s, Start(f)).0 == Compressed(frames[0].flags, frames[0].data)
  {
    CompressedReadsAt(f, s, records, frames);
    PlaysFramesAgain(f, s, Starts(f.framesOffset, records), CompressedPlayed(frames));
  }

  /** The records Encode writes satisfy WrittenCompressed. */
  lemma CompressedRecordsWritten(frames: seq<CompressedFrame>)
    requires forall i :: 0 <= i < |frames| ==> |frames[i].data| + 5 < Two32
    ensures WrittenCompressed(CompressedRecords(frames), frames)
  {
    forall i | 0 <= i < |frames|
      ensures CompressedRecords(frames)[i] == WriteCompressed(frames[i].data, frames[i].flags)
    {
      CompressedRecordIs(frames, i);
    }
  }

  /** The records RawEncode writes satisfy WrittenRaw. */
  lemma RawRecordsWritten(frames: seq<seq<int>>, frameSize: nat)
    requires forall i :: 0 <= i < |frames| ==> |frames[i]| == frameSize
    requires forall i, j :: 0 <= i < |frames| && 0 <= j < |frames[i]| ==> 0 <= frames[i][j] < 256
    ensures WrittenRaw(RawRecords(frames), frames, frameSize)
  {
    forall i | 0 <= i < |frames|
      ensures RawRecords(frames)[i] == WriteRaw(frames[i])
    {
      RawRecordIs(frames, i);
    }
  }

  /** End to end: a compressed file as Encode writes it (the header from NewRvfFile, then one
      WriteCompressed record per frame) opens, and call k + 1 of rvf_next_frame returns frame k. */
  lemma EncodedFilePlays(palette: Palette, width: nat, height: nat, frameTime: seq<Byte>,
                         audio: Option<Wave.WavFile>, frames: seq<CompressedFrame>, tail: seq<Byte>, k: nat)
    requires |frameTime| == 4 && Writable(palette, width, height, |frames|, CompressionFull, audio)
    requires k < |frames| && forall i :: 0 <= i < |frames| ==> |frames[i].data| + 5 < Two32
    ensures var s := NewRvfFile(palette, width, height, |frames|, frameTime, CompressionFull, audio)
                     + Concat(CompressedRecords(frames)) + tail;
            && Open(s).Ok? && Open(s).value.isCompressed && Open(s).value.palette == palette
            && NextFrame(Open(s).value, s, Steps(Open(s).value, s, k)).0
               == Compressed(frames[k].flags, frames[k].data)
  {
    var head := NewRvfFile(palette, width, height, |frames|, frameTime, CompressionFull, audio);
    var records := CompressedRecords(frames);
    var body := Concat(records);
    var s := head + body + tail;
    ThreeParts(head, body, tail, s);
    OpenNewRvfFile(palette, width, height, |frames|, frameTime, CompressionFull, audio, body + tail);
    CompressedRecordsWritten(frames);
    PlaysInOrder(Open(s).value, s, records, frames, k);
  }

  /** End to end: an uncompressed file as RawEncode writes it (the header from NewRvfFile, then one
      WriteRaw record per frame of width * height palette indices) opens, and call k + 1 of
      rvf_next_frame returns frame k's bytes. */
  lemma RawFilePlays(palette: Palette, width: nat, height: nat, frameTime: seq<Byte>,
                     audio: Option<Wave.WavFile>, frames: seq<seq<int>>, tail: seq<Byte>, k: nat)
    requires |frameTime| == 4 && Writable(palette, width, height, |frames|, CompressionNone, audio)
    requires k < |frames| && forall i :: 0 <= i < |frames| ==> |frames[i]| == FrameSize(width, height)
    requires forall i, j :: 0 <= i < |frames| && 0 <= j < |frames[i]| ==> 0 <= frames[i][j] < 256
    ensures var s := NewRvfFile(palette, width, height, |frames|, frameTime, CompressionNone, audio)
                     + Concat(RawRecords(frames)) + tail;
            && Open(s).Ok? && !Open(s).value.isCompressed && Open(s).value.palette == palette
            && NextFrame(Open(s).value, s, Steps(Open(s).value, s, k)).0 == Raw(WriteRaw(frames[k]))
  {
    var head := NewRvfFile(palette, width, height, |frames|, frameTime, CompressionNone, audio);
    var records := RawRecords(frames);
    var body := Concat(records);
    var s := head + body + tail;
    ThreeParts(head, body, tail, s);
    OpenNewRvfFile(palette, width, height, |frames|, frameTime, CompressionNone, audio, body + tail);
    RawRecordsWritten(frames, FrameSize(width, height));
    PlaysRawInOrder(Open(s).value, s, records, frames, k);
  }

  /** A file made of a header, a body and a tail holds the body right after the header. */
  lemma ThreeParts(head: seq<Byte>, body: seq<Byte>, tail: seq<Byte>, s: seq<Byte>)
    requires s == head + body + tail
    ensures s == head + (body + tail)
    ensures |head| + |body| <= |s| && s[|head|..|head| + |body|] == body
  {
    assert s[|head|..|head| + |body|] == body;
  }
}
