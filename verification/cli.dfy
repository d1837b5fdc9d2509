/** The `encode` command of the encoder (encoder/main.go): the table of compression thresholds,
    the choice between the uncompressed and the compressed writer, the flags each compressed
    frame carries, the block grid the Hilbert curve covers, and the files RawEncode and Encode
    write, read back by the player. Frames reach the writers already dithered (RawEncode) or
    already encoded (Encode): image loading, dithering and the frame encoder are parameters. */
module Cli {

  import opened Numeric
  import opened Bytes
  import opened Results
  import opened Colors
  import opened RvfFile
  import Wave
  import RvfDecode

  /** compressionLevels: the encoder threshold of each compression level. */
  const CompressionLevels: seq<real> := [0.0001, 0.001, 0.005, 0.01, 0.02, 0.05, 0.1, 0.2, 0.5, 1.0]

  /** Every later entry is strictly larger. */
  predicate Increasing(s: seq<real>)
  {
    forall i, j :: 0 <= i < j < |s| ==> s[i] < s[j]
  }

  /** A sequence that grows from each entry to the next grows everywhere. */
  lemma {:induction false} IncreasingByNeighbours(s: seq<real>)
    requires forall i :: 0 <= i < |s| - 1 ==> s[i] < s[i + 1]
    ensures Increasing(s)
  {
    if |s| > 1 {
      var t := s[..|s| - 1];
      forall i | 0 <= i < |t| - 1 ensures t[i] < t[i + 1] {
        assert t[i] == s[i] && t[i + 1] == s[i + 1];
      }
      IncreasingByNeighbours(t);
      forall i, j | 0 <= i < j < |s| ensures s[i] < s[j] {
        if j < |s| - 1 {
          assert t[i] == s[i] && t[j] == s[j];
        } else if i < j - 1 {
          assert t[i] == s[i] && t[j - 1] == s[j - 1];
        }
      }
    }
  }

  /** A higher compression level never means a lower threshold. */
  lemma CompressionLevelsIncreasing()
    ensures |CompressionLevels| == 10 && Increasing(CompressionLevels)
  {
    var s := CompressionLevels;
    forall i | 0 <= i < |s| - 1 ensures s[i] < s[i + 1] {
      assert i == 0 || i == 1 || i == 2 || i == 3 || i == 4 || i == 5 || i == 6 || i == 7 || i == 8;
    }
    IncreasingByNeighbours(s);
  }

  /** Which writer the `encode` command calls: RawEncode, or Encode with a threshold. */
  datatype Route = RawRoute | CompressedRoute(threshold: real)

  /** Level 0 selects the uncompressed writer; any other level is clamped into the table, a
      negative one to its first entry and one past the end to its last. */
  function ChooseRoute(compression: int): (r: Route)
    ensures r.RawRoute? <==> compression == 0
    ensures r.CompressedRoute? ==> r.threshold in CompressionLevels
    ensures compression < 0 ==> r == CompressedRoute(0.0001)
    ensures compression >= |CompressionLevels| ==> r == CompressedRoute(1.0)
    ensures 0 < compression < |CompressionLevels| ==> r == CompressedRoute(CompressionLevels[compression])
  {
    if compression == 0 then RawRoute
    else CompressedRoute(CompressionLevels[Clamp(compression, 0, |CompressionLevels| - 1)])
  }

  /** Raising a non-zero level never lowers the threshold, and between levels 1 and 9 it raises
      it: the levels in the table are told apart. */
  lemma ChooseRouteMonotone(a: int, b: int)
    requires a != 0 && b != 0 && a <= b
    ensures ChooseRoute(a).threshold <= ChooseRoute(b).threshold
    ensures 1 <= a < b < |CompressionLevels| ==> ChooseRoute(a).threshold < ChooseRoute(b).threshold
  {
    CompressionLevelsIncreasing();
    var s := CompressionLevels;
    var i, j := Clamp(a, 0, |s| - 1), Clamp(b, 0, |s| - 1);
    assert i <= j;
    if i < j {
      assert s[i] < s[j];
    }
  }

  /** The compression flag each writer puts in the header: the player decodes frames iff the
      file was written by Encode. */
  function RouteCompression(r: Route): (c: Byte)
    ensures c & CompressionFull != 0 <==> r.CompressedRoute?
    ensures c & AudioBlock == 0 && c & AudioStream == 0
  {
    if r.RawRoute? then CompressionNone else CompressionFull
  }

  /** The flags Encode gives frame i of n: first for the first frame, last for the last, keyframe
      when the encoder holds no state from earlier frames. */
  function FrameFlags(i: nat, n: nat, clean: bool): (f: Byte)
    ensures f & FrameIsFirst != 0 <==> i == 0
    ensures f & FrameIsLast != 0 <==> i == n - 1
    ensures f & FrameIsKeyframe != 0 <==> clean
    ensures f & 0xF8 == 0
  {
    var f0 := FrameRegular;
    var f1 := if i == 0 then f0 | FrameIsFirst else f0;
    var f2 := if i == n - 1 then f1 | FrameIsLast else f1;
    if clean then f2 | FrameIsKeyframe else f2
  }

  /** The only frame of a one-frame file is both the first and the last. */
  lemma SingleFrameFlags(clean: bool)
    ensures FrameFlags(0, 1, clean) == FrameIsFirst | FrameIsLast | (if clean then FrameIsKeyframe else FrameRegular)
  {
    var f := FrameFlags(0, 1, clean);
    FlagsOfBits(f, clean);
  }

  /** A byte with no bit above the third is fixed by its three flag bits. */
  lemma FlagsOfBits(f: Byte, clean: bool)
    requires f & 0xF8 == 0 && f & FrameIsFirst != 0 && f & FrameIsLast != 0
    requires f & FrameIsKeyframe != 0 <==> clean
    ensures f == FrameIsFirst | FrameIsLast | (if clean then FrameIsKeyframe else FrameRegular)
  {
  }

  /** The block grid the curve is built for: ceil(width / 4) x ceil(height / 4), the smallest
      grid of 4 x 4 blocks that covers the frame, which is the grid ImageToBlocks cuts. */
  function CurveGrid(width: nat, height: nat): (g: (nat, nat))
    ensures width <= 4 * g.0 && (g.0 == 0 || 4 * (g.0 - 1) < width)
    ensures height <= 4 * g.1 && (g.1 == 0 || 4 * (g.1 - 1) < height)
  {
    (CeilDiv(width, 4), CeilDiv(height, 4))
  }

  /** What the frame encoder hands Encode for one frame: the packed data and whether it holds
      no state from earlier frames. */
  datatype EncodedFrame = EncodedFrame(data: seq<Byte>, clean: bool)

  /** The frames Encode writes, each with the flags of its place in the file. */
  function FlaggedFrames(frames: seq<EncodedFrame>): (r: seq<CompressedFrame>)
    ensures |r| == |frames|
    ensures forall i :: 0 <= i < |frames| ==>
              r[i] == CompressedFrame(FrameFlags(i, |frames|, frames[i].clean), frames[i].data)
  {
    seq(|frames|, i requires 0 <= i < |frames| =>
      CompressedFrame(FrameFlags(i, |frames|, frames[i].clean), frames[i].data))
  }

  /** Encode: nothing without input files; otherwise the header with the compression flag, then
      one WriteCompressed record per frame. */
  function EncodeFile(palette: Palette, width: nat, height: nat, frameTime: seq<Byte>,
                      audio: Option<Wave.WavFile>, frames: seq<EncodedFrame>): (r: Option<seq<Byte>>)
    requires |frameTime| == 4
    ensures r.None? <==> |frames| == 0
    ensures r.Some? ==> |r.value| >= |NewRvfFile(palette, width, height, |frames|, frameTime, CompressionFull, audio)|
  {
    if |frames| == 0 then None
    else Some(NewRvfFile(palette, width, height, |frames|, frameTime, CompressionFull, audio)
              + Concat(CompressedRecords(FlaggedFrames(frames))))
  }

  /** A file Encode writes opens with the header it was given, and call k + 1 of rvf_next_frame
      returns frame k's data with the flags of its place: first iff k is 0, last iff k is the
      last frame, keyframe iff the encoder was clean. */
  lemma EncodeFilePlays(palette: Palette, width: nat, height: nat, frameTime: seq<Byte>,
                        audio: Option<Wave.WavFile>, frames: seq<EncodedFrame>, k: nat)
    requires |frameTime| == 4 && RvfDecode.Writable(palette, width, height, |frames|, CompressionFull, audio)
    requires k < |frames| && forall i :: 0 <= i < |frames| ==> |frames[i].data| + 5 < Two32
    ensures EncodeFile(palette, width, height, frameTime, audio, frames).Some?
    ensures var s := EncodeFile(palette, width, height, frameTime, audio, frames).value;
            var f := RvfDecode.Open(s);
            && f.Ok? && f.value.isCompressed && f.value.palette == palette
            && f.value.width == width && f.value.height == height && f.value.length == |frames|
            && RvfDecode.NextFrame(f.value, s, RvfDecode.Steps(f.value, s, k)).0
               == RvfDecode.Compressed(FrameFlags(k, |frames|, frames[k].clean), frames[k].data)
  {
    var flagged := FlaggedFrames(frames);
    var head := NewRvfFile(palette, width, height, |frames|, frameTime, CompressionFull, audio);
    var body := Concat(CompressedRecords(flagged));
    forall i | 0 <= i < |flagged| ensures |flagged[i].data| + 5 < Two32 {
      assert flagged[i].data == frames[i].data;
    }
    RvfDecode.EncodedFilePlays(palette, width, height, frameTime, audio, flagged, [], k);
    assert head + body + [] == head + body;
    RvfDecode.OpenNewRvfFile(palette, width, height, |frames|, frameTime, CompressionFull, audio, body);
  }

  /** RawEncode: nothing without input files; otherwise the header without the compression flag,
      then each dithered frame's palette indices, one byte each. */
  function RawEncodeFile(palette: Palette, width: nat, height: nat, frameTime: seq<Byte>,
                         audio: Option<Wave.WavFile>, frames: seq<seq<int>>): (r: Option<seq<Byte>>)
    requires |frameTime| == 4
    ensures r.None? <==> |frames| == 0
    ensures r.Some? ==> |r.value| >= |NewRvfFile(palette, width, height, |frames|, frameTime, CompressionNone, audio)|
  {
    if |frames| == 0 then None
    else Some(NewRvfFile(palette, width, height, |frames|, frameTime, CompressionNone, audio)
              + Concat(RawRecords(frames)))
  }

  /** A file RawEncode writes opens as uncompressed with the header it was given, and call k + 1
      of rvf_next_frame returns frame k's pixels as WriteRaw wrote them, byte j holding palette
      index j of the frame. */
  lemma RawEncodeFilePlays(palette: Palette, width: nat, height: nat, frameTime: seq<Byte>,
                           audio: Option<Wave.WavFile>, frames: seq<seq<int>>, k: nat)
    requires |frameTime| == 4 && RvfDecode.Writable(palette, width, height, |frames|, CompressionNone, audio)
    requires k < |frames| && forall i :: 0 <= i < |frames| ==> |frames[i]| == RvfDecode.FrameSize(width, height)
    requires forall i, j :: 0 <= i < |frames| && 0 <= j < |frames[i]| ==> 0 <= frames[i][j] < 256
    ensures RawEncodeFile(palette, width, height, frameTime, audio, frames).Some?
    ensures var s := RawEncodeFile(palette, width, height, frameTime, audio, frames).value;
            var f := RvfDecode.Open(s);
            && f.Ok? && !f.value.isCompressed && f.value.palette == palette
            && f.value.width == width && f.value.height == height && f.value.length == |frames|
            && RvfDecode.NextFrame(f.value, s, RvfDecode.Steps(f.value, s, k)).0 == RvfDecode.Raw(WriteRaw(frames[k]))
  {
    var head := NewRvfFile(palette, width, height, |frames|, frameTime, CompressionNone, audio);
    var body := Concat(RawRecords(frames));
    RvfDecode.RawFilePlays(palette, width, height, frameTime, audio, frames, [], k);
    assert head + body + [] == head + body;
    RvfDecode.OpenNewRvfFile(palette, width, height, |frames|, frameTime, CompressionNone, audio, body);
  }
}
