/** The block layer of the frame encoder (encoder/encoding.go): an index image cut into 4x4
    blocks and reassembled, the run chain the encoder appends to, and the solid-colour and
    sub-palette choosers. Palette distances are the uninterpreted `FloatColor.Difference`. */
module Encoding {

  import opened Numeric
  import opened ArgMin
  import opened Colors
  import opened Bytes

  /** 16 palette indices, row-major over a 4x4 tile. */
  type ImageBlock = b: seq<int> | |b| == 16 witness seq(16, _ => 0)

  /** A flat index image with its dimensions. */
  datatype Image = Image(pixels: seq<int>, width: nat, height: nat)

  /** Blocks of an image in row-major block order, with the block grid's dimensions. */
  datatype Tiled = Tiled(blocks: seq<ImageBlock>, bw: nat, bh: nat)

  /** Every pixel of the block is an index of a palette with n colours. */
  predicate ValidBlock(b: ImageBlock, n: nat)
  {
    forall i :: 0 <= i < 16 ==> 0 <= b[i] < n
  }

  /** The block whose 16 pixels all hold `v`. */
  function Fill(v: int): (b: ImageBlock)
    ensures forall i :: 0 <= i < 16 ==> b[i] == v
  {
    seq(16, _ => v)
  }

  // ---------------------------------------------------------------------------------------
  // ImageToBlocks / BlocksToImage

  /** The image pixel at (x, y), with a coordinate past the right or bottom edge moved back
      onto the last column or row. */
  function EdgePixel(image: seq<int>, width: nat, height: nat, x: nat, y: nat): int
    requires width > 0 && height > 0 && |image| >= width * height
  {
    RowMajorBounds(Min(x, width - 1), Min(y, height - 1), width, height);
    image[Min(x, width - 1) + Min(y, height - 1) * width]
  }

  /** Block (x, y) of the image: pixel bi of the block is image pixel (4x + bi%4, 4y + bi/4). */
  function BlockAt(image: seq<int>, width: nat, height: nat, x: nat, y: nat): ImageBlock
    requires width > 0 && height > 0 && |image| >= width * height
  {
    seq(16, bi requires 0 <= bi < 16 => EdgePixel(image, width, height, 4 * x + bi % 4, 4 * y + bi / 4))
  }

  function ImageToBlocks(image: seq<int>, width: nat, height: nat): (t: Tiled)
    requires |image| >= width * height
    ensures t.bw == CeilDiv(width, 4) && t.bh == CeilDiv(height, 4)
    ensures |t.blocks| == t.bw * t.bh
  {
    var bw := CeilDiv(width, 4);
    var bh := CeilDiv(height, 4);
    var blocks := seq(bw * bh, bl requires 0 <= bl < bw * bh =>
                    RowMajorSplit(bl, bw, bh);
                    BlockAt(image, width, height, bl % bw, bl / bw));
    Tiled(blocks, bw, bh)
  }

  /** Pixel (px, py) of block (x, y) is the image pixel at (min(4x+px, w-1), min(4y+py, h-1)):
      blocks on the right and bottom edge are padded with copies of the last column and row. */
  lemma ImageToBlocksPixel(image: seq<int>, width: nat, height: nat, x: nat, y: nat, px: nat, py: nat)
    requires |image| >= width * height
    requires x < CeilDiv(width, 4) && y < CeilDiv(height, 4) && px < 4 && py < 4
    ensures width > 0 && height > 0
    ensures 0 <= Min(4 * x + px, width - 1) + Min(4 * y + py, height - 1) * width < |image|
    ensures var t := ImageToBlocks(image, width, height);
            0 <= x + y * t.bw < |t.blocks| &&
            t.blocks[x + y * t.bw][px + 4 * py] == image[Min(4 * x + px, width - 1) + Min(4 * y + py, height - 1) * width]
  {
    var t := ImageToBlocks(image, width, height);
    RowMajorBounds(x, y, t.bw, t.bh);
    RowMajorBounds(Min(4 * x + px, width - 1), Min(4 * y + py, height - 1), width, height);
    DivModOfRowMajor(x, y, t.bw);
    DivModOfRowMajor(px, py, 4);
  }

  /** Flat index of pixel (px, py) of block (x, y) in an image 4*bw pixels wide. */
  function PixelIndex(bw: nat, x: nat, y: nat, px: nat, py: nat): nat
  {
    (4 * x + px) + (4 * y + py) * (4 * bw)
  }

  function BlocksToImage(blocks: seq<ImageBlock>, bw: nat, bh: nat): (img: Image)
    requires |blocks| >= bw * bh
    ensures img.width == 4 * bw && img.height == 4 * bh
    ensures |img.pixels| == img.width * img.height
  {
    var width := 4 * bw;
    var height := 4 * bh;
    var pixels := seq(width * height, imi requires 0 <= imi < width * height =>
                    RowMajorSplit(imi, width, height);
                    var imx, imy := imi % width, imi / width;
                    RowMajorBounds(imx / 4, imy / 4, bw, bh);
                    blocks[imx / 4 + (imy / 4) * bw][imx % 4 + (imy % 4) * 4]);
    Image(pixels, width, height)
  }

  /** The output pixel of block (x, y), pixel (px, py), is `blocks[x + y*bw][px + 4*py]`. */
  lemma BlocksToImagePixel(blocks: seq<ImageBlock>, bw: nat, bh: nat, x: nat, y: nat, px: nat, py: nat)
    requires |blocks| >= bw * bh
    requires x < bw && y < bh && px < 4 && py < 4
    ensures PixelIndex(bw, x, y, px, py) < 16 * bw * bh
    ensures 0 <= x + y * bw < |blocks|
    ensures BlocksToImage(blocks, bw, bh).pixels[PixelIndex(bw, x, y, px, py)] == blocks[x + y * bw][px + 4 * py]
  {
    RowMajorBounds(4 * x + px, 4 * y + py, 4 * bw, 4 * bh);
    RowMajorBounds(x, y, bw, bh);
    DivModOfRowMajor(4 * x + px, 4 * y + py, 4 * bw);
    DivModOfRowMajor(px, x, 4);
    DivModOfRowMajor(py, y, 4);
  }

  /** The writes of BlocksToImage touch every output pixel exactly once: each flat index below
      16*bw*bh is the PixelIndex of exactly one (block, pixel) position. */
  lemma BlocksToImageWritesOnce(bw: nat, bh: nat, imi: nat)
    requires imi < (4 * bw) * (4 * bh)
    ensures exists x: nat, y: nat, px: nat, py: nat ::
              x < bw && y < bh && px < 4 && py < 4 && PixelIndex(bw, x, y, px, py) == imi
    ensures forall x: nat, y: nat, px: nat, py: nat, x': nat, y': nat, px': nat, py': nat ::
              x < bw && y < bh && px < 4 && py < 4 && x' < bw && y' < bh && px' < 4 && py' < 4 &&
              PixelIndex(bw, x, y, px, py) == imi && PixelIndex(bw, x', y', px', py') == imi ==>
              x == x' && y == y' && px == px' && py == py'
  {
    var width := 4 * bw;
    RowMajorSplit(imi, width, 4 * bh);
    var imx, imy := imi % width, imi / width;
    DivModOfRowMajor(imx % 4, imx / 4, 4);
    DivModOfRowMajor(imy % 4, imy / 4, 4);
    assert PixelIndex(bw, imx / 4, imy / 4, imx % 4, imy % 4) == imi;
    forall x: nat, y: nat, px: nat, py: nat, x': nat, y': nat, px': nat, py': nat |
      x < bw && y < bh && px < 4 && py < 4 && x' < bw && y' < bh && px' < 4 && py' < 4 &&
      PixelIndex(bw, x, y, px, py) == imi && PixelIndex(bw, x', y', px', py') == imi
      ensures x == x' && y == y' && px == px' && py == py'
    {
      RowMajorInjective(4 * x + px, 4 * y + py, 4 * x' + px', 4 * y' + py', width);
      RowMajorInjective(px, x, px', x', 4);
      RowMajorInjective(py, y, py', y', 4);
    }
  }

  /** For dimensions that are multiples of 4 the block transform loses nothing:
      BlocksToImage(ImageToBlocks(img)) == img. */
  lemma ImageBlocksRoundTrip(image: seq<int>, width: nat, height: nat)
    requires width % 4 == 0 && height % 4 == 0
    requires |image| == width * height
    ensures var t := ImageToBlocks(image, width, height);
            BlocksToImage(t.blocks, t.bw, t.bh) == Image(image, width, height)
  {
    var t := ImageToBlocks(image, width, height);
    assert t.bw * 4 == width && t.bh * 4 == height;
    var img := BlocksToImage(t.blocks, t.bw, t.bh);
    forall imi | 0 <= imi < width * height
      ensures img.pixels[imi] == image[imi]
    {
      ImageBlocksPixelRoundTrip(image, width, height, t, imi);
    }
  }

  /** One pixel of ImageBlocksRoundTrip: it goes out to its block and comes back. */
  lemma ImageBlocksPixelRoundTrip(image: seq<int>, width: nat, height: nat, t: Tiled, imi: nat)
    requires width % 4 == 0 && height % 4 == 0 && |image| == width * height
    requires t == ImageToBlocks(image, width, height) && t.bw * 4 == width && t.bh * 4 == height
    requires imi < width * height
    ensures |BlocksToImage(t.blocks, t.bw, t.bh).pixels| == width * height
    ensures BlocksToImage(t.blocks, t.bw, t.bh).pixels[imi] == image[imi]
  {
    RowMajorSplit(imi, width, height);
    var imx, imy := imi % width, imi / width;
    var x, y, px, py := imx / 4, imy / 4, imx % 4, imy % 4;
    DivModOfRowMajor(px, x, 4);
    DivModOfRowMajor(py, y, 4);
    assert imx == 4 * x + px && imy == 4 * y + py;
    assert x < t.bw && y < t.bh;
    BlocksToImagePixel(t.blocks, t.bw, t.bh, x, y, px, py);
    assert PixelIndex(t.bw, x, y, px, py) == imi;
    ImageToBlocksPixel(image, width, height, x, y, px, py);
    assert Min(4 * x + px, width - 1) == imx && Min(4 * y + py, height - 1) == imy;
  }

  /** Cutting a reassembled image gives back the blocks: ImageToBlocks(BlocksToImage(b)) == b. */
  lemma BlocksImageRoundTrip(blocks: seq<ImageBlock>, bw: nat, bh: nat)
    requires |blocks| == bw * bh
    ensures var img := BlocksToImage(blocks, bw, bh);
            ImageToBlocks(img.pixels, img.width, img.height) == Tiled(blocks, bw, bh)
  {
    var img := BlocksToImage(blocks, bw, bh);
    var t := ImageToBlocks(img.pixels, img.width, img.height);
    assert t.bw == bw && t.bh == bh;
    forall bl | 0 <= bl < bw * bh
      ensures t.blocks[bl] == blocks[bl]
    {
      RowMajorSplit(bl, bw, bh);
      var x, y := bl % bw, bl / bw;
      forall bi | 0 <= bi < 16
        ensures t.blocks[bl][bi] == blocks[bl][bi]
      {
        var px, py := bi % 4, bi / 4;
        assert bi == px + 4 * py;
        ImageToBlocksPixel(img.pixels, img.width, img.height, x, y, px, py);
        BlocksToImagePixel(blocks, bw, bh, x, y, px, py);
      }
    }
  }

  // ---------------------------------------------------------------------------------------
  // The run chain

  /** Type byte of a block encoding: the high nibble of the opcode byte. */
  const EncSkip: Byte := 0x00
  const EncRepeat: Byte := 0x20
  const EncSolid: Byte := 0x40
  const EncPal2: Byte := 0x80
  const EncPal4: Byte := 0xA0
  const EncPal8: Byte := 0xC0
  const EncRaw: Byte := 0xE0

  /** One entry of the chain: a run of blocks sharing a block type and its metadata. */
  datatype EncodedBlock = EncodedBlock(blockType: Byte, count: int, metaData: seq<int>, pixelData: seq<seq<int>>)

  /** A chooser's proposal for one block. */
  datatype EncodeSuggestion = EncodeSuggestion(encoding: Byte, metaData: seq<int>, pixelData: seq<int>, first: bool, result: ImageBlock)

  /** FrameEncoder.AddSuggestion: a suggestion marked `first` opens a new run; any other one
      extends the last run with its pixel data. */
  function AddSuggestion(chain: seq<EncodedBlock>, s: EncodeSuggestion): (c: seq<EncodedBlock>)
    requires s.first || |chain| > 0
    ensures s.first ==> |c| == |chain| + 1 && c[..|chain|] == chain
    ensures s.first ==> c[|chain|].blockType == s.encoding && c[|chain|].count == 1
                        && c[|chain|].metaData == s.metaData && c[|chain|].pixelData == [s.pixelData]
    ensures !s.first ==> |c| == |chain| && c[..|chain| - 1] == chain[..|chain| - 1]
    ensures !s.first ==> var last, prev := c[|c| - 1], chain[|chain| - 1];
                         && last.blockType == prev.blockType && last.count == prev.count
                         && last.metaData == prev.metaData && last.pixelData == prev.pixelData + [s.pixelData]
  {
    if s.first then
      chain + [EncodedBlock(s.encoding, 1, s.metaData, [s.pixelData])]
    else
      var last := chain[|chain| - 1];
      chain[|chain| - 1 := last.(pixelData := last.pixelData + [s.pixelData])]
  }

  /** The chain after a sequence of suggestions, the first of which opens a run. */
  function AddSuggestions(chain: seq<EncodedBlock>, ss: seq<EncodeSuggestion>): seq<EncodedBlock>
    requires |chain| > 0 || |ss| == 0 || ss[0].first
    decreases |ss|
  {
    if |ss| == 0 then chain
    else AddSuggestions(AddSuggestion(chain, ss[0]), ss[1..])
  }

  function FirstCount(ss: seq<EncodeSuggestion>): nat
  {
    if |ss| == 0 then 0 else (if ss[0].first then 1 else 0) + FirstCount(ss[1..])
  }

  function TotalMembers(chain: seq<EncodedBlock>): nat
  {
    if |chain| == 0 then 0 else TotalMembers(chain[..|chain| - 1]) + |chain[|chain| - 1].pixelData|
  }

  /** Folding suggestions into a fresh chain opens one run per `first` suggestion and files every
      suggestion's pixel data under some run, yet every run keeps `Count == 1`: this version of
      the encoder never increments Count. */
  lemma {:induction false} AddSuggestionsCounts(chain: seq<EncodedBlock>, ss: seq<EncodeSuggestion>)
    requires |chain| > 0 || |ss| == 0 || ss[0].first
    requires forall i :: 0 <= i < |chain| ==> chain[i].count == 1
    ensures var c := AddSuggestions(chain, ss);
            && |c| == |chain| + FirstCount(ss)
            && TotalMembers(c) == TotalMembers(chain) + |ss|
            && forall i :: 0 <= i < |c| ==> c[i].count == 1
    decreases |ss|
  {
    if |ss| > 0 {
      var c1 := AddSuggestion(chain, ss[0]);
      if ss[0].first {
        assert c1[..|c1| - 1] == chain;
      } else {
        assert c1[..|c1| - 1] == chain[..|chain| - 1];
      }
      AddSuggestionsCounts(c1, ss[1..]);
    }
  }

  // ---------------------------------------------------------------------------------------
  // Choosers

  /** Distance between palette colours a and b through their real colours. */
  function PalDiff(pal: Palette, diff: Difference, a: int, b: int): real
    requires 0 <= a < |pal| && 0 <= b < |pal|
  {
    diff(IntToFloat(pal[a]), IntToFloat(pal[b]))
  }

  /** CompareBlocks: summed per-pixel distance between two blocks. */
  function CompareBlocks(a: ImageBlock, b: ImageBlock, pal: Palette, diff: Difference): real
    requires ValidBlock(a, |pal|) && ValidBlock(b, |pal|)
  {
    Sum(PixelDiffs(a, b, pal, diff))
  }

  function PixelDiffs(a: ImageBlock, b: ImageBlock, pal: Palette, diff: Difference): (d: seq<real>)
    requires ValidBlock(a, |pal|) && ValidBlock(b, |pal|)
    ensures |d| == 16 && forall i :: 0 <= i < 16 ==> d[i] == PalDiff(pal, diff, a[i], b[i])
  {
    seq(16, i requires 0 <= i < 16 => PalDiff(pal, diff, a[i], b[i]))
  }

  /** A block compared with itself scores 0, and any comparison scores at least 0, under a
      distance that is non-negative and zero between equal colours. */
  lemma CompareBlocksMetric(a: ImageBlock, b: ImageBlock, pal: Palette, diff: Difference)
    requires ValidBlock(a, |pal|) && ValidBlock(b, |pal|)
    requires forall x, y :: diff(x, y) >= 0.0
    requires forall x :: diff(x, x) == 0.0
    ensures CompareBlocks(a, b, pal, diff) >= 0.0
    ensures a == b ==> CompareBlocks(a, b, pal, diff) == 0.0
  {
    SumNonNegative(PixelDiffs(a, b, pal, diff));
    if a == b {
      SumZero(PixelDiffs(a, b, pal, diff));
    }
  }

  /** Score of filling `source` with palette colour c. */
  function SolidScore(source: ImageBlock, pal: Palette, diff: Difference, c: int): real
    requires 0 <= c < |pal| && ValidBlock(source, |pal|)
  {
    Sum(seq(16, k requires 0 <= k < 16 => PalDiff(pal, diff, c, source[k])))
  }

  function SolidScores(source: ImageBlock, pal: Palette, diff: Difference): (s: seq<real>)
    requires |pal| > 0 ==> ValidBlock(source, |pal|)
    ensures |s| == |pal| && forall c :: 0 <= c < |pal| ==> s[c] == SolidScore(source, pal, diff, c)
  {
    seq(|pal|, c requires 0 <= c < |pal| => SolidScore(source, pal, diff, c))
  }

  datatype Solid = Solid(color: int, score: real, result: ImageBlock)

  /** ChooseSolid: the first palette colour of least SolidScore, -1 when no score is below
      MaxFloat64 (in particular for an empty palette), and the block filled with it. */
  function ChooseSolid(source: ImageBlock, pal: Palette, diff: Difference): (s: Solid)
    requires |pal| > 0 ==> ValidBlock(source, |pal|)
    ensures -1 <= s.color < |pal|
    ensures s.result == Fill(s.color)
    ensures s.color == -1 <==> forall c :: 0 <= c < |pal| ==> SolidScore(source, pal, diff, c) >= MaxFloat64
    ensures s.color == -1 ==> s.score == MaxFloat64
    ensures s.color >= 0 ==>
              && s.score == SolidScore(source, pal, diff, s.color)
              && (forall c :: 0 <= c < |pal| ==> s.score <= SolidScore(source, pal, diff, c))
              && (forall c :: 0 <= c < s.color ==> s.score < SolidScore(source, pal, diff, c))
  {
    var scores := SolidScores(source, pal, diff);
    var p := FirstMin(scores, Pick(-1, MaxFloat64));
    assert Beaten(scores, Pick(-1, MaxFloat64)) <==>
           exists c :: 0 <= c < |pal| && SolidScore(source, pal, diff, c) < MaxFloat64 by {
      if c :| 0 <= c < |pal| && SolidScore(source, pal, diff, c) < MaxFloat64 {
        assert scores[c] < MaxFloat64;
      }
    }
    Solid(p.index, p.score, Fill(p.index))
  }

  /** A block of one palette colour is matched by a solid fill of score 0 when the distance is
      non-negative and zero between equal colours. */
  lemma ChooseSolidUniform(pal: Palette, diff: Difference, c: int)
    requires 0 <= c < |pal|
    requires forall x, y :: diff(x, y) >= 0.0
    requires forall x :: diff(x, x) == 0.0
    ensures var s := ChooseSolid(Fill(c), pal, diff);
            s.color >= 0 && s.score == 0.0
  {
    var source := Fill(c);
    var terms := seq(16, k requires 0 <= k < 16 => PalDiff(pal, diff, c, source[k]));
    SumZero(terms);
    assert SolidScore(source, pal, diff, c) == 0.0;
    var s := ChooseSolid(source, pal, diff);
    forall c' | 0 <= c' < |pal|
      ensures SolidScore(source, pal, diff, c') >= 0.0
    {
      SumNonNegative(seq(16, k requires 0 <= k < 16 => PalDiff(pal, diff, c', source[k])));
    }
  }

  /** Every entry of the sub-palette is an index of the palette. */
  predicate ValidSubpal(subpal: seq<int>, n: nat)
  {
    forall i :: 0 <= i < |subpal| ==> 0 <= subpal[i] < n
  }

  /** Distance from palette colour `source` to sub-palette entry i. */
  function SubpalDiff(source: int, pal: Palette, subpal: seq<int>, diff: Difference, i: int): real
    requires 0 <= source < |pal| && ValidSubpal(subpal, |pal|) && 0 <= i < |subpal|
  {
    PalDiff(pal, diff, source, subpal[i])
  }

  function SubpalDiffs(source: int, pal: Palette, subpal: seq<int>, diff: Difference): (d: seq<real>)
    requires 0 <= source < |pal| && ValidSubpal(subpal, |pal|)
    ensures |d| == |subpal| && forall i :: 0 <= i < |subpal| ==> d[i] == SubpalDiff(source, pal, subpal, diff, i)
  {
    seq(|subpal|, i requires 0 <= i < |subpal| => SubpalDiff(source, pal, subpal, diff, i))
  }

  /** chooseColor: position in the sub-palette of the first nearest entry; 0 when the
      sub-palette is empty or no distance is below MaxFloat64. */
  function ChooseColor(source: int, pal: Palette, subpal: seq<int>, diff: Difference): (r: int)
    requires |subpal| > 0 ==> 0 <= source < |pal| && ValidSubpal(subpal, |pal|)
    ensures |subpal| == 0 ==> r == 0
    ensures |subpal| > 0 ==> 0 <= r < |subpal|
    ensures |subpal| > 0 && SomeEntryBelowMax(source, pal, subpal, diff) ==>
              && IsNearestEntry(source, pal, subpal, diff, r)
              && (forall j :: 0 <= j < r ==> SubpalDiff(source, pal, subpal, diff, r) < SubpalDiff(source, pal, subpal, diff, j))
    ensures |subpal| > 0 && !SomeEntryBelowMax(source, pal, subpal, diff) ==> r == 0
  {
    if |subpal| == 0 then 0
    else
      var dists := SubpalDiffs(source, pal, subpal, diff);
      assert SomeEntryBelowMax(source, pal, subpal, diff) <==> Beaten(dists, Pick(0, MaxFloat64)) by {
        if i :| 0 <= i < |subpal| && SubpalDiff(source, pal, subpal, diff, i) < MaxFloat64 {
          assert dists[i] < MaxFloat64;
        }
      }
      FirstMin(dists, Pick(0, MaxFloat64)).index
  }

  /** Some sub-palette entry is at a distance below MaxFloat64 from `source`. */
  predicate SomeEntryBelowMax(source: int, pal: Palette, subpal: seq<int>, diff: Difference)
    requires 0 <= source < |pal| && ValidSubpal(subpal, |pal|)
  {
    exists k :: 0 <= k < |subpal| && SubpalDiff(source, pal, subpal, diff, k) < MaxFloat64
  }

  /** Entry r of the sub-palette is at least as near to `source` as any other entry. */
  predicate IsNearestEntry(source: int, pal: Palette, subpal: seq<int>, diff: Difference, r: int)
    requires 0 <= source < |pal| && ValidSubpal(subpal, |pal|) && 0 <= r < |subpal|
  {
    forall j :: 0 <= j < |subpal| ==> SubpalDiff(source, pal, subpal, diff, r) <= SubpalDiff(source, pal, subpal, diff, j)
  }

  datatype Applied = Applied(data: ImageBlock, result: ImageBlock)

  /** ApplySubpal: every pixel replaced by its nearest sub-palette entry; `data` holds the
      positions in the sub-palette, `result` the palette indices. */
  function ApplySubpal(source: ImageBlock, pal: Palette, subpal: seq<int>, diff: Difference): (a: Applied)
    requires |subpal| > 0 && ValidBlock(source, |pal|) && ValidSubpal(subpal, |pal|)
    ensures forall i :: 0 <= i < 16 ==> 0 <= a.data[i] < |subpal| && a.result[i] == subpal[a.data[i]]
    ensures forall i :: 0 <= i < 16 ==> a.result[i] in subpal
    ensures forall i :: 0 <= i < 16 && SomeEntryBelowMax(source[i], pal, subpal, diff) ==>
              IsNearestEntry(source[i], pal, subpal, diff, a.data[i])
  {
    var data := seq(16, i requires 0 <= i < 16 => ChooseColor(source[i], pal, subpal, diff));
    var result := seq(16, i requires 0 <= i < 16 => subpal[data[i]]);
    Applied(data, result)
  }

  /** A block drawn only from sub-palette colours is reproduced at distance 0, pixel by pixel,
      when the distance is non-negative and zero between equal colours. */
  lemma ApplySubpalExact(source: ImageBlock, pal: Palette, subpal: seq<int>, diff: Difference)
    requires |subpal| > 0 && ValidBlock(source, |pal|) && ValidSubpal(subpal, |pal|)
    requires forall i :: 0 <= i < 16 ==> source[i] in subpal
    requires forall x, y :: diff(x, y) >= 0.0
    requires forall x :: diff(x, x) == 0.0
    ensures var a := ApplySubpal(source, pal, subpal, diff);
            forall i :: 0 <= i < 16 ==> PalDiff(pal, diff, source[i], a.result[i]) == 0.0
  {
    var a := ApplySubpal(source, pal, subpal, diff);
    forall i | 0 <= i < 16
      ensures PalDiff(pal, diff, source[i], a.result[i]) == 0.0
    {
      var k :| 0 <= k < |subpal| && subpal[k] == source[i];
      assert SubpalDiff(source[i], pal, subpal, diff, k) == 0.0;
      assert SubpalDiff(source[i], pal, subpal, diff, a.data[i]) <= 0.0;
    }
  }
}
