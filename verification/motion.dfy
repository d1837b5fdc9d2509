/** The block motion search of the encoder's experiment (encoder/motion.go): what the offset
    table guarantees about the search order, the clamped pixel read, the 8 x 8 block comparison
    and the best-offset scan over every block of a frame. */
module Motion {

  import opened Numeric
  import opened ArgMin
  import opened MotionOffsets

  lemma OffsetsRing0At(i: int)
    requires 0 <= i < 1
    ensures |Offsets| == 169 && RingOf(i) == 0 && RingStart(0) == 0
    ensures Offsets[i] == Walk(0, i - 0)
  {
    
  }

  lemma OffsetsRing1At(i: int)
    requires 1 <= i < 9
    ensures |Offsets| == 169 && RingOf(i) == 1 && RingStart(1) == 1
    ensures Offsets[i] == Walk(1, i - 1)
  {
    Ring1Walk();
  }

  lemma OffsetsRing2At(i: int)
    requires 9 <= i < 25
    ensures |Offsets| == 169 && RingOf(i) == 2 && RingStart(2) == 9
    ensures Offsets[i] == Walk(2, i - 9)
  {
    Ring2Walk();
  }

  lemma OffsetsRing3At(i: int)
    requires 25 <= i < 49
    ensures |Offsets| == 169 && RingOf(i) == 3 && RingStart(3) == 25
    ensures Offsets[i] == Walk(3, i - 25)
  {
    Ring3Walk();
  }

  lemma OffsetsRing4At(i: int)
    requires 49 <= i < 81
    ensures |Offsets| == 169 && RingOf(i) == 4 && RingStart(4) == 49
    ensures Offsets[i] == Walk(4, i - 49)
  {
    Ring4WalkA(); Ring4WalkB();
  }

  lemma OffsetsRing5At(i: int)
    requires 81 <= i < 121
    ensures |Offsets| == 169 && RingOf(i) == 5 && RingStart(5) == 81
    ensures Offsets[i] == Walk(5, i - 81)
  {
    Ring5WalkA(); Ring5WalkB();
  }

  lemma OffsetsRing6At(i: int)
    requires 121 <= i < 169
    ensures |Offsets| == 169 && RingOf(i) == 6 && RingStart(6) == 121
    ensures Offsets[i] == Walk(6, i - 121)
  {
    Ring6WalkA(); Ring6WalkB();
  }

  /** The table is the spiral: entry i is step i - RingStart(k) of the walk round ring k. */
  lemma OffsetsSpiral(i: int)
    requires 0 <= i < 169
    ensures |Offsets| == 169
    ensures Offsets[i] == Walk(RingOf(i), i - RingStart(RingOf(i)))
  {
    if i < 1 { OffsetsRing0At(i); }
    else if i < 9 { OffsetsRing1At(i); }
    else if i < 25 { OffsetsRing2At(i); }
    else if i < 49 { OffsetsRing3At(i); }
    else if i < 81 { OffsetsRing4At(i); }
    else if i < 121 { OffsetsRing5At(i); }
    else { OffsetsRing6At(i); }
  }

  /** Step p of ring k sits at index RingStart(k) + p of the table. */
  lemma RingOfWalk(k: nat, p: int)
    requires k <= 6 && 0 <= p < RingSize(k)
    ensures 0 <= RingStart(k) + p < 169 && RingOf(RingStart(k) + p) == k
  {
    if k == 0 { } else if k == 1 { } else if k == 2 { assert RingStart(k) == 9; }
    else if k == 3 { assert RingStart(k) == 25; } else if k == 4 { assert RingStart(k) == 49; }
    else if k == 5 { assert RingStart(k) == 81; } else { assert RingStart(k) == 121; }
  }

  /** Entry i lies on ring RingOf(i), inside the search window, at the step it is listed at. */
  lemma OffsetsOnRings(i: int)
    requires 0 <= i < 169
    ensures |Offsets| == 169
    ensures Ring(Offsets[i]) == RingOf(i) && InWindow(Offsets[i])
    ensures Step(Offsets[i]) == i - RingStart(RingOf(i))
  {
    OffsetsSpiral(i);
    WalkOnRing(RingOf(i), i - RingStart(RingOf(i)));
  }

  /** The search runs nearest-first: a later candidate is never closer than an earlier one. */
  lemma OffsetsNearestFirst(i: int, j: int)
    requires 0 <= i <= j < 169
    ensures |Offsets| == 169
    ensures Ring(Offsets[i]) <= Ring(Offsets[j])
  {
    OffsetsOnRings(i);
    OffsetsOnRings(j);
  }

  /** No candidate is tried twice. */
  lemma OffsetsDistinct(i: int, j: int)
    requires 0 <= i < 169 && 0 <= j < 169 && i != j
    ensures |Offsets| == 169
    ensures Offsets[i] != Offsets[j]
  {
    OffsetsOnRings(i);
    OffsetsOnRings(j);
  }

  /** Every displacement of at most six pixels in each direction is tried, the zero offset first. */
  lemma OffsetsCover(o: Offset)
    requires InWindow(o)
    ensures |Offsets| == 169 && Offsets[0] == Offset(0, 0)
    ensures exists i :: 0 <= i < 169 && Offsets[i] == o
  {
    OffsetsRing0At(0);
    WalkCovers(o);
    var i := RingStart(Ring(o)) + Step(o);
    RingOfWalk(Ring(o), Step(o));
    OffsetsSpiral(i);
  }

  /** A palette-index image, row-major, one entry per pixel. */
  type Image = seq<int>

  /** The perceptual distance between two palette indices (PalComp.CompareColors). */
  type Compare = (int, int) -> real

  /** Pixel (x, y) of a width x height image. */
  function Pixel(im: Image, x: int, y: int, width: int, height: int): int
    requires 0 <= x < width && 0 <= y < height && |im| == width * height
  {
    RowMajorBounds(x, y, width, height);
    im[x + y * width]
  }

  /** getXY: a read outside the image takes the nearest edge pixel instead. */
  function GetXY(im: Image, x: int, y: int, width: int, height: int): (v: int)
    requires width >= 1 && height >= 1 && |im| == width * height
    ensures 0 <= x < width && 0 <= y < height ==> v == Pixel(im, x, y, width, height)
    ensures v == Pixel(im, Clamp(x, 0, width - 1), Clamp(y, 0, height - 1), width, height)
  {
    var cx := if x >= width then width - 1 else if x < 0 then 0 else x;
    var cy := if y >= height then height - 1 else if y < 0 then 0 else y;
    Pixel(im, cx, cy, width, height)
  }

  /** Cell k of an 8 x 8 block, row by row: column k mod 8 of row k / 8. */
  function Col(k: int): (c: int)
    requires 0 <= k < 64
    ensures 0 <= c < 8
  {
    k % 8
  }

  function Row(k: int): (r: int)
    requires 0 <= k < 64
    ensures 0 <= r < 8
  {
    k / 8
  }

  /** (x, y) is a pixel of a width x height image. */
  predicate InImage(x: int, y: int, width: int, height: int)
  {
    0 <= x < width && 0 <= y < height
  }

  /** Every read of the 8 x 8 block at (x2, y2) lands inside the image. */
  predicate BlockInside(x2: int, y2: int, width: int, height: int)
  {
    forall k :: 0 <= k < 64 ==> InImage(x2 + Col(k), y2 + Row(k), width, height)
  }

  /** The early return of compareRect as written: `x2+8 >= width` also rejects a block whose
      last column is the image's last column. */
  predicate RejectAsWritten(x2: int, y2: int, width: int, height: int)
  {
    x2 < 0 || x2 + 8 >= width || y2 < 0 || y2 + 8 >= height
  }

  /** The early return that rejects exactly the blocks reaching past the image. */
  predicate Reject(x2: int, y2: int, width: int, height: int)
  {
    x2 < 0 || x2 + 8 > width || y2 < 0 || y2 + 8 > height
  }

  /** The corrected guard rejects a candidate block exactly when some read would fall outside. */
  lemma RejectIffOutside(x2: int, y2: int, width: int, height: int)
    ensures Reject(x2, y2, width, height) <==> !BlockInside(x2, y2, width, height)
  {
    if x2 < 0 {
      assert !InImage(x2 + Col(0), y2 + Row(0), width, height);
    } else if x2 + 8 > width {
      assert !InImage(x2 + Col(7), y2 + Row(7), width, height);
    } else if y2 < 0 {
      assert !InImage(x2 + Col(0), y2 + Row(0), width, height);
    } else if y2 + 8 > height {
      assert !InImage(x2 + Col(56), y2 + Row(56), width, height);
    }
  }

  /** The guard as written throws away a block that fits exactly: in an 8 x 8 image the only
      block, at offset (0, 0), is rejected although all its reads are inside. */
  lemma RejectAsWrittenDropsFittingBlock()
    ensures BlockInside(0, 0, 8, 8) && RejectAsWritten(0, 0, 8, 8) && !Reject(0, 0, 8, 8)
  {
  }

  /** The 64 comparisons of compareRect, row by row: cell k compares pixel (Col(k), Row(k)) of
      the block at (x1, y1) in im1 with the same pixel of the block at (x2, y2) in im2. */
  function RectScores(im1: Image, x1: int, y1: int, im2: Image, x2: int, y2: int,
                      width: int, height: int, compare: Compare): (s: seq<real>)
    requires width >= 1 && height >= 1 && |im1| == width * height && |im2| == width * height
    ensures |s| == 64
  {
    seq(64, k requires 0 <= k < 64 =>
      compare(GetXY(im1, x1 + Col(k), y1 + Row(k), width, height), GetXY(im2, x2 + Col(k), y2 + Row(k), width, height)))
  }

  /** compareRect as written: MaxFloat64 for a rejected block, else a quarter of the summed
      comparisons. */
  function CompareRectAsWritten(im1: Image, x1: int, y1: int, im2: Image, x2: int, y2: int,
                                width: int, height: int, compare: Compare): (r: real)
    requires |im1| == width * height && |im2| == width * height
    ensures RejectAsWritten(x2, y2, width, height) ==> r == MaxFloat64
  {
    if RejectAsWritten(x2, y2, width, height) then MaxFloat64
    else Sum(RectScores(im1, x1, y1, im2, x2, y2, width, height, compare)) / 4.0
  }

  /** An image just one block in size gets no score at all from the guard as written, while
      the corrected guard compares its 64 pixels. */
  lemma CompareRectAsWrittenRejectsWholeImage(im1: Image, im2: Image, compare: Compare)
    requires |im1| == 64 && |im2| == 64
    ensures CompareRectAsWritten(im1, 0, 0, im2, 0, 0, 8, 8, compare) == MaxFloat64
    ensures CompareRect(im1, 0, 0, im2, 0, 0, 8, 8, compare) ==
            Sum(RectScores(im1, 0, 0, im2, 0, 0, 8, 8, compare)) / 4.0
  {
    RejectAsWrittenDropsFittingBlock();
  }

  /** compareRect with the corrected guard: a block of im2 that leaves the image scores
      MaxFloat64; otherwise the score is a quarter of the summed comparisons, and each read of
      im2 is a genuine pixel, never a clamped one. */
  function CompareRect(im1: Image, x1: int, y1: int, im2: Image, x2: int, y2: int,
                       width: int, height: int, compare: Compare): (r: real)
    requires |im1| == width * height && |im2| == width * height
    ensures !BlockInside(x2, y2, width, height) ==> r == MaxFloat64
    ensures BlockInside(x2, y2, width, height) ==>
              && width >= 8 && height >= 8
              && r == Sum(RectScores(im1, x1, y1, im2, x2, y2, width, height, compare)) / 4.0
  {
    RejectIffOutside(x2, y2, width, height);
    if Reject(x2, y2, width, height) then MaxFloat64
    else Sum(RectScores(im1, x1, y1, im2, x2, y2, width, height, compare)) / 4.0
  }

  /** Inside an accepted block every comparison reads im2 unclamped. */
  lemma RectScoresInside(im1: Image, x1: int, y1: int, im2: Image, x2: int, y2: int,
                         width: int, height: int, compare: Compare, k: int)
    requires |im1| == width * height && |im2| == width * height
    requires BlockInside(x2, y2, width, height) && 0 <= k < 64
    ensures width >= 1 && height >= 1
    ensures InImage(x2 + Col(k), y2 + Row(k), width, height)
    ensures RectScores(im1, x1, y1, im2, x2, y2, width, height, compare)[k] ==
            compare(GetXY(im1, x1 + Col(k), y1 + Row(k), width, height),
                    Pixel(im2, x2 + Col(k), y2 + Row(k), width, height))
  {
    assert InImage(x2 + Col(0), y2 + Row(0), width, height);
  }

  /** What the search reports for one block. */
  datatype BlockData = BlockData(x: int, y: int, err: real)

  /** The scores of every candidate offset for block (c, r): the block of `second` at
      (8c, 8r) against the block of `first` displaced by the offset, scored by compareRect as
      written (`asWritten`) or with the corrected guard. */
  function BlockScores(first: Image, second: Image, width: int, height: int, c: int, r: int,
                       compare: Compare, asWritten: bool): (s: seq<real>)
    requires |first| == width * height && |second| == width * height
    ensures |s| == |Offsets|
  {
    seq(|Offsets|, i requires 0 <= i < |Offsets| =>
      Score(first, second, width, height, c * 8 + Offsets[i].x, r * 8 + Offsets[i].y, c, r, compare, asWritten))
  }

  /** Entry i of the scores is the candidate at table offset i. */
  lemma BlockScoresAt(first: Image, second: Image, width: int, height: int, c: int, r: int,
                      compare: Compare, asWritten: bool, i: int)
    requires |first| == width * height && |second| == width * height && 0 <= i < |Offsets|
    ensures BlockScores(first, second, width, height, c, r, compare, asWritten)[i] ==
            Score(first, second, width, height, c * 8 + Offsets[i].x, r * 8 + Offsets[i].y, c, r, compare, asWritten)
  {
  }

  /** compareRect for one candidate: the block of `second` at (8c, 8r) against the block of
      `first` at (x2, y2). */
  function Score(first: Image, second: Image, width: int, height: int, x2: int, y2: int, c: int, r: int,
                 compare: Compare, asWritten: bool): (v: real)
    requires |first| == width * height && |second| == width * height
    ensures asWritten && RejectAsWritten(x2, y2, width, height) ==> v == MaxFloat64
    ensures !asWritten && !BlockInside(x2, y2, width, height) ==> v == MaxFloat64
  {
    if asWritten then CompareRectAsWritten(second, c * 8, r * 8, first, x2, y2, width, height, compare)
    else CompareRect(second, c * 8, r * 8, first, x2, y2, width, height, compare)
  }

  /** The scan over the candidates: the first offset with the strictly smallest score below
      MaxFloat64, or (0, 0) with MaxFloat64 when every candidate was rejected. */
  function BestOffset(scores: seq<real>): (b: BlockData)
    requires |scores| == |Offsets|
    ensures b.err <= MaxFloat64
    ensures forall i :: 0 <= i < |scores| ==> b.err <= scores[i]
    ensures (forall i :: 0 <= i < |scores| ==> scores[i] >= MaxFloat64) ==> b == BlockData(0, 0, MaxFloat64)
    ensures b.err < MaxFloat64 ==>
              exists i :: 0 <= i < |scores| && scores[i] == b.err && Offsets[i] == Offset(b.x, b.y)
                          && forall j :: 0 <= j < i ==> b.err < scores[j]
    ensures b.err < MaxFloat64 ==>
              && 0 <= FirstMin(scores, Pick(0, MaxFloat64)).index < |scores|
              && scores[FirstMin(scores, Pick(0, MaxFloat64)).index] == b.err
              && Offsets[FirstMin(scores, Pick(0, MaxFloat64)).index] == Offset(b.x, b.y)
  {
    var p := FirstMin(scores, Pick(0, MaxFloat64));
    var o := if Beaten(scores, Pick(0, MaxFloat64)) then Offsets[p.index] else Offset(0, 0);
    BlockData(o.x, o.y, p.score)
  }

  /** Of two equally good candidates the search keeps the nearer one: any offset strictly
      closer than the chosen one scored strictly worse. */
  lemma BestOffsetPrefersNearest(scores: seq<real>, j: int)
    requires |scores| == |Offsets| && 0 <= j < |Offsets|
    requires BestOffset(scores).err < MaxFloat64
    requires Ring(Offsets[j]) < Ring(Offset(BestOffset(scores).x, BestOffset(scores).y))
    ensures scores[j] > BestOffset(scores).err
  {
    var b := BestOffset(scores);
    var i :| 0 <= i < |scores| && scores[i] == b.err && Offsets[i] == Offset(b.x, b.y)
             && forall j :: 0 <= j < i ==> b.err < scores[j];
    OffsetsRing0At(0);
    if i <= j {
      OffsetsNearestFirst(i, j);
    }
  }

  /** The number of 8 x 8 blocks across and down a frame, the last ones possibly partial. */
  function BlockCols(width: nat): nat { CeilDiv(width, 8) }

  function BlockRows(height: nat): nat { CeilDiv(height, 8) }

  /** getMotion: one BlockData per block, rows top to bottom and blocks left to right in each;
      `asWritten` selects compareRect's guard as written, `false` the corrected one. */
  function GetMotion(first: Image, second: Image, width: nat, height: nat, compare: Compare, asWritten: bool): (v: seq<BlockData>)
    requires |first| == width * height && |second| == width * height
    ensures |v| == BlockCols(width) * BlockRows(height)
    ensures forall k :: 0 <= k < |v| ==> v[k].err <= MaxFloat64
  {
    var cols := BlockCols(width);
    seq(cols * BlockRows(height), k requires 0 <= k < cols * BlockRows(height) =>
      BestOffset(BlockScores(first, second, width, height, k % cols, k / cols, compare, asWritten)))
  }

  /** Entry c + r * cols of the result is the best offset for the block in column c of row r,
      and the blocks cover the frame: 8 * cols >= width and 8 * rows >= height. */
  lemma GetMotionAt(first: Image, second: Image, width: nat, height: nat, compare: Compare, asWritten: bool, c: nat, r: nat)
    requires |first| == width * height && |second| == width * height
    requires c < BlockCols(width) && r < BlockRows(height)
    ensures 8 * BlockCols(width) >= width && 8 * BlockRows(height) >= height
    ensures 0 <= c + r * BlockCols(width) < |GetMotion(first, second, width, height, compare, asWritten)|
    ensures GetMotion(first, second, width, height, compare, asWritten)[c + r * BlockCols(width)] ==
            BestOffset(BlockScores(first, second, width, height, c, r, compare, asWritten))
  {
    RowMajorBounds(c, r, BlockCols(width), BlockRows(height));
    DivModOfRowMajor(c, r, BlockCols(width));
  }

  /** A vector the search keeps with a real score points at a block the guard accepted: with
      the guard as written the block ends strictly before the right and bottom edges, with the
      corrected guard it lies inside the image. */
  lemma KeptVectorAccepted(first: Image, second: Image, width: nat, height: nat, compare: Compare, asWritten: bool,
                           c: nat, r: nat)
    requires |first| == width * height && |second| == width * height
    requires BestOffset(BlockScores(first, second, width, height, c, r, compare, asWritten)).err < MaxFloat64
    ensures var b := BestOffset(BlockScores(first, second, width, height, c, r, compare, asWritten));
            && (asWritten ==> !RejectAsWritten(c * 8 + b.x, r * 8 + b.y, width, height))
            && (!asWritten ==> BlockInside(c * 8 + b.x, r * 8 + b.y, width, height))
  {
    var s := BlockScores(first, second, width, height, c, r, compare, asWritten);
    var b := BestOffset(s);
    BlockScoresAt(first, second, width, height, c, r, compare, asWritten, FirstMin(s, Pick(0, MaxFloat64)).index);
  }

  /** On an 8 x 8 frame getMotion as written finds no vector at all: its one block reports
      (0, 0) with MaxFloat64, because every candidate, the undisplaced one included, is
      rejected. With the corrected guard the undisplaced candidate is scored and the kept
      error is at most its score. */
  lemma GetMotionWholeImage(first: Image, second: Image, compare: Compare)
    requires |first| == 64 && |second| == 64
    ensures GetMotion(first, second, 8, 8, compare, true) == [BlockData(0, 0, MaxFloat64)]
    ensures |GetMotion(first, second, 8, 8, compare, false)| == 1
    ensures GetMotion(first, second, 8, 8, compare, false)[0].err <=
            Sum(RectScores(second, 0, 0, first, 0, 0, 8, 8, compare)) / 4.0
  {
    GetMotionAt(first, second, 8, 8, compare, true, 0, 0);
    GetMotionAt(first, second, 8, 8, compare, false, 0, 0);
    var s := BlockScores(first, second, 8, 8, 0, 0, compare, true);
    forall i | 0 <= i < |s|
      ensures s[i] >= MaxFloat64
    {
      BlockScoresAt(first, second, 8, 8, 0, 0, compare, true, i);
      assert RejectAsWritten(Offsets[i].x, Offsets[i].y, 8, 8);
    }
    OffsetsRing0At(0);
    var t := BlockScores(first, second, 8, 8, 0, 0, compare, false);
    assert t[0] == CompareRect(second, 0, 0, first, 0, 0, 8, 8, compare);
    CompareRectAsWrittenRejectsWholeImage(second, first, compare);
  }
}
