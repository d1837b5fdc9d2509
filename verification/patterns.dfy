/** Threshold patterns of the ditherer (encoder/patterns.go): the pattern record, its
    constructor, tiling a pattern over a larger grid, and the two Bayer matrices. */
module Patterns {

  import opened Numeric

  /** A width x height grid of thresholds, row-major, with values meant to lie in [0, order). */
  datatype Pattern = Pattern(width: int, height: int, order: int, data: seq<int>)

  /** A pattern whose data fills its positive dimensions. */
  predicate WellFormed(p: Pattern)
  {
    p.width > 0 && p.height > 0 && |p.data| == p.width * p.height
  }

  /** Every threshold lies in [0, order). */
  predicate InOrder(p: Pattern)
  {
    forall i :: 0 <= i < |p.data| ==> 0 <= p.data[i] < p.order
  }

  /** NewPattern: a negative order stands for width * height; the data are width * height
      zeros. The sizes are natural numbers: the only caller, Reshape, receives the frame's
      width and height from the ditherer, and those are never negative. */
  function NewPattern(width: nat, height: nat, order: int): (p: Pattern)
    ensures p.width == width && p.height == height
    ensures order >= 0 ==> p.order == order
    ensures order < 0 ==> p.order == width * height
    ensures |p.data| == width * height
    ensures forall i :: 0 <= i < |p.data| ==> p.data[i] == 0
  {
    Pattern(width, height, if order < 0 then width * height else order, seq(width * height, _ => 0))
  }

  /** The threshold the tiled pattern has at (x, y). */
  function TileAt(p: Pattern, x: nat, y: nat): (v: int)
    requires WellFormed(p)
    ensures v in p.data
  {
    RowMajorBounds(x % p.width, y % p.height, p.width, p.height);
    p.data[x % p.width + (y % p.height) * p.width]
  }

  /** The row-major cells of a width x height grid, each holding the tiled threshold. */
  function Tiled(p: Pattern, width: nat, height: nat): (d: seq<int>)
    requires width > 0 && height > 0 ==> WellFormed(p)
    ensures |d| == width * height
    ensures forall i :: 0 <= i < |d| ==> d[i] == TileAt(p, i % width, i / width)
  {
    seq(width * height, i requires 0 <= i < width * height =>
      RowMajorSplit(i, width, height); TileAt(p, i % width, i / width))
  }

  /** Reshape(width, height): a pattern of the requested size that repeats this one in both
      directions. The order is passed through NewPattern, so a negative order becomes the new
      cell count. With an empty target the loops do not run and the source is never read. */
  function Reshape(p: Pattern, width: nat, height: nat): (r: Pattern)
    requires width > 0 && height > 0 ==> WellFormed(p)
    ensures r.width == width && r.height == height && |r.data| == width * height
    ensures p.order >= 0 ==> r.order == p.order
    ensures p.order < 0 ==> r.order == width * height
    ensures forall i :: 0 <= i < |r.data| ==> r.data[i] == TileAt(p, i % width, i / width)
  {
    Pattern(width, height, NewPattern(width, height, p.order).order, Tiled(p, width, height))
  }

  /** Cell (x, y) of the reshaped pattern is cell (x mod W, y mod H) of the source. */
  lemma ReshapeAt(p: Pattern, width: nat, height: nat, x: nat, y: nat)
    requires WellFormed(p) && x < width && y < height
    ensures 0 <= x + y * width < width * height
    ensures Reshape(p, width, height).data[x + y * width] == TileAt(p, x, y)
  {
    RowMajorBounds(x, y, width, height);
    DivModOfRowMajor(x, y, width);
  }

  /** Tiling never invents a threshold: a pattern within its order reshapes into one. */
  lemma ReshapeInOrder(p: Pattern, width: nat, height: nat)
    requires WellFormed(p) && InOrder(p)
    ensures InOrder(Reshape(p, width, height))
  {
    var r := Reshape(p, width, height);
    forall i | 0 <= i < |r.data| ensures 0 <= r.data[i] < r.order {
      assert r.data[i] in p.data;
    }
  }

  /** Reshaping a well-formed pattern to its own size gives it back. */
  lemma ReshapeIdentity(p: Pattern)
    requires WellFormed(p) && p.order >= 0
    ensures Reshape(p, p.width, p.height) == p
  {
    var r := Reshape(p, p.width, p.height);
    forall i | 0 <= i < |p.data| ensures r.data[i] == p.data[i] {
      TileAtHome(p, i);
    }
  }

  /** Inside the pattern's own grid the tiling reads the cell itself. */
  lemma TileAtHome(p: Pattern, i: nat)
    requires WellFormed(p) && i < |p.data|
    ensures TileAt(p, i % p.width, i / p.width) == p.data[i]
  {
    RowMajorSplit(i, p.width, p.height);
    var x, y := i % p.width, i / p.width;
    DivModUnique(x, p.width, 0, x);
    DivModUnique(y, p.height, 0, y);
  }

  /** The 8 x 8 Bayer matrix of order 64. */
  const BayerMatrixBig: Pattern := Pattern(8, 8, 64, BayerBigData)

  const BayerBigData: seq<int> :=
      [0, 32, 8, 40, 2, 34, 10, 42] +
      [48, 16, 56, 24, 50, 18, 58, 26] +
      [12, 44, 4, 36, 14, 46, 6, 38] +
      [60, 28, 52, 20, 62, 30, 54, 22] +
      [3, 35, 11, 43, 1, 33, 9, 41] +
      [51, 19, 59, 27, 49, 17, 57, 25] +
      [15, 47, 7, 39, 13, 45, 5, 37] +
      [63, 31, 55, 23, 61, 29, 53, 21]

  /** The 4 x 4 Bayer matrix of order 16. */
  const BayerMatrixSmall: Pattern := Pattern(4, 4, 16, BayerSmallData)

  const BayerSmallData: seq<int> :=
      [0, 8, 2, 10] +
      [12, 4, 14, 6] +
      [3, 11, 1, 9] +
      [15, 7, 13, 5]

  /** d holds each of 0 .. n-1 exactly once. */
  predicate IsPermutation(d: seq<int>, n: nat)
  {
    && |d| == n
    && (forall i :: 0 <= i < n ==> 0 <= d[i] < n)
    && (forall i, j :: 0 <= i < j < n ==> d[i] != d[j])
    && (forall v :: 0 <= v < n ==> v in d)
  }

  /** A sequence with a two-sided inverse on 0 .. n-1 is a permutation of it. */
  lemma PermutationByInverse(d: seq<int>, inv: seq<int>, n: nat)
    requires |d| == n && |inv| == n
    requires forall i :: 0 <= i < n ==> 0 <= d[i] < n && inv[d[i]] == i
    requires forall v :: 0 <= v < n ==> 0 <= inv[v] < n && d[inv[v]] == v
    ensures IsPermutation(d, n)
  {
    forall i, j | 0 <= i < j < n ensures d[i] != d[j] {
      assert inv[d[i]] == i && inv[d[j]] == j;
    }
    forall v | 0 <= v < n ensures v in d {
      assert d[inv[v]] == v;
    }
  }

  /** Where each threshold sits in the big matrix. */
  const BayerBigPositions: seq<int> :=
      [0, 36, 4, 32, 18, 54, 22, 50] +
      [2, 38, 6, 34, 16, 52, 20, 48] +
      [9, 45, 13, 41, 27, 63, 31, 59] +
      [11, 47, 15, 43, 25, 61, 29, 57] +
      [1, 37, 5, 33, 19, 55, 23, 51] +
      [3, 39, 7, 35, 17, 53, 21, 49] +
      [8, 44, 12, 40, 26, 62, 30, 58] +
      [10, 46, 14, 42, 24, 60, 28, 56]

  /** The position table and the big matrix undo each other, entries 0 .. 31 ... */
  lemma BayerBigUndoTop()
    ensures forall x :: 0 <= x < 32 ==>
      && 0 <= BayerBigData[x] < 64 && BayerBigPositions[BayerBigData[x]] == x
      && 0 <= BayerBigPositions[x] < 64 && BayerBigData[BayerBigPositions[x]] == x
  {
    forall x | 0 <= x < 32
      ensures 0 <= BayerBigData[x] < 64 && BayerBigPositions[BayerBigData[x]] == x
      ensures 0 <= BayerBigPositions[x] < 64 && BayerBigData[BayerBigPositions[x]] == x
    {
      assert x == 0 || x == 1 || x == 2 || x == 3 || x == 4 || x == 5 || x == 6 || x == 7 ||
        x == 8 || x == 9 || x == 10 || x == 11 || x == 12 || x == 13 || x == 14 || x == 15 ||
        x == 16 || x == 17 || x == 18 || x == 19 || x == 20 || x == 21 || x == 22 || x == 23 ||
        x == 24 || x == 25 || x == 26 || x == 27 || x == 28 || x == 29 || x == 30 || x == 31;
    }
  }

  /** ... and entries 32 .. 63. */
  lemma BayerBigUndoBottom()
    ensures forall x :: 32 <= x < 64 ==>
      && 0 <= BayerBigData[x] < 64 && BayerBigPositions[BayerBigData[x]] == x
      && 0 <= BayerBigPositions[x] < 64 && BayerBigData[BayerBigPositions[x]] == x
  {
    forall x | 32 <= x < 64
      ensures 0 <= BayerBigData[x] < 64 && BayerBigPositions[BayerBigData[x]] == x
      ensures 0 <= BayerBigPositions[x] < 64 && BayerBigData[BayerBigPositions[x]] == x
    {
      assert x == 32 || x == 33 || x == 34 || x == 35 || x == 36 || x == 37 || x == 38 || x == 39 ||
        x == 40 || x == 41 || x == 42 || x == 43 || x == 44 || x == 45 || x == 46 || x == 47 ||
        x == 48 || x == 49 || x == 50 || x == 51 || x == 52 || x == 53 || x == 54 || x == 55 ||
        x == 56 || x == 57 || x == 58 || x == 59 || x == 60 || x == 61 || x == 62 || x == 63;
    }
  }

  /** Each threshold 0 .. 63 appears exactly once in the big matrix, which is well-formed. */
  lemma BayerBigIsPermutation()
    ensures WellFormed(BayerMatrixBig) && InOrder(BayerMatrixBig)
    ensures IsPermutation(BayerBigData, 64)
  {
    BayerBigUndoTop();
    BayerBigUndoBottom();
    PermutationByInverse(BayerBigData, BayerBigPositions, 64);
  }

  /** Each threshold 0 .. 15 appears exactly once in the small matrix, which is well-formed. */
  lemma BayerSmallIsPermutation()
    ensures WellFormed(BayerMatrixSmall) && InOrder(BayerMatrixSmall)
    ensures IsPermutation(BayerSmallData, 16)
  {
    var positions := [0, 10, 2, 8, 5, 15, 7, 13, 1, 11, 3, 9, 4, 14, 6, 12];
    forall i | 0 <= i < 16
      ensures 0 <= BayerSmallData[i] < 16 && positions[BayerSmallData[i]] == i
      ensures 0 <= positions[i] < 16 && BayerSmallData[positions[i]] == i
    {
      assert i == 0 || i == 1 || i == 2 || i == 3 || i == 4 || i == 5 || i == 6 || i == 7 ||
        i == 8 || i == 9 || i == 10 || i == 11 || i == 12 || i == 13 || i == 14 || i == 15;
    }
    PermutationByInverse(BayerSmallData, positions, 16);
  }
}
