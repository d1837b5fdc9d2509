/** The player's side of the Hilbert curve (player/src/decoding.c): hindex2xy, the windowed
    get_hilbert_curve over the smallest enclosing power-of-two square, and the block grid of
    dec_new. C `int` arithmetic is modelled without overflow. */
module HilbertC {

  import opened Numeric
  import opened Results
  import opened Hilbert

  /** The C hindex2xy, statement by statement; it computes the Go function. */
  method HIndexToXYC(hindex: int, n: int) returns (p: Point)
    ensures p == HIndexToXY(hindex, n)
  {
    p := InitPoints[hindex % 4];
    var h := hindex / 4;
    var i := 4;
    while i <= n
      invariant i >= 4
      invariant Levels(p, h, i, n) == HIndexToXY(hindex, n)
      decreases n - i
    {
      var i2 := i / 2;
      var d := h % 4;
      if d == 0 {
        p := Point(p.y, p.x);
      } else if d == 1 {
        p := p.(y := p.y + i2);
      } else if d == 2 {
        p := Point(p.x + i2, p.y + i2);
      } else {
        p := Point(i2 - 1 - p.y + i2, i2 - 1 - p.x);
      }
      h := h / 4;
      i := i * 2;
    }
  }

  /** ⌈log2 m⌉: the exponent of the smallest power of two that is at least m (0 for m <= 1). */
  function Log2Ceil(m: int): (k: nat)
    ensures Pow2(k) >= m
    ensures k == 0 || Pow2(k - 1) < m
    decreases m
  {
    if m <= 1 then 0 else Log2Ceil((m + 1) / 2) + 1
  }

  /** The side loop of get_hilbert_curve: `n = 1; while (n < size) n *= 2;`. */
  method SquareSide(size: int) returns (n: int)
    ensures n == Pow2(Log2Ceil(size))
  {
    n := 1;
    ghost var j: nat := 0;
    while n < size
      invariant n == Pow2(j)
      invariant j == 0 || Pow2(j - 1) < size
      decreases size - n
    {
      n := n * 2;
      j := j + 1;
    }
    Log2CeilUnique(size, j);
  }

  /** The conditions of Log2Ceil single out one exponent. */
  lemma {:induction false} Log2CeilUnique(m: int, j: nat)
    requires Pow2(j) >= m && (j == 0 || Pow2(j - 1) < m)
    ensures j == Log2Ceil(m)
  {
    var k := Log2Ceil(m);
    if j < k {
      Pow2Monotone(j, k - 1);
    } else if k < j {
      Pow2Monotone(k, j - 1);
    }
  }

  /** The square the curve is laid out on and the centred window of the w x h block grid. */
  datatype Window = Window(side: nat, offx: int, offy: int, width: int, height: int)

  predicate Contains(win: Window, p: Point)
  {
    win.offx <= p.x < win.offx + win.width && win.offy <= p.y < win.offy + win.height
  }

  /** Row-major index into the grid of a square point, relative to the window. */
  function CellIndex(win: Window, p: Point): int
  {
    p.x - win.offx + (p.y - win.offy) * win.width
  }

  /** The side is the smallest power of two not below max(width, height), and the offsets
      (side - width)/2 and (side - height)/2 keep the window inside the square. */
  function CurveWindow(width: nat, height: nat): (win: Window)
    ensures win.width == width && win.height == height
    ensures win.side == Pow2(Log2Ceil(Max(width, height)))
    ensures win.side >= width && win.side >= height
    ensures win.side == 1 || win.side / 2 < Max(width, height)
    ensures 0 <= win.offx && win.offx + width <= win.side
    ensures 0 <= win.offy && win.offy + height <= win.side
  {
    var k := Log2Ceil(Max(width, height));
    var side := Pow2(k);
    assert k > 0 ==> side / 2 == Pow2(k - 1);
    Window(side, (side - width) / 2, (side - height) / 2, width, height)
  }

  /** The inner `while (1)` of get_hilbert_curve: walk the curve from index `ind` until a point
      inside the window, or until the index reaches side^2. Returns the point and the index
      after it. */
  function Search(win: Window, ind: int): (r: (Point, int))
    ensures r.1 > ind
    ensures r.0 == HIndexToXY(r.1 - 1, win.side)
    ensures Contains(win, r.0) || r.1 >= win.side * win.side
    ensures forall h :: ind <= h < r.1 - 1 ==> !Contains(win, HIndexToXY(h, win.side))
    decreases win.side * win.side - ind
  {
    var p := HIndexToXY(ind, win.side);
    if Contains(win, p) || ind + 1 >= win.side * win.side then (p, ind + 1)
    else Search(win, ind + 1)
  }

  /** A search that stops on a window point yields a write index inside the w x h grid. */
  lemma {:induction false} SearchHitInRange(win: Window, p: Point)
    requires Contains(win, p)
    ensures 0 <= CellIndex(win, p) < win.width * win.height
  {
    RowMajorBounds(p.x - win.offx, p.y - win.offy, win.width, win.height);
  }

  /** The write loop of get_hilbert_curve from block i on: `curve[cell] = i` for the point each
      search stops at. A write outside the calloc'ed w*h ints is undefined behaviour in C and
      ends the model with `Err(i)`. */
  function Fill(win: Window, i: nat, ind: int, curve: seq<int>): (r: Result<seq<int>, nat>)
    requires |curve| == win.width * win.height
    ensures r.Ok? ==> |r.value| == |curve|
    ensures r.Err? ==> i <= r.error < |curve|
    decreases |curve| - i
  {
    if i >= |curve| then Ok(curve)
    else
      var (p, next) := Search(win, ind);
      var cell := CellIndex(win, p);
      if 0 <= cell < |curve| then Fill(win, i + 1, next, curve[cell := i])
      else Err(i)
  }

  /** get_hilbert_curve(width, height): the block index of each cell of the grid, in curve order. */
  function GetHilbertCurveC(width: nat, height: nat): (r: Result<seq<int>, nat>)
    ensures r.Ok? ==> |r.value| == width * height
  {
    var win := CurveWindow(width, height);
    Fill(win, 0, 0, seq(width * height, _ => 0))
  }

  /** On a power-of-two square the window is the whole square. */
  lemma SquareWindow(k: nat, n: nat)
    requires n == Pow2(k)
    ensures CurveWindow(n, n) == Window(n, 0, 0, n, n)
  {
    assert Max(n, n) == n;
    if k > 0 {
      assert Pow2(k - 1) < n;
    }
    Log2CeilUnique(n, k);
  }

  /** Every curve point of an index below n^2 lies in the n x n square. */
  lemma PointInSquare(k: nat, n: nat, h: int)
    requires n == Pow2(k) && 0 <= h < n * n
    ensures InSquare(HIndexToXY(h, n), n)
  {
    if k == 0 {
      HIndexToXYSmall(h, n);
    } else {
      HIndexToXYBounds(h, n);
    }
  }

  /** When the window is the whole square every search stops at once, on the next curve point. */
  lemma SearchSquare(k: nat, n: nat, ind: int)
    requires n == Pow2(k) && 0 <= ind < n * n
    ensures Search(Window(n, 0, 0, n, n), ind) == (HIndexToXY(ind, n), ind + 1)
  {
    PointInSquare(k, n, ind);
  }

  /** The write loop on the whole square: when blocks 0 .. i - 1 already sit at the cells the
      encoder's curve gives them, the loop finishes and every block j sits at cell go[j]. */
  lemma {:induction false} FillSquare(k: nat, n: nat, i: nat, curve: seq<int>, go: seq<int>)
    requires n == Pow2(k) && |curve| == n * n && go == GetHilbertCurve(n, n) && i <= |curve|
    requires |go| == |curve|
    requires forall j, j' :: 0 <= j < j' < |go| ==> go[j] != go[j']
    requires forall j :: 0 <= j < |go| ==> 0 <= go[j] < |go|
    requires forall j :: 0 <= j < i ==> curve[go[j]] == j
    ensures var r := Fill(Window(n, 0, 0, n, n), i, i, curve);
            r.Ok? && |r.value| == |curve| && forall j :: 0 <= j < |curve| ==> r.value[go[j]] == j
    decreases |curve| - i
  {
    var win := Window(n, 0, 0, n, n);
    var r := Fill(win, i, i, curve);
    if i < |curve| {
      SearchSquare(k, n, i);
      var p := HIndexToXY(i, n);
      assert CellIndex(win, p) == go[i];
      var next := curve[go[i] := i];
      forall j | 0 <= j < i + 1 ensures next[go[j]] == j {
        if j < i {
          assert go[j] != go[i];
        }
      }
      FillSquare(k, n, i + 1, next, go);
      assert r == Fill(win, i + 1, i + 1, next);
    } else {
      assert r == Ok(curve);
    }
  }

  /** On a square grid whose side is a power of two, the player's curve is the inverse of the
      encoder's: the block the encoder sends i-th is the block the player puts back at position
      i of the stream, so the two ends agree on the block order. */
  lemma HilbertCurvesAgree(k: nat, n: nat)
    requires n == Pow2(k)
    ensures var go := GetHilbertCurve(n, n);
            var c := GetHilbertCurveC(n, n);
            && c.Ok? && |c.value| == n * n
            && forall i :: 0 <= i < n * n ==> 0 <= go[i] < n * n && c.value[go[i]] == i
  {
    var go := GetHilbertCurve(n, n);
    GetHilbertCurvePermutation(k, n);
    forall j | 0 <= j < |go| ensures 0 <= go[j] < |go| {
      assert go[j] in go;
    }
    SquareWindow(k, n);
    FillSquare(k, n, 0, seq(n * n, _ => 0), go);
    assert |go| == n * n;
  }

  /** dec_new's block grid and curve. */
  datatype Decoder = Decoder(blocksWidth: nat, blocksHeight: nat, blocks: seq<seq<int>>, curve: Result<seq<int>, nat>)

  /** dec_new(frame_width, frame_height): ceil(w / 4.0) x ceil(h / 4.0) zeroed blocks and the
      curve over that grid. */
  function DecNew(frameWidth: nat, frameHeight: nat): (d: Decoder)
    ensures d.blocksWidth == (frameWidth + 3) / 4 && d.blocksHeight == (frameHeight + 3) / 4
    ensures 4 * d.blocksWidth >= frameWidth && 4 * (d.blocksWidth - 1) < frameWidth + (if frameWidth == 0 then 4 else 0)
    ensures |d.blocks| == d.blocksWidth * d.blocksHeight
    ensures forall b :: b in d.blocks ==> b == seq(16, _ => 0)
  {
    var bw := CeilDiv(frameWidth, 4);
    var bh := CeilDiv(frameHeight, 4);
    Decoder(bw, bh, seq(bw * bh, _ => seq(16, _ => 0)), GetHilbertCurveC(bw, bh))
  }
}
