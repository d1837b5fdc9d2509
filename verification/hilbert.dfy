/** The Hilbert curve that orders the blocks of a frame (encoder/hilbert.go and its C twin in
    player/src/decoding.c).

    `HIndexToXY` is the loop of hindex2xy as written: the low two bits of the index pick one of
    the four `InitPoints`, and each further pair of bits places the curve built so far into one
    quadrant of a square twice as large. `Run` is the same loop indexed by level; every
    property is proved about `Run` and carried over by `HIndexToXYIsRun`. */
module Hilbert {

  import opened Numeric

  datatype Point = Point(x: int, y: int)

  const Origin := Point(0, 0)

  const InitPoints: seq<Point> := [Point(0, 0), Point(0, 1), Point(1, 1), Point(1, 0)]

  function Pow2(k: nat): (r: nat)
    ensures r >= 1
  {
    if k == 0 then 1 else 2 * Pow2(k - 1)
  }

  /** 4^e, and 1 for a non-positive exponent. */
  function Pow4(e: int): (r: nat)
    ensures r >= 1
  {
    if e <= 0 then 1 else 4 * Pow4(e - 1)
  }

  lemma {:induction false} Pow2Square(k: nat)
    ensures Pow2(k) * Pow2(k) == Pow4(k)
  {
    if k > 0 {
      Pow2Square(k - 1);
      calc {
        Pow2(k) * Pow2(k);
        (2 * Pow2(k - 1)) * (2 * Pow2(k - 1));
        4 * (Pow2(k - 1) * Pow2(k - 1));
      }
    }
  }

  lemma {:induction false} Pow2Monotone(a: nat, b: nat)
    requires a <= b
    ensures Pow2(a) <= Pow2(b)
    decreases b - a
  {
    if a < b {
      Pow2Monotone(a + 1, b);
    }
  }

  /** ⌊log2 n⌋ for n >= 1. */
  function Log2Floor(n: nat): (r: nat)
    requires n >= 1
    ensures Pow2(r) <= n < Pow2(r + 1)
  {
    if n < 2 then 0 else Log2Floor(n / 2) + 1
  }

  lemma {:induction false} Log2FloorOfPow2(k: nat)
    ensures Log2Floor(Pow2(k)) == k
  {
    if k > 0 {
      assert Pow2(k) / 2 == Pow2(k - 1);
      Log2FloorOfPow2(k - 1);
    }
  }

  predicate InSquare(p: Point, n: int)
  {
    0 <= p.x < n && 0 <= p.y < n
  }

  /** The two points are neighbours on the grid: one step along one axis. */
  predicate Adjacent(p: Point, q: Point)
  {
    (p.x == q.x && (p.y - q.y == 1 || q.y - p.y == 1)) ||
    (p.y == q.y && (p.x - q.x == 1 || q.x - p.x == 1))
  }

  /** One step of the loop: the switch on the next two index bits, with half == i/2. */
  function Place(d: int, p: Point, half: int): Point
  {
    if d == 0 then Point(p.y, p.x)
    else if d == 1 then Point(p.x, p.y + half)
    else if d == 2 then Point(p.x + half, p.y + half)
    else if d == 3 then Point(half - 1 - p.y + half, half - 1 - p.x)
    else p
  }

  /** The loop of hindex2xy from `i` on: `i` doubles while it stays at most n. */
  function Levels(p: Point, g: int, i: int, n: int): Point
    requires i >= 1
    decreases n - i
  {
    if i <= n then Levels(Place(g % 4, p, i / 2), g / 4, i * 2, n) else p
  }

  /** hindex2xy(hindex, n). Go's `& 0b11` and `>>= 2` on an int are Euclidean `% 4` and `/ 4`,
      negative indices included. */
  function HIndexToXY(h: int, n: int): Point
  {
    Levels(InitPoints[h % 4], h / 4, 4, n)
  }

  /** The loop by level: levels j .. k-1 place the curve into squares of side 2^(j+1) .. 2^k. */
  function Run(p: Point, g: int, j: nat, k: nat): Point
    decreases k - j
  {
    if j >= k then p else Run(Place(g % 4, p, Pow2(j)), g / 4, j + 1, k)
  }

  /** The number of levels the loop of hindex2xy ends at: the side of the square is 2^LevelCount(n). */
  function LevelCount(n: int): (k: nat)
    ensures k >= 1
    ensures n >= 2 ==> Pow2(k) <= n
    ensures Pow2(k + 1) > n
  {
    if n < 2 then 1 else Log2Floor(n)
  }

  // ---------------------------------------------------------------------------------------
  // The loop is the level recursion

  lemma {:induction false} LevelsIsRun(p: Point, g: int, j: nat, n: int)
    requires 1 <= j <= LevelCount(n)
    ensures Levels(p, g, Pow2(j + 1), n) == Run(p, g, j, LevelCount(n))
    decreases LevelCount(n) - j
  {
    var k := LevelCount(n);
    if j < k {
      Pow2Monotone(j + 1, k);
      assert Pow2(j + 1) / 2 == Pow2(j);
      LevelsIsRun(Place(g % 4, p, Pow2(j)), g / 4, j + 1, n);
    } else {
      assert Pow2(j + 1) > n;
    }
  }

  /** InitPoints[d] is the first level applied to the origin. */
  lemma {:induction false} InitPointsArePlace(d: int)
    requires 0 <= d < 4
    ensures InitPoints[d] == Place(d, Origin, 1)
  {
    if d == 0 {
    } else if d == 1 {
    } else if d == 2 {
    } else {
      assert d == 3;
    }
  }

  /** hindex2xy(h, n) runs the levels 0 .. LevelCount(n)-1 from the origin on all of h. */
  lemma {:induction false} HIndexToXYIsRun(h: int, n: int)
    ensures HIndexToXY(h, n) == Run(Origin, h, 0, LevelCount(n))
  {
    var k := LevelCount(n);
    assert Pow2(0) == 1 && Pow2(2) == 4;
    InitPointsArePlace(h % 4);
    assert Run(Origin, h, 0, k) == Run(InitPoints[h % 4], h / 4, 1, k);
    LevelsIsRun(InitPoints[h % 4], h / 4, 1, n);
  }

  /** Below n = 4 the loop does not run: the result is InitPoints[h & 3]. */
  lemma {:induction false} HIndexToXYSmall(h: int, n: int)
    requires n < 4
    ensures HIndexToXY(h, n) == InitPoints[h % 4]
    ensures HIndexToXY(h, n) in {Point(0, 0), Point(0, 1), Point(1, 1), Point(1, 0)}
  {
  }

  // ---------------------------------------------------------------------------------------
  // Properties of one level

  lemma {:induction false} PlaceBounds(d: int, p: Point, half: int)
    requires 0 <= d < 4 && InSquare(p, half)
    ensures InSquare(Place(d, p, half), 2 * half)
  {
  }

  /** The quadrant of the result names the bits, so a level is injective. */
  lemma {:induction false} PlaceInjective(d: int, p: Point, e: int, q: Point, half: int)
    requires 0 <= d < 4 && 0 <= e < 4 && InSquare(p, half) && InSquare(q, half)
    requires Place(d, p, half) == Place(e, q, half)
    ensures d == e && p == q
  {
  }

  /** Every level is an isometry of the grid. */
  lemma {:induction false} PlaceAdjacent(d: int, p: Point, q: Point, half: int)
    requires Adjacent(p, q)
    ensures Adjacent(Place(d, p, half), Place(d, q, half))
  {
  }

  /** The inverse of one level on the square of side 2*half. */
  function Unplace(q: Point, half: int): (r: (int, Point))
    requires half >= 1 && InSquare(q, 2 * half)
    ensures 0 <= r.0 < 4 && InSquare(r.1, half)
    ensures Place(r.0, r.1, half) == q
  {
    if q.x < half && q.y < half then (0, Point(q.y, q.x))
    else if q.x < half then (1, Point(q.x, q.y - half))
    else if q.y >= half then (2, Point(q.x - half, q.y - half))
    else (3, Point(half - 1 - q.y, 2 * half - 1 - q.x))
  }

  // ---------------------------------------------------------------------------------------
  // Properties of the levels together

  lemma {:induction false} RunBounds(p: Point, g: int, j: nat, k: nat)
    requires j <= k && InSquare(p, Pow2(j))
    ensures InSquare(Run(p, g, j, k), Pow2(k))
    decreases k - j
  {
    if j < k {
      PlaceBounds(g % 4, p, Pow2(j));
      RunBounds(Place(g % 4, p, Pow2(j)), g / 4, j + 1, k);
    }
  }

  /** (g mod 4M) splits into the low two bits of g and (g/4) mod M. */
  lemma {:induction false} ModOfQuad(g: int, m: int)
    requires m >= 1
    ensures (g % (4 * m)) % 4 == g % 4
    ensures (g % (4 * m)) / 4 == (g / 4) % m
  {
    var a, b := g / 4, g % 4;
    var q, r := a / m, a % m;
    assert g == q * (4 * m) + (4 * r + b);
    DivModUnique(g, 4 * m, q, 4 * r + b);
    DivModUnique(4 * r + b, 4, r, b);
  }

  /** Only the low 2(k-j) bits of g matter to levels j .. k-1. */
  lemma {:induction false} RunMod(p: Point, g: int, j: nat, k: nat)
    requires j <= k
    ensures Run(p, g, j, k) == Run(p, g % Pow4(k - j), j, k)
    decreases k - j
  {
    if j < k {
      var m := Pow4(k - j - 1);
      assert Pow4(k - j) == 4 * m;
      var g' := g % (4 * m);
      ModOfQuad(g, m);
      var p1 := Place(g % 4, p, Pow2(j));
      assert Run(p, g', j, k) == Run(p1, (g / 4) % m, j + 1, k);
      RunMod(p1, g / 4, j + 1, k);
    }
  }

  lemma {:induction false} QuadBound(g: int, m: int)
    requires m >= 1 && 0 <= g < 4 * m
    ensures 0 <= g / 4 < m
    ensures g == 4 * (g / 4) + g % 4
  {
  }

  /** Distinct (start, bits) pairs end at distinct points. */
  lemma {:induction false} RunInjective(p: Point, g: int, p': Point, g': int, j: nat, k: nat)
    requires j <= k && InSquare(p, Pow2(j)) && InSquare(p', Pow2(j))
    requires 0 <= g < Pow4(k - j) && 0 <= g' < Pow4(k - j)
    requires Run(p, g, j, k) == Run(p', g', j, k)
    ensures p == p' && g == g'
    decreases k - j
  {
    if j < k {
      var m := Pow4(k - j - 1);
      QuadBound(g, m);
      QuadBound(g', m);
      PlaceBounds(g % 4, p, Pow2(j));
      PlaceBounds(g' % 4, p', Pow2(j));
      RunInjective(Place(g % 4, p, Pow2(j)), g / 4, Place(g' % 4, p', Pow2(j)), g' / 4, j + 1, k);
      PlaceInjective(g % 4, p, g' % 4, p', Pow2(j));
    }
  }

  /** The same bits applied to neighbouring points give neighbouring points. */
  lemma {:induction false} RunAdjacent(p: Point, q: Point, g: int, j: nat, k: nat)
    requires Adjacent(p, q)
    ensures Adjacent(Run(p, g, j, k), Run(q, g, j, k))
    decreases k - j
  {
    if j < k {
      PlaceAdjacent(g % 4, p, q, Pow2(j));
      RunAdjacent(Place(g % 4, p, Pow2(j)), Place(g % 4, q, Pow2(j)), g / 4, j + 1, k);
    }
  }

  /** The last point of a level-j sub-curve: (2^j - 1, 0). */
  function EndPoint(j: nat): Point
  {
    Point(Pow2(j) - 1, 0)
  }

  /** Where one sub-curve ends the next one begins next to it: the end of sub-curve g
      neighbours the start of sub-curve g+1. */
  lemma {:induction false} RunEndToStart(g: int, j: nat, k: nat)
    requires j <= k && 0 <= g && g + 1 < Pow4(k - j)
    ensures Adjacent(Run(EndPoint(j), g, j, k), Run(Origin, g + 1, j, k))
    decreases k - j
  {
    var half := Pow2(j);
    var m := Pow4(k - j - 1);
    QuadBound(g, m);
    if g % 4 == 3 {
      assert (g + 1) % 4 == 0 && (g + 1) / 4 == g / 4 + 1;
      assert Place(3, EndPoint(j), half) == EndPoint(j + 1);
      RunEndToStart(g / 4, j + 1, k);
    } else {
      assert (g + 1) % 4 == g % 4 + 1 && (g + 1) / 4 == g / 4;
      assert Adjacent(Place(g % 4, EndPoint(j), half), Place(g % 4 + 1, Origin, half));
      RunAdjacent(Place(g % 4, EndPoint(j), half), Place(g % 4 + 1, Origin, half), g / 4, j + 1, k);
    }
  }

  /** The last index of a level-j .. k curve lands on the end point of level k. */
  lemma {:induction false} RunLast(j: nat, k: nat)
    requires j <= k
    ensures Run(EndPoint(j), Pow4(k - j) - 1, j, k) == EndPoint(k)
    decreases k - j
  {
    if j < k {
      var m := Pow4(k - j - 1);
      var g := Pow4(k - j) - 1;
      assert g == 4 * (m - 1) + 3;
      DivModUnique(g, 4, m - 1, 3);
      assert Place(3, EndPoint(j), Pow2(j)) == EndPoint(j + 1);
      RunLast(j + 1, k);
    }
  }

  /** A constructive inverse of the levels: the start point and bits that reach q. */
  function Unrun(q: Point, j: nat, k: nat): (r: (Point, int))
    requires j <= k && InSquare(q, Pow2(k))
    ensures InSquare(r.0, Pow2(j)) && 0 <= r.1 < Pow4(k - j)
    ensures Run(r.0, r.1, j, k) == q
    decreases k - j
  {
    if j == k then (q, 0)
    else
      var (p1, g1) := Unrun(q, j + 1, k);
      var (d, p) := Unplace(p1, Pow2(j));
      var g := 4 * g1 + d;
      DivModUnique(g, 4, g1, d);
      (p, g)
  }

  // ---------------------------------------------------------------------------------------
  // hindex2xy on an n x n grid, n = 2^k

  lemma {:induction false} LevelCountOfPow2(k: nat)
    requires k >= 1
    ensures LevelCount(Pow2(k)) == k
  {
    Log2FloorOfPow2(k);
  }

  /** On the 2^k grid hindex2xy runs exactly the levels 0 .. k-1. */
  lemma {:induction false} HIndexToXYPow2(h: int, k: nat)
    requires k >= 1
    ensures HIndexToXY(h, Pow2(k)) == Run(Origin, h, 0, k)
  {
    LevelCountOfPow2(k);
    HIndexToXYIsRun(h, Pow2(k));
  }

  /** Every index lands inside the n x n square (for any n >= 2, the square of the largest
      power of two not above n). */
  lemma {:induction false} HIndexToXYBounds(h: int, n: int)
    requires n >= 2
    ensures InSquare(HIndexToXY(h, n), n)
  {
    HIndexToXYIsRun(h, n);
    RunBounds(Origin, h, 0, LevelCount(n));
  }

  /** Only the low 2*log2(n) bits of the index matter. */
  lemma {:induction false} HIndexToXYMod(h: int, k: nat)
    requires k >= 1
    ensures HIndexToXY(h, Pow2(k)) == HIndexToXY(h % (Pow2(k) * Pow2(k)), Pow2(k))
  {
    var n := Pow2(k);
    Pow2Square(k);
    var g := h % (n * n);
    HIndexToXYPow2(h, k);
    HIndexToXYPow2(g, k);
    RunModOrigin(h, k, n * n);
  }

  /** RunMod from the origin, with the modulus named by the caller. */
  lemma RunModOrigin(h: int, k: nat, m: int)
    requires m == Pow4(k)
    ensures Run(Origin, h, 0, k) == Run(Origin, h % m, 0, k)
  {
    RunMod(Origin, h, 0, k);
  }

  /** Distinct indices below n^2 map to distinct points. */
  lemma {:induction false} HIndexToXYInjective(h: int, h': int, k: nat)
    requires k >= 1
    requires 0 <= h < Pow2(k) * Pow2(k) && 0 <= h' < Pow2(k) * Pow2(k)
    requires HIndexToXY(h, Pow2(k)) == HIndexToXY(h', Pow2(k))
    ensures h == h'
  {
    var n := Pow2(k);
    Pow2Square(k);
    HIndexToXYPow2(h, k);
    HIndexToXYPow2(h', k);
    RunInjectiveOrigin(h, h', k, n * n);
  }

  /** RunInjective from the origin, with the bound named by the caller. */
  lemma RunInjectiveOrigin(h: int, h': int, k: nat, m: int)
    requires m == Pow4(k) && 0 <= h < m && 0 <= h' < m
    requires Run(Origin, h, 0, k) == Run(Origin, h', 0, k)
    ensures h == h'
  {
    assert Pow2(0) == 1;
    RunInjective(Origin, h, Origin, h', 0, k);
  }

  /** Every point of the n x n square is reached by some index below n^2. */
  lemma {:induction false} HIndexToXYSurjective(q: Point, k: nat) returns (h: int)
    requires k >= 1 && InSquare(q, Pow2(k))
    ensures 0 <= h < Pow2(k) * Pow2(k)
    ensures HIndexToXY(h, Pow2(k)) == q
  {
    Pow2Square(k);
    var r := Unrun(q, 0, k);
    assert r.0 == Origin;
    h := r.1;
    HIndexToXYPow2(h, k);
  }

  /** Consecutive indices are grid neighbours: the curve only makes unit steps. */
  lemma {:induction false} HIndexToXYAdjacent(h: int, k: nat)
    requires k >= 1 && 0 <= h && h + 1 < Pow2(k) * Pow2(k)
    ensures Adjacent(HIndexToXY(h, Pow2(k)), HIndexToXY(h + 1, Pow2(k)))
  {
    Pow2Square(k);
    HIndexToXYPow2(h, k);
    HIndexToXYPow2(h + 1, k);
    CurveAdjacent(h, k);
  }

  /** The whole curve on levels 0 .. k-1 is the case j = 0 of RunEndToStart, since the level-0
      end point is the origin itself. */
  lemma {:induction false} CurveAdjacent(h: int, k: nat)
    requires k >= 1 && 0 <= h && h + 1 < Pow4(k)
    ensures Adjacent(Run(Origin, h, 0, k), Run(Origin, h + 1, 0, k))
  {
    assert EndPoint(0) == Origin;
    assert Pow4(k - 0) == Pow4(k);
    RunEndToStart(h, 0, k);
  }

  /** The curve starts in the corner (0, 0) and ends in the corner (n-1, 0). */
  lemma {:induction false} HIndexToXYEnds(k: nat)
    requires k >= 1
    ensures HIndexToXY(0, Pow2(k)) == Origin
    ensures HIndexToXY(Pow2(k) * Pow2(k) - 1, Pow2(k)) == Point(Pow2(k) - 1, 0)
  {
    HIndexToXYFirst(k, 0);
    HIndexToXYLast(k, Pow2(k) * Pow2(k) - 1);
  }

  /** Index 0 is the corner (0, 0). */
  lemma HIndexToXYFirst(k: nat, h: int)
    requires k >= 1 && h == 0
    ensures HIndexToXY(h, Pow2(k)) == Origin
  {
    HIndexToXYPow2(h, k);
    RunZero(0, k);
  }

  /** Index n^2 - 1 is the corner (n-1, 0). */
  lemma HIndexToXYLast(k: nat, h: int)
    requires k >= 1 && h == Pow2(k) * Pow2(k) - 1
    ensures HIndexToXY(h, Pow2(k)) == Point(Pow2(k) - 1, 0)
  {
    Pow2Square(k);
    HIndexToXYPow2(h, k);
    CurveLast(k, h);
  }

  /** The last index of the whole curve, 4^k - 1, lands on (2^k - 1, 0). */
  lemma CurveLast(k: nat, last: int)
    requires last == Pow4(k) - 1
    ensures Run(Origin, last, 0, k) == EndPoint(k)
  {
    RunLastAt(Origin, last, 0, k);
  }

  /** RunLast with the start point and bits named by the caller. */
  lemma RunLastAt(p: Point, g: int, j: nat, k: nat)
    requires j <= k && p == EndPoint(j) && g == Pow4(k - j) - 1
    ensures Run(p, g, j, k) == EndPoint(k)
  {
    RunLast(j, k);
  }

  lemma {:induction false} RunZero(j: nat, k: nat)
    requires j <= k
    ensures Run(Origin, 0, j, k) == Origin
    decreases k - j
  {
    if j < k {
      RunZero(j + 1, k);
    }
  }

  // ---------------------------------------------------------------------------------------
  // GetHilbertCurve

  /** GetHilbertCurve(width, height): `height` is unused; the curve covers width x width blocks
      and entry i is the row-major index of hindex2xy(i, width). */
  function GetHilbertCurve(width: int, height: int): (r: seq<int>)
    ensures |r| == width * width
  {
    seq(width * width, i => var p := HIndexToXY(i, width); p.x + p.y * width)
  }

  /** For any width >= 1 every entry indexes the width x width grid. */
  lemma {:induction false} GetHilbertCurveInRange(width: int, height: int)
    requires width >= 1
    ensures forall i :: 0 <= i < width * width ==> 0 <= GetHilbertCurve(width, height)[i] < width * width
  {
    forall i | 0 <= i < width * width
      ensures 0 <= GetHilbertCurve(width, height)[i] < width * width
    {
      var p := HIndexToXY(i, width);
      if width >= 2 {
        HIndexToXYBounds(i, width);
      } else {
        assert i == 0;
      }
      RowMajorBounds(p.x, p.y, width, width);
    }
  }

  /** For width = 2^k the curve is a permutation of 0 .. width^2 - 1. */
  lemma {:induction false} GetHilbertCurvePermutation(k: nat, height: int)
    ensures var r := GetHilbertCurve(Pow2(k), height);
            && (forall i, i' :: 0 <= i < i' < |r| ==> r[i] != r[i'])
            && (forall v :: 0 <= v < |r| <==> v in r)
  {
    var w := Pow2(k);
    var r := GetHilbertCurve(w, height);
    GetHilbertCurveInRange(w, height);
    if k == 0 {
      assert |r| == 1 && r[0] == 0;
    } else {
      forall i, i' | 0 <= i < i' < |r|
        ensures r[i] != r[i']
      {
        var p, p' := HIndexToXY(i, w), HIndexToXY(i', w);
        HIndexToXYBounds(i, w);
        HIndexToXYBounds(i', w);
        if r[i] == r[i'] {
          RowMajorInjective(p.x, p.y, p'.x, p'.y, w);
          HIndexToXYInjective(i, i', k);
        }
      }
      forall v | 0 <= v < |r|
        ensures v in r
      {
        RowMajorSplit(v, w, w);
        var h := HIndexToXYSurjective(Point(v % w, v / w), k);
        assert r[h] == v;
      }
    }
  }

  // ---------------------------------------------------------------------------------------
  // Reordering blocks along the curve and back (encoder/debug.go)

  /** `hblocks[i] = blocks[curve[i]]` for every i. */
  function Gather<T>(blocks: seq<T>, curve: seq<int>): (r: seq<T>)
    requires forall i :: 0 <= i < |curve| ==> 0 <= curve[i] < |blocks|
    ensures |r| == |curve|
  {
    seq(|curve|, i requires 0 <= i < |curve| => blocks[curve[i]])
  }

  /** `res[curve[i]] = src[i]` for i = 0 .. n-1, in order, over `base`. */
  function Scatter<T>(base: seq<T>, src: seq<T>, curve: seq<int>, n: nat): (r: seq<T>)
    requires n <= |src| && n <= |curve|
    requires forall i :: 0 <= i < |curve| ==> 0 <= curve[i] < |base|
    ensures |r| == |base|
  {
    if n == 0 then base
    else Scatter(base, src, curve, n - 1)[curve[n - 1] := src[n - 1]]
  }

  /** With distinct entries, position curve[i] ends up holding src[i], and positions no entry
      names keep their base value. */
  lemma {:induction false} ScatterAt<T>(base: seq<T>, src: seq<T>, curve: seq<int>, n: nat)
    requires n <= |src| && n <= |curve|
    requires forall i :: 0 <= i < |curve| ==> 0 <= curve[i] < |base|
    requires forall i, i' :: 0 <= i < i' < |curve| ==> curve[i] != curve[i']
    ensures forall i :: 0 <= i < n ==> Scatter(base, src, curve, n)[curve[i]] == src[i]
    ensures forall v :: 0 <= v < |base| && v !in curve[..n] ==> Scatter(base, src, curve, n)[v] == base[v]
  {
    if n > 0 {
      ScatterAt(base, src, curve, n - 1);
      assert curve[..n] == curve[..n - 1] + [curve[n - 1]];
    }
  }

  /** Restoring a reordered sequence with a permutation gives back the original: the inverse
      reordering of EncBlockTest2 (encoder/debug.go:84-90) is correct exactly because the curve
      is a permutation. */
  lemma {:induction false} ScatterGather<T>(blocks: seq<T>, curve: seq<int>)
    requires |curve| == |blocks|
    requires forall i :: 0 <= i < |curve| ==> 0 <= curve[i] < |blocks|
    requires forall i, i' :: 0 <= i < i' < |curve| ==> curve[i] != curve[i']
    requires forall v :: 0 <= v < |blocks| ==> v in curve
    ensures Scatter(blocks, Gather(blocks, curve), curve, |curve|) == blocks
  {
    var g := Gather(blocks, curve);
    var s := Scatter(blocks, g, curve, |curve|);
    ScatterAt(blocks, g, curve, |curve|);
    forall v | 0 <= v < |blocks|
      ensures s[v] == blocks[v]
    {
      assert v in curve;
      var i :| 0 <= i < |curve| && curve[i] == v;
    }
  }

  /** EncBlockTest2's round trip (encoder/debug.go:55-90), reordering along the curve and back,
      for a square grid whose side is a power of two. */
  lemma {:induction false} HilbertReorderRoundTrip<T>(blocks: seq<T>, k: nat, height: int)
    requires |blocks| == Pow2(k) * Pow2(k)
    ensures var curve := GetHilbertCurve(Pow2(k), height);
            (forall i :: 0 <= i < |curve| ==> 0 <= curve[i] < |blocks|) &&
            Scatter(blocks, Gather(blocks, curve), curve, |curve|) == blocks
  {
    var curve := GetHilbertCurve(Pow2(k), height);
    GetHilbertCurveInRange(Pow2(k), height);
    GetHilbertCurvePermutation(k, height);
    ScatterGather(blocks, curve);
  }
}
