/** The full-size palette calculator (encoder/colorcalc.go): the colour cube read from the
    input images, the split of the points into one range per worker, the parallel
    calcSegments, the palette of the best attempt and the time display. */
module ColorCalc {

  import opened Numeric
  import opened Results
  import opened Colors
  import opened Quantizer

  /** colors, maxSteps and maxAttempt of a ColorCalc. */
  datatype Config = Config(colors: int, maxSteps: int, maxAttempt: int)

  /** NewColorCalc: the palette size is clamped into [1, 256]; steps and attempts are kept. */
  function NewColorCalc(colors: int, steps: int, attempts: int): (c: Config)
    ensures 1 <= c.colors <= 256
    ensures 1 <= colors <= 256 ==> c.colors == colors
    ensures colors > 256 ==> c.colors == 256
    ensures colors < 1 ==> c.colors == 1
    ensures c.maxSteps == steps && c.maxAttempt == attempts
  {
    Config(Clamp(colors, 1, 256), steps, attempts)
  }

  // ---------------------------------------------------------------------------------------
  // The colour cube

  /** The number of cells of the 256 x 256 x 256 cube. */
  const CubeSize: nat := 16777216

  /** The colour of cube cell r*65536 + g*256 + b: (r/255, g/255, b/255). */
  function CubeColor(i: nat): (c: FloatColor)
    requires i < CubeSize
    ensures IsUnitColor(c)
  {
    IntToFloat(IntColor(i / 65536, (i / 256) % 256, i % 256))
  }

  /** The cells among the first n whose count is positive, in the r, g, b loop order. */
  function NonZero(cube: seq<nat>, n: nat): (r: seq<nat>)
    requires n <= |cube|
    ensures |r| <= n
    ensures forall k :: 0 <= k < |r| ==> r[k] < n && cube[r[k]] > 0
    ensures forall k, l :: 0 <= k < l < |r| ==> r[k] < r[l]
    ensures forall i :: 0 <= i < n && cube[i] > 0 ==> i in r
  {
    if n == 0 then []
    else NonZero(cube, n - 1) + (if cube[n - 1] > 0 then [n - 1] else [])
  }

  /** What Input leaves behind: the palette size and one point per colour present. */
  datatype Loaded = Loaded(colors: int, points: seq<ColorPoint>)

  /** The points of Input: one per cell with a positive count, weighted by that count,
      in cluster 0 and at distance MaxFloat64. */
  function CubePoints(cube: seq<nat>, cells: seq<nat>): (ps: seq<ColorPoint>)
    requires forall k :: 0 <= k < |cells| ==> cells[k] < |cube| <= CubeSize
    ensures |ps| == |cells|
    ensures forall k :: 0 <= k < |ps| ==>
      ps[k] == ColorPoint(CubeColor(cells[k]), 0, cube[cells[k]], MaxFloat64)
  {
    seq(|cells|, k requires 0 <= k < |cells| =>
      ColorPoint(CubeColor(cells[k]), 0, cube[cells[k]], MaxFloat64))
  }

  /** The counting half of Input, from the filled cube on: the palette shrinks to the number
      of colours present, and an image set without a single pixel panics ("wrong input"). */
  function InputCube(colors: int, cube: seq<nat>): (r: Result<Loaded, string>)
    requires |cube| == CubeSize
    ensures r.Err? <==> forall i :: 0 <= i < |cube| ==> cube[i] == 0
    ensures r.Ok? ==> r.value.colors == Min(colors, |r.value.points|)
    ensures r.Ok? ==> forall k :: 0 <= k < |r.value.points| ==>
      r.value.points[k].count > 0 && r.value.points[k].segment == 0 && IsUnitColor(r.value.points[k].color)
    ensures r.Ok? ==> r.value.points == CubePoints(cube, NonZero(cube, |cube|))
  {
    var cells := NonZero(cube, |cube|);
    NonZeroEmpty(cube, |cube|);
    if |cells| == 0 then Err("wrong input")
    else
      Ok(Loaded(if colors > |cells| then |cells| else colors, CubePoints(cube, cells)))
  }

  /** No cell is listed exactly when the cube is empty. */
  lemma {:induction false} NonZeroEmpty(cube: seq<nat>, n: nat)
    requires n <= |cube|
    ensures |NonZero(cube, n)| == 0 <==> forall i :: 0 <= i < n ==> cube[i] == 0
    decreases n
  {
    if n > 0 {
      NonZeroEmpty(cube, n - 1);
      assert NonZero(cube, n) == NonZero(cube, n - 1) + (if cube[n - 1] > 0 then [n - 1] else []);
    }
  }

  /** Every colour present in the images has its point, weighted by its pixel count. */
  lemma InputCubeCovers(colors: int, cube: seq<nat>)
    requires |cube| == CubeSize && InputCube(colors, cube).Ok?
    ensures var ps := InputCube(colors, cube).value.points;
      forall i :: 0 <= i < |cube| && cube[i] > 0 ==>
        exists k :: 0 <= k < |ps| && ps[k] == ColorPoint(CubeColor(i), 0, cube[i], MaxFloat64)
  {
    var cells := NonZero(cube, |cube|);
    var ps := CubePoints(cube, cells);
    forall i | 0 <= i < |cube| && cube[i] > 0
      ensures exists k :: 0 <= k < |cells| && ps[k] == ColorPoint(CubeColor(i), 0, cube[i], MaxFloat64)
    {
      assert i in cells;
      var k :| 0 <= k < |cells| && cells[k] == i;
      assert ps[k] == ColorPoint(CubeColor(i), 0, cube[i], MaxFloat64);
    }
  }

  /** Every colour present gets exactly one point: the cells behind the points are distinct. */
  lemma {:induction false} InputCubeDistinct(cube: seq<nat>, k: nat, l: nat)
    requires |cube| == CubeSize
    requires var cells := NonZero(cube, |cube|); k < l < |cells|
    ensures NonZero(cube, |cube|)[k] != NonZero(cube, |cube|)[l]
  {
    var cells := NonZero(cube, |cube|);
    assert cells[k] < cells[l];
  }

  /** A successful Input with a clamped palette size is a valid start for Run: at least one
      colour and no more colours than points. */
  lemma {:induction false} InputCubeReady(cfg: Config, cube: seq<nat>)
    requires |cube| == CubeSize && cfg.colors >= 1
    requires InputCube(cfg.colors, cube).Ok?
    ensures var l := InputCube(cfg.colors, cube).value;
      1 <= l.colors <= |l.points| && SegmentsIn(l.points, l.colors)
  {
    var l := InputCube(cfg.colors, cube).value;
    NonZeroEmpty(cube, |cube|);
  }

  // ---------------------------------------------------------------------------------------
  // Worker ranges

  /** The half-open range [lo, hi) of points one worker reassigns. */
  datatype Span = Span(lo: nat, hi: nat)

  /** The pointRanges of Input for `workers` CPUs: workers - 1 ranges of len/workers points
      and a last range with the rest; no range at all for a single CPU. */
  function Ranges(n: nat, workers: int): (r: seq<Span>)
    ensures workers > 1 ==> |r| == workers
    ensures workers <= 1 ==> r == []
  {
    if workers <= 1 then []
    else
      var size := n / workers;
      var last: nat := workers - 1;
      seq(last, i requires 0 <= i < last => EvenSpan(i, size)) + [Span(Times(last, size), n)]
  }

  /** The i-th of the equal ranges of `size` points. */
  function EvenSpan(i: nat, size: nat): (s: Span)
    ensures s.lo == Times(i, size) && s.hi == Times(i + 1, size) == s.lo + size
  {
    Span(Times(i, size), Times(i + 1, size))
  }

  /** The product a * b, named so that the range bounds stay terms the solver matches on
      rather than products it multiplies out. */
  function Times(a: nat, b: nat): nat
  {
    a * b
  }

  /** The ranges cover [lo, hi) one after the other, without gap or overlap. */
  predicate TilesFrom(r: seq<Span>, lo: nat, hi: nat)
    decreases |r|
  {
    if |r| == 0 then lo == hi
    else r[0].lo == lo && r[0].lo <= r[0].hi && TilesFrom(r[1..], r[0].hi, hi)
  }

  /** Every range of a tiling lies inside the tiled interval. */
  lemma {:induction false} TilesInside(r: seq<Span>, lo: nat, hi: nat)
    requires TilesFrom(r, lo, hi)
    ensures lo <= hi
    ensures forall i :: 0 <= i < |r| ==> lo <= r[i].lo <= r[i].hi <= hi
    decreases |r|
  {
    if |r| > 0 {
      TilesInside(r[1..], r[0].hi, hi);
      assert forall i :: 1 <= i < |r| ==> r[i] == r[1..][i - 1];
    }
  }

  /** In a tiling every point of the interval falls into exactly one range. */
  lemma {:induction false} TilesCoverOnce(r: seq<Span>, lo: nat, hi: nat, p: nat)
    requires TilesFrom(r, lo, hi) && lo <= p < hi
    ensures exists i :: 0 <= i < |r| && r[i].lo <= p < r[i].hi
    ensures forall i, j :: 0 <= i < |r| && 0 <= j < |r| && r[i].lo <= p < r[i].hi && r[j].lo <= p < r[j].hi ==> i == j
    decreases |r|
  {
    assert |r| > 0;
    var rest := r[1..];
    TilesInside(rest, r[0].hi, hi);
    assert forall i :: 1 <= i < |r| ==> r[i] == rest[i - 1];
    if p >= r[0].hi {
      TilesCoverOnce(rest, r[0].hi, hi, p);
      var i :| 0 <= i < |rest| && rest[i].lo <= p < rest[i].hi;
      assert r[i + 1] == rest[i];
    }
  }

  /** The ranges of Input tile all points whenever there is more than one worker. */
  lemma {:induction false} RangesTile(n: nat, workers: int)
    requires workers > 1
    ensures TilesFrom(Ranges(n, workers), 0, n)
  {
    var size := n / workers;
    var r := Ranges(n, workers);
    DivBounds(n, workers);
    assert Times(workers - 1, size) <= n by {
      assert Times(workers - 1, size) + size == size * workers;
    }
    RangesTileSuffix(n, workers, 0);
    assert r[0..] == r;
  }

  lemma {:induction false} RangesTileSuffix(n: nat, workers: int, k: nat)
    requires workers > 1 && k < workers
    requires Times(workers - 1, n / workers) <= n
    ensures TilesFrom(Ranges(n, workers)[k..], Times(k, n / workers), n)
    decreases workers - k
  {
    var size := n / workers;
    var r := Ranges(n, workers);
    if k < workers - 1 {
      RangesTileSuffix(n, workers, k + 1);
      assert r[k..][1..] == r[k + 1..];
      assert r[k] == EvenSpan(k, size);
    } else {
      assert r[k..] == [Span(Times(workers - 1, size), n)];
      assert r[k..][1..] == [];
    }
  }

  /** The ranges with the single-CPU case given the whole point set, as evidently intended. */
  function RangesFixed(n: nat, workers: int): (r: seq<Span>)
    ensures TilesFrom(r, 0, n)
  {
    if workers > 1 then RangesTile(n, workers); Ranges(n, workers)
    else
      assert [Span(0, n)][1..] == [];
      [Span(0, n)]
  }

  // ---------------------------------------------------------------------------------------
  // calcSegments over the worker ranges

  /** The workers of calcSegments, one range after the other, each reassigning its points
      and adding its changes to pointsChanged. The ranges are disjoint, so the order the
      goroutines run in does not matter; the model takes them in turn. */
  function AssignRanges(ps: seq<ColorPoint>, centroids: seq<FloatColor>, dist: Distance, r: seq<Span>): (o: (seq<ColorPoint>, nat))
    requires SegmentsIn(ps, |centroids|)
    requires forall i :: 0 <= i < |r| ==> r[i].lo <= r[i].hi <= |ps|
    ensures |o.0| == |ps| && SegmentsIn(o.0, |centroids|)
    decreases |r|
  {
    if |r| == 0 then (ps, 0)
    else
      var a := Assign(ps, centroids, dist, r[0].lo, r[0].hi);
      var b := AssignRanges(a.0, centroids, dist, r[1..]);
      (b.0, a.1 + b.1)
  }

  /** Changes counted over [a, c) are those over [a, b) plus those over [b, c). */
  lemma {:induction false} ChangedSplit(ps: seq<ColorPoint>, centroids: seq<FloatColor>, dist: Distance, a: nat, b: nat, c: nat)
    requires a <= b <= c <= |ps|
    requires forall i :: a <= i < c ==> 0 <= ps[i].segment < |centroids|
    ensures Changed(ps, centroids, dist, a, c) == Changed(ps, centroids, dist, a, b) + Changed(ps, centroids, dist, b, c)
    decreases c
  {
    if c > b {
      ChangedSplit(ps, centroids, dist, a, b, c - 1);
    }
  }

  /** The count over [lo, hi) depends only on the points in [lo, hi). */
  lemma {:induction false} ChangedFrame(ps: seq<ColorPoint>, qs: seq<ColorPoint>, centroids: seq<FloatColor>, dist: Distance, lo: nat, hi: nat)
    requires lo <= hi <= |ps| && hi <= |qs|
    requires forall i :: lo <= i < hi ==> ps[i] == qs[i] && 0 <= ps[i].segment < |centroids|
    ensures Changed(ps, centroids, dist, lo, hi) == Changed(qs, centroids, dist, lo, hi)
    decreases hi
  {
    if hi > lo {
      ChangedFrame(ps, qs, centroids, dist, lo, hi - 1);
    }
  }

  /** Reassigning [a, b) and then [b, c) is reassigning [a, c). */
  lemma {:induction false} AssignSplit(ps: seq<ColorPoint>, centroids: seq<FloatColor>, dist: Distance, a: nat, b: nat, c: nat)
    requires a <= b <= c <= |ps|
    requires SegmentsIn(ps, |centroids|)
    ensures var x := Assign(ps, centroids, dist, a, b);
      var y := Assign(x.0, centroids, dist, b, c);
      y == (Assign(ps, centroids, dist, a, c).0, Assign(ps, centroids, dist, a, c).1 - x.1)
      && x.1 <= Assign(ps, centroids, dist, a, c).1
  {
    var x := Assign(ps, centroids, dist, a, b);
    var y := Assign(x.0, centroids, dist, b, c);
    var z := Assign(ps, centroids, dist, a, c);
    assert y.0 == z.0;
    ChangedFrame(x.0, ps, centroids, dist, b, c);
    ChangedSplit(ps, centroids, dist, a, b, c);
  }

  /** Workers over a tiling of [lo, hi) do what one pass over [lo, hi) does. */
  lemma {:induction false} AssignRangesTiled(ps: seq<ColorPoint>, centroids: seq<FloatColor>, dist: Distance, r: seq<Span>, lo: nat, hi: nat)
    requires SegmentsIn(ps, |centroids|)
    requires TilesFrom(r, lo, hi) && lo <= hi <= |ps|
    requires forall i :: 0 <= i < |r| ==> r[i].lo <= r[i].hi <= |ps|
    ensures AssignRanges(ps, centroids, dist, r) == Assign(ps, centroids, dist, lo, hi)
    decreases |r|
  {
    TilesInside(r, lo, hi);
    if |r| == 0 {
      assert Assign(ps, centroids, dist, lo, hi).0 == ps;
    } else {
      var m := r[0].hi;
      var x := Assign(ps, centroids, dist, lo, m);
      TilesInside(r[1..], m, hi);
      AssignRangesTiled(x.0, centroids, dist, r[1..], m, hi);
      AssignSplit(ps, centroids, dist, lo, m, hi);
    }
  }

  /** calcSegments as written: the ranges of Input for the CPU count. */
  function CalcSegmentsAsWritten(ps: seq<ColorPoint>, centroids: seq<FloatColor>, dist: Distance, workers: int): (o: (seq<ColorPoint>, nat))
    requires SegmentsIn(ps, |centroids|)
    ensures |o.0| == |ps|
    ensures workers > 1 ==> o == Assign(ps, centroids, dist, 0, |ps|)
    ensures workers <= 1 ==> o == (ps, 0)
  {
    if workers > 1 then
      RangesTile(|ps|, workers);
      TilesInside(Ranges(|ps|, workers), 0, |ps|);
      AssignRangesTiled(ps, centroids, dist, Ranges(|ps|, workers), 0, |ps|);
      AssignRanges(ps, centroids, dist, Ranges(|ps|, workers))
    else AssignRanges(ps, centroids, dist, Ranges(|ps|, workers))
  }

  /** On a single-CPU machine calcSegments reassigns nothing: a point whose colour sits on
      the second centroid stays in cluster 0 with no change counted, so Run stops at once. */
  lemma SingleWorkerSkipsCloserCentroid(x: FloatColor, a: FloatColor, dist: Distance)
    requires dist(x, x) == 0.0 && dist(x, a) > 0.0
    ensures var ps := [ColorPoint(x, 0, 1, MaxFloat64)];
      var o := CalcSegmentsAsWritten(ps, [a, x], dist, 1);
      o.1 == 0 && o.0[0].segment == 0 &&
      Assign(ps, [a, x], dist, 0, 1).0[0].segment == 1 && Assign(ps, [a, x], dist, 0, 1).1 == 1
  {
    var ps := [ColorPoint(x, 0, 1, MaxFloat64)];
    var q := Reassign(ps[0], [a, x], dist);
    ReassignNearest(ps[0], [a, x], dist);
    assert Scores(x, [a, x], dist)[1] == 0.0;
    assert q.segment == 1;
    assert Changed(ps, [a, x], dist, 0, 1) == 1;
  }

  /** calcSegments with the single-CPU range restored: for any CPU count it is one pass of
      Assign over all points. */
  function CalcSegments(ps: seq<ColorPoint>, centroids: seq<FloatColor>, dist: Distance, workers: int): (o: (seq<ColorPoint>, nat))
    requires SegmentsIn(ps, |centroids|)
    ensures o == Assign(ps, centroids, dist, 0, |ps|)
  {
    var r := RangesFixed(|ps|, workers);
    TilesInside(r, 0, |ps|);
    AssignRangesTiled(ps, centroids, dist, r, 0, |ps|);
    AssignRanges(ps, centroids, dist, r)
  }

  /** The calcSegments the quantizer runs for `workers` goroutines is calcSegments as
      written. */
  lemma WorkersSegmentsAsWritten(ps: seq<ColorPoint>, centroids: seq<FloatColor>, dist: Distance, workers: int)
    requires SegmentsIn(ps, |centroids|)
    ensures Segments(ps, centroids, dist, Workers(workers)) == CalcSegmentsAsWritten(ps, centroids, dist, workers)
  {
  }

  /** With the single-CPU range restored, calcSegments is the sequential pass of the intended
      quantizer for any CPU count. */
  lemma SequentialSegmentsFixed(ps: seq<ColorPoint>, centroids: seq<FloatColor>, dist: Distance, workers: int)
    requires SegmentsIn(ps, |centroids|)
    ensures Segments(ps, centroids, dist, Sequential) == CalcSegments(ps, centroids, dist, workers)
  {
  }

  // ---------------------------------------------------------------------------------------
  // Run

  /** Run of ColorCalc on `workers` CPUs: with `asWritten` the seeding and the worker ranges of
      the source, otherwise the intended quantizer, whose calcSegments covers every point. */
  function RunFull(cfg: Config, ps: seq<ColorPoint>, draws: seq<Draws>, workers: int, dist: Distance, err: Distance,
                   asWritten: bool): (b: Best)
    requires 1 <= cfg.colors <= |ps| && SegmentsIn(ps, cfg.colors)
    requires forall i :: 0 <= i < |draws| ==> |draws[i].fracs| >= cfg.colors - 1
    requires 0 <= cfg.maxAttempt <= |draws|
    ensures |b.errors| == cfg.maxAttempt
    ensures cfg.maxAttempt == 0 ==> b.bestAtt == 0
    ensures cfg.maxAttempt > 0 ==>
              && 1 <= b.bestAtt <= cfg.maxAttempt
              && |b.bestPalette| == cfg.colors
              && ArgMin.FirstMin(b.errors, ArgMin.Pick(0, b.errors[0])) == ArgMin.Pick(b.bestAtt - 1, b.bestError)
  {
    Run(ps, cfg.colors, draws, cfg.maxAttempt, cfg.maxSteps, dist, err, FullMode(workers, asWritten))
  }

  /** The quantizer ColorCalc runs. */
  function FullMode(workers: int, asWritten: bool): Mode
  {
    if asWritten then Mode(true, Workers(workers)) else Intended
  }

  /** On a single-CPU machine Run as written never clusters the colours of a cube: after every
      attempt every point is still in cluster 0, so each attempt's error measures every colour
      against its first centroid. */
  lemma SingleCpuRunNeverClusters(cfg: Config, cube: seq<nat>, draws: seq<Draws>, workers: int, dist: Distance, err: Distance)
    requires |cube| == CubeSize && cfg.colors >= 1 && InputCube(cfg.colors, cube).Ok?
    requires forall i :: 0 <= i < |draws| ==> |draws[i].fracs| >= InputCube(cfg.colors, cube).value.colors - 1
    requires workers <= 1
    ensures forall a, i ::
              && a in Attempts(InputCube(cfg.colors, cube).value.points, InputCube(cfg.colors, cube).value.colors,
                               draws, cfg.maxSteps, dist, err, FullMode(workers, true))
              && 0 <= i < |a.state.points|
              ==> a.state.points[i].segment == 0
  {
    var l := InputCube(cfg.colors, cube).value;
    InputCubeReady(cfg, cube);
    SingleWorkerNeverClusters(l.points, l.colors, draws, cfg.maxSteps, dist, err, true, workers);
  }

  // ---------------------------------------------------------------------------------------
  // The palette of an attempt

  /** calcPalette before its sort: each centroid as an 8-bit colour, `round` being math.Round. */
  function FullPalette(centroids: seq<FloatColor>, round: real -> int): (p: Palette)
    ensures |p| == |centroids|
    ensures forall i :: 0 <= i < |p| ==> p[i] == FloatToInt(centroids[i], round) && IsByteColor(p[i])
  {
    seq(|centroids|, i requires 0 <= i < |centroids| => FloatToInt(centroids[i], round))
  }

  /** Centroids that are exactly 8-bit colours come back unchanged. */
  lemma {:induction false} FullPaletteOfByteColors(pal: Palette, round: real -> int)
    requires forall i :: 0 <= i < |pal| ==> IsByteColor(pal[i])
    requires forall i :: 0 <= i < |pal| ==>
      round(pal[i].r as real) == pal[i].r && round(pal[i].g as real) == pal[i].g && round(pal[i].b as real) == pal[i].b
    ensures FullPalette(seq(|pal|, i requires 0 <= i < |pal| => IntToFloat(pal[i])), round) == pal
  {
    var cs := seq(|pal|, i requires 0 <= i < |pal| => IntToFloat(pal[i]));
    forall i | 0 <= i < |pal| ensures FullPalette(cs, round)[i] == pal[i] {
      IntFloatRoundTrip(pal[i], round);
    }
  }

  // ---------------------------------------------------------------------------------------
  // formatTime

  const Second: int := 1000000000
  const Minute: int := 60 * Second
  const Hour: int := 60 * Minute
  const MaxInt64: int := 0x7fff_ffff_ffff_ffff
  const MinInt64: int := -0x8000_0000_0000_0000

  predicate InInt64(v: int) { MinInt64 <= v <= MaxInt64 }

  /** Go's integer division, truncating toward zero. */
  function Quo(a: int, b: int): (q: int)
    requires b > 0
    ensures a >= 0 ==> 0 <= q * b <= a < q * b + b
    ensures a < 0 ==> q * b - b < a <= q * b <= 0
  {
    var t := (if a >= 0 then a else -a) / b;
    DivBounds(if a >= 0 then a else -a, b);
    QuoBounds(a, b, t);
    if a >= 0 then t else -t
  }

  lemma QuoBounds(a: int, b: int, t: int)
    requires b > 0 && t >= 0
    requires var m := if a >= 0 then a else -a; t * b <= m < t * b + b
    ensures a >= 0 ==> 0 <= t * b <= a < t * b + b
    ensures a < 0 ==> (-t) * b - b < a <= (-t) * b <= 0
  {
    assert (-t) * b == -(t * b);
  }

  /** Go's `%`, which takes the sign of the dividend. */
  function Rem(a: int, b: int): (r: int)
    requires b > 0
    ensures a == Quo(a, b) * b + r
    ensures a >= 0 ==> 0 <= r < b
    ensures a < 0 ==> -b < r <= 0
  {
    a - Quo(a, b) * b
  }

  /** time.Duration.Round(m): the nearest multiple of m, halves away from zero, saturating at
      the int64 bounds. */
  function RoundDuration(d: int, m: int): (r: int)
    requires InInt64(d) && 0 < m <= MaxInt64
    ensures InInt64(r)
    ensures r == MaxInt64 || r == MinInt64 || r % m == 0
    ensures r != MaxInt64 && r != MinInt64 ==> -m <= 2 * (r - d) <= m
    ensures 2 * (r - d) == m ==> d >= 0
    ensures 2 * (r - d) == -m ==> d < 0
    ensures d >= 0 ==> r >= 0
    ensures d <= 0 ==> r <= 0
  {
    var rem := Rem(d, m);
    var q := Quo(d, m);
    if d < 0 then
      var rr := -rem;
      if rr + rr < m then
        assert d + rr == q * m;
        assert (q * m) % m == 0 by { DivModUnique(q * m, m, q, 0); }
        d + rr
      else if d - m + rr >= MinInt64 then
        assert d - m + rr == (q - 1) * m;
        assert ((q - 1) * m) % m == 0 by { DivModUnique((q - 1) * m, m, q - 1, 0); }
        d - m + rr
      else MinInt64
    else
      if rem + rem < m then
        assert d - rem == q * m;
        assert (q * m) % m == 0 by { DivModUnique(q * m, m, q, 0); }
        d - rem
      else if d + m - rem <= MaxInt64 then
        assert d + m - rem == (q + 1) * m;
        assert ((q + 1) * m) % m == 0 by { DivModUnique((q + 1) * m, m, q + 1, 0); }
        d + m - rem
      else MaxInt64
  }

  /** Hours, minutes and seconds of a duration already rounded to the second. */
  datatype Clock = Clock(h: int, m: int, s: int)

  /** `h := d / time.Hour; d -= h * time.Hour; m := d / time.Minute; ...`. */
  function Split(d: int): (c: Clock)
    ensures c.h * Hour + c.m * Minute + c.s * Second + Rem(Rem(Rem(d, Hour), Minute), Second) == d
    ensures d >= 0 ==> c.h >= 0 && 0 <= c.m < 60 && 0 <= c.s < 60
  {
    var h := Quo(d, Hour);
    var d1 := d - h * Hour;
    var m := Quo(d1, Minute);
    var d2 := d1 - m * Minute;
    var s := Quo(d2, Second);
    assert d1 == Rem(d, Hour);
    assert d2 == Rem(d1, Minute);
    Clock(h, m, s)
  }

  /** The decimal digits of n, most significant first. */
  function Digits(n: nat): (s: string)
    ensures |s| >= 1
    ensures forall i :: 0 <= i < |s| ==> '0' <= s[i] <= '9'
    decreases n
  {
    if n < 10 then [('0' as int + n) as char]
    else Digits(n / 10) + [('0' as int + n % 10) as char]
  }

  /** The value of a string of decimal digits. */
  function ParseDigits(s: string): int
  {
    if |s| == 0 then 0
    else 10 * ParseDigits(s[..|s| - 1]) + (s[|s| - 1] as int - '0' as int)
  }

  /** Reading the digits back gives the number. */
  lemma {:induction false} DigitsRoundTrip(n: nat)
    ensures ParseDigits(Digits(n)) == n
    decreases n
  {
    if n >= 10 {
      DigitsRoundTrip(n / 10);
      var s := Digits(n);
      assert s[..|s| - 1] == Digits(n / 10);
    }
  }

  /** `%d`: a minus sign for negative numbers, then the digits. */
  function Decimal(n: int): (s: string)
    ensures |s| >= 1
  {
    if n < 0 then "-" + Digits(-n) else Digits(n)
  }

  /** `%2d`: the number right-aligned in a field of at least two characters. */
  function Pad2(n: int): (s: string)
    ensures |s| >= 2
    ensures s[|s| - 1] != ' '
  {
    var d := Decimal(n);
    if |d| < 2 then " " + d else d
  }

  /** Pad2 of a number from 0 to 99 is two characters whose digits read back as the number. */
  lemma {:induction false} Pad2Small(n: int)
    requires 0 <= n <= 99
    ensures |Pad2(n)| == 2
    ensures ParseDigits(if n < 10 then Pad2(n)[1..] else Pad2(n)) == n
  {
    DigitsRoundTrip(n);
    if n < 10 {
      assert Pad2(n)[1..] == Digits(n);
    } else {
      assert Digits(n / 10) == [('0' as int + n / 10) as char];
    }
  }

  /** The hour or minute field: `%2d` and the unit when positive, five blanks otherwise. */
  function Field(v: int, unit: string): (s: string)
    requires |unit| == 3 && unit[0] == ' '
    ensures s == "     " <==> v <= 0
    ensures v > 0 ==> |s| >= 5 && s[|s| - 3..] == unit
    ensures 0 < v <= 99 ==> |s| == 5
  {
    if v > 0 then
      var p := Pad2(v);
      assert v <= 99 ==> |p| == 2 by { if v <= 99 { Pad2Small(v); } }
      assert (p + unit)[|p| - 1] == p[|p| - 1] != ' ';
      p + unit
    else "     "
  }

  /** formatTime(dur). */
  function FormatTime(dur: int): (s: string)
    requires InInt64(dur)
  {
    var c := Split(RoundDuration(dur, Second));
    Field(c.h, " h ") + Field(c.m, " m ") + Pad2(c.s) + " s"
  }

  /** For a non-negative duration below 100 hours the display is 14 characters: blanks
      exactly where the rounded duration has no whole hours or minutes, and the three fields
      add back up to the rounded duration. */
  lemma FormatTimeFields(dur: int)
    requires 0 <= dur && InInt64(dur) && RoundDuration(dur, Second) < 100 * Hour
    ensures var d := RoundDuration(dur, Second);
      var c := Split(d);
      var s := FormatTime(dur);
      && c.h * Hour + c.m * Minute + c.s * Second == d
      && 0 <= c.h < 100 && 0 <= c.m < 60 && 0 <= c.s < 60
      && |s| == 14
      && (s[..5] == "     " <==> c.h == 0)
      && (s[5..10] == "     " <==> c.m == 0)
      && s[12..] == " s"
  {
    var d := RoundDuration(dur, Second);
    SplitWhole(d);
    ClockText(Split(d));
  }

  /** A whole number of seconds below 100 hours splits into hours, minutes and seconds that add
      back up to it. */
  lemma SplitWhole(d: int)
    requires 0 <= d < 100 * Hour && d % Second == 0
    ensures var c := Split(d);
      && c.h * Hour + c.m * Minute + c.s * Second == d
      && 0 <= c.h < 100 && 0 <= c.m < 60 && 0 <= c.s < 60
  {
    var c := Split(d);
    RemOfMultiple(d, Hour, Minute, Second);
    assert c.h < 100;
  }

  /** The display of a clock below 100 hours: 14 characters, blank fields exactly for zero hours
      or minutes, then the seconds. */
  lemma ClockText(c: Clock)
    requires 0 <= c.h < 100 && 0 <= c.m < 60 && 0 <= c.s < 60
    ensures var s := Field(c.h, " h ") + Field(c.m, " m ") + Pad2(c.s) + " s";
      && |s| == 14
      && (s[..5] == "     " <==> c.h == 0)
      && (s[5..10] == "     " <==> c.m == 0)
      && s[12..] == " s"
  {
    var fh := Field(c.h, " h ");
    var fm := Field(c.m, " m ");
    assert |fh| == 5 by { if c.h > 0 { Pad2Small(c.h); } }
    assert |fm| == 5 by { if c.m > 0 { Pad2Small(c.m); } }
    Pad2Small(c.s);
    var s := fh + fm + Pad2(c.s) + " s";
    assert s[..5] == fh;
    assert s[5..10] == fm;
  }

  /** A non-negative multiple of the second keeps no sub-second rest after the hours and
      minutes are taken off. */
  lemma {:induction false} RemOfMultiple(d: int, hour: int, minute: int, second: int)
    requires d >= 0 && second > 0 && minute == 60 * second && hour == 60 * minute
    requires d % second == 0
    ensures Rem(Rem(Rem(d, hour), minute), second) == 0
  {
    var q := d / second;
    assert d == q * second;
    var a := Rem(d, hour);
    assert a == d - Quo(d, hour) * hour;
    assert Quo(d, hour) * hour == (Quo(d, hour) * 3600) * second;
    assert a == (q - Quo(d, hour) * 3600) * second;
    var b := Rem(a, minute);
    assert Quo(a, minute) * minute == (Quo(a, minute) * 60) * second;
    assert b == (q - Quo(d, hour) * 3600 - Quo(a, minute) * 60) * second;
    assert b >= 0;
    var k := q - Quo(d, hour) * 3600 - Quo(a, minute) * 60;
    DivModUnique(b, second, k, 0);
  }
}
