/** The per-block quantiser of encoder/colorcalcmini.go: the 16 pixels of one block as points,
    at most 8 clusters, and the palette indices of the best centroids. */
module ColorCalcMini {

  import opened Numeric
  import opened Colors
  import opened Encoding
  import opened Quantizer

  /** The settings NewColorCalcMini keeps. */
  datatype Config = Config(colors: int, maxSteps: int, maxAttempt: int)

  /** NewColorCalcMini: colours clamped into [1, 8]; steps and attempts as given. */
  function NewColorCalcMini(colors: int, steps: int, attempts: int): (c: Config)
    ensures 1 <= c.colors <= 8
    ensures 1 <= colors <= 8 ==> c.colors == colors
    ensures colors > 8 ==> c.colors == 8
    ensures colors < 1 ==> c.colors == 1
    ensures c.maxSteps == steps && c.maxAttempt == attempts
  {
    Config(Clamp(colors, 1, 8), steps, attempts)
  }

  /** Input: one point per pixel, with the pixel's palette colour as a real colour, count 1,
      cluster 0 and the MaxFloat64 sentinel as running distance. */
  function Input(block: ImageBlock, pal: Palette): (ps: seq<ColorPoint>)
    requires ValidBlock(block, |pal|)
    ensures |ps| == 16
    ensures forall i :: 0 <= i < 16 ==>
              ps[i] == ColorPoint(IntToFloat(pal[block[i]]), 0, 1, MaxFloat64)
  {
    seq(16, i requires 0 <= i < 16 => ColorPoint(IntToFloat(pal[block[i]]), 0, 1, MaxFloat64))
  }

  /** A block whose pixel 1 holds one palette entry and every other pixel another becomes the
      points OddOneOut of their two colours. */
  lemma OddBlockInput(block: ImageBlock, pal: Palette)
    requires ValidBlock(block, |pal|)
    requires forall i :: 0 <= i < 16 && i != 1 ==> block[i] == block[0]
    ensures Input(block, pal) == OddOneOut(IntToFloat(pal[block[0]]), IntToFloat(pal[block[1]]))
  {
  }

  /** On such a block with two colours, initCentroids as written never draws pixel 1 after a
      first draw that leaves it in place (15 draws in 16): both centroids get the colour of the
      other pixels. The corrected roulette start picks pixel 1's colour. */
  lemma BlockSeedsTwiceAsWritten(block: ImageBlock, pal: Palette, dist: Distance, first: nat, frac: real)
    requires ValidBlock(block, |pal|)
    requires forall i :: 0 <= i < 16 && i != 1 ==> block[i] == block[0]
    requires var a := IntToFloat(pal[block[0]]); var b := IntToFloat(pal[block[1]]);
             dist(b, a) > 0.0 && dist(b, a) < MaxFloat64 && dist(a, a) == 0.0
    requires first % 16 != 1 && 0.0 <= frac < 1.0
    ensures InitCentroids(Input(block, pal), 2, first, [frac], dist, true).centroids ==
            [IntToFloat(pal[block[0]]), IntToFloat(pal[block[0]])]
    ensures InitCentroids(Input(block, pal), 2, first, [frac], dist, false).centroids ==
            [IntToFloat(pal[block[0]]), IntToFloat(pal[block[1]])]
  {
    OddBlockInput(block, pal);
    UnseededSlotAsWritten(IntToFloat(pal[block[0]]), IntToFloat(pal[block[1]]), dist, first, frac);
  }

  /** Run on the 16 points of a block: with `asWritten` the seeding of the source, otherwise
      the intended roulette start; calcSegments is one sequential pass either way. */
  function RunMini(cfg: Config, ps: seq<ColorPoint>, draws: seq<Draws>, dist: Distance, err: Distance, asWritten: bool): (b: Best)
    requires 1 <= cfg.colors <= 8 && |ps| == 16 && SegmentsIn(ps, cfg.colors)
    requires forall i :: 0 <= i < |draws| ==> |draws[i].fracs| >= cfg.colors - 1
    requires 0 <= cfg.maxAttempt <= |draws|
    ensures |b.errors| == cfg.maxAttempt
    ensures cfg.maxAttempt > 0 ==>
              && 1 <= b.bestAtt <= cfg.maxAttempt
              && |b.bestPalette| == cfg.colors
              && ArgMin.FirstMin(b.errors, ArgMin.Pick(0, b.errors[0])) == ArgMin.Pick(b.bestAtt - 1, b.bestError)
  {
    Run(ps, cfg.colors, draws, cfg.maxAttempt, cfg.maxSteps, dist, err, Mode(asWritten, Sequential))
  }

  /** The attempt RunMini keeps is the first one of least error. */
  lemma RunMiniBest(cfg: Config, ps: seq<ColorPoint>, draws: seq<Draws>, dist: Distance, err: Distance, asWritten: bool)
    requires 1 <= cfg.colors <= 8 && |ps| == 16 && SegmentsIn(ps, cfg.colors)
    requires forall i :: 0 <= i < |draws| ==> |draws[i].fracs| >= cfg.colors - 1
    requires 0 < cfg.maxAttempt <= |draws|
    ensures var b := RunMini(cfg, ps, draws, dist, err, asWritten);
            && 1 <= b.bestAtt <= cfg.maxAttempt
            && b.bestError == b.errors[b.bestAtt - 1]
            && (forall j :: 0 <= j < |b.errors| ==> b.bestError <= b.errors[j])
            && (forall j :: 0 <= j < b.bestAtt - 1 ==> b.bestError < b.errors[j])
  {
    var b := RunMini(cfg, ps, draws, dist, err, asWritten);
    ArgMin.HeadScanIs(b.errors, ArgMin.Pick(b.bestAtt - 1, b.bestError));
  }

  /** The errors RunMini records are those of its attempts, in order. */
  lemma RunMiniErrors(cfg: Config, ps: seq<ColorPoint>, draws: seq<Draws>, dist: Distance, err: Distance, asWritten: bool)
    requires 1 <= cfg.colors <= 8 && |ps| == 16 && SegmentsIn(ps, cfg.colors)
    requires forall i :: 0 <= i < |draws| ==> |draws[i].fracs| >= cfg.colors - 1
    requires 0 < cfg.maxAttempt <= |draws|
    ensures forall j :: 0 <= j < cfg.maxAttempt ==>
              RunMini(cfg, ps, draws, dist, err, asWritten).errors[j] ==
              Outcomes(ps, cfg.colors, draws, cfg.maxAttempt, cfg.maxSteps, dist, err, Mode(asWritten, Sequential))[j].error
  {
    RunRecords(ps, cfg.colors, draws, cfg.maxAttempt, cfg.maxSteps, dist, err, Mode(asWritten, Sequential));
  }

  /** The palette RunMini keeps is the centroids its best attempt ended with. */
  lemma RunMiniPalette(cfg: Config, ps: seq<ColorPoint>, draws: seq<Draws>, dist: Distance, err: Distance, asWritten: bool)
    requires 1 <= cfg.colors <= 8 && |ps| == 16 && SegmentsIn(ps, cfg.colors)
    requires forall i :: 0 <= i < |draws| ==> |draws[i].fracs| >= cfg.colors - 1
    requires 0 < cfg.maxAttempt <= |draws|
    ensures RunMini(cfg, ps, draws, dist, err, asWritten).bestPalette ==
            Outcomes(ps, cfg.colors, draws, cfg.maxAttempt, cfg.maxSteps, dist, err, Mode(asWritten, Sequential))
              [RunMini(cfg, ps, draws, dist, err, asWritten).bestAtt - 1].state.centroids
  {
    RunRecords(ps, cfg.colors, draws, cfg.maxAttempt, cfg.maxSteps, dist, err, Mode(asWritten, Sequential));
  }

  predicate Sorted(s: seq<int>)
  {
    forall i, j :: 0 <= i < j < |s| ==> s[i] <= s[j]
  }

  /** x inserted into a sorted sequence before the first larger element. */
  function Insert(x: int, s: seq<int>): (r: seq<int>)
    requires Sorted(s)
    ensures Sorted(r)
    ensures multiset(r) == multiset(s) + multiset{x}
    ensures |r| == |s| + 1
    ensures r[0] == (if |s| == 0 || x <= s[0] then x else s[0])
  {
    if |s| == 0 then [x]
    else if x <= s[0] then [x] + s
    else
      var t := Insert(x, s[1..]);
      assert s == [s[0]] + s[1..];
      assert s[0] <= t[0];
      [s[0]] + t
  }

  /** sort.Ints, as an insertion sort. */
  function SortInts(s: seq<int>): (r: seq<int>)
    ensures Sorted(r)
    ensures multiset(r) == multiset(s)
    ensures |r| == |s|
  {
    if |s| == 0 then []
    else
      assert s == s[..|s| - 1] + [s[|s| - 1]];
      Insert(s[|s| - 1], SortInts(s[..|s| - 1]))
  }

  /** GetSubPal: the palette index of each best centroid (`indexOf` is
      Palette.GetFloatColorIndex), zero for slots the best palette does not fill, sorted
      ascending. */
  function GetSubPal(colors: nat, bestPalette: seq<FloatColor>, indexOf: FloatColor -> int): (r: seq<int>)
    requires |bestPalette| <= colors
    ensures |r| == colors
    ensures Sorted(r)
    ensures multiset(r) == multiset(seq(colors, i requires 0 <= i < colors =>
                                          if i < |bestPalette| then indexOf(bestPalette[i]) else 0))
  {
    SortInts(seq(colors, i requires 0 <= i < colors => if i < |bestPalette| then indexOf(bestPalette[i]) else 0))
  }

  /** Every centroid's palette index is in the sub-palette, and every sub-palette entry is the
      index of some centroid. */
  lemma GetSubPalMembers(colors: nat, bestPalette: seq<FloatColor>, indexOf: FloatColor -> int)
    requires |bestPalette| == colors
    ensures var r := GetSubPal(colors, bestPalette, indexOf);
            && (forall i :: 0 <= i < colors ==> indexOf(bestPalette[i]) in r)
            && (forall k :: 0 <= k < |r| ==> exists i :: 0 <= i < colors && r[k] == indexOf(bestPalette[i]))
  {
    var raw := seq(colors, i requires 0 <= i < colors => if i < |bestPalette| then indexOf(bestPalette[i]) else 0);
    var r := GetSubPal(colors, bestPalette, indexOf);
    SameMembers(raw, r);
    SameMembers(r, raw);
    forall i | 0 <= i < colors
      ensures indexOf(bestPalette[i]) in r
    {
      assert raw[i] == indexOf(bestPalette[i]);
    }
    forall k | 0 <= k < |r|
      ensures exists i :: 0 <= i < colors && r[k] == indexOf(bestPalette[i])
    {
      var i :| 0 <= i < |raw| && raw[i] == r[k];
    }
  }

  /** Two sequences with the same multiset hold the same elements. */
  lemma SameMembers(a: seq<int>, b: seq<int>)
    requires multiset(a) == multiset(b)
    ensures forall i :: 0 <= i < |a| ==> a[i] in b
  {
    forall i | 0 <= i < |a| ensures a[i] in b {
      assert a[i] in multiset(a);
    }
  }
}
