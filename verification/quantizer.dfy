/** The k-means colour quantiser shared by ColorCalcMini (encoder/colorcalcmini.go, 16 points
    of one block) and ColorCalc (encoder/colorcalc.go, one point per distinct colour of the
    input): k-means++ style seeding by swaps, the assignment step, the centroid step, the error
    and the best-of-attempts loop. `FloatColor.Distance` and the square-rooted distance the
    error sums are parameters; the random draws of the seeding are passed in. */
module Quantizer {

  import opened Numeric
  import opened ArgMin
  import opened Colors

  /** FloatColor.Distance, not part of this model. */
  type Distance = (FloatColor, FloatColor) -> real

  /** A colour, its cluster, its multiplicity and its running distance to the nearest centroid
      chosen so far. */
  datatype ColorPoint = ColorPoint(color: FloatColor, segment: int, count: nat, distance: real)

  /** What a point carries apart from its running distance. */
  function Entry(p: ColorPoint): (FloatColor, int, nat)
  {
    (p.color, p.segment, p.count)
  }

  function Entries(ps: seq<ColorPoint>): (r: seq<(FloatColor, int, nat)>)
    ensures |r| == |ps| && forall i :: 0 <= i < |ps| ==> r[i] == Entry(ps[i])
  {
    seq(|ps|, i requires 0 <= i < |ps| => Entry(ps[i]))
  }

  /** Every point belongs to one of n clusters. */
  predicate SegmentsIn(ps: seq<ColorPoint>, n: int)
  {
    forall i :: 0 <= i < |ps| ==> 0 <= ps[i].segment < n
  }

  /** swapPoints on positions i and j. */
  function Swap<T>(s: seq<T>, i: int, j: int): (r: seq<T>)
    requires 0 <= i < |s| && 0 <= j < |s|
    ensures |r| == |s| && r[i] == s[j] && r[j] == s[i]
    ensures forall k :: 0 <= k < |s| && k != i && k != j ==> r[k] == s[k]
    ensures multiset(r) == multiset(s)
  {
    s[i := s[j]][j := s[i]]
  }

  lemma EntriesSwap(ps: seq<ColorPoint>, i: int, j: int)
    requires 0 <= i < |ps| && 0 <= j < |ps|
    ensures multiset(Entries(Swap(ps, i, j))) == multiset(Entries(ps))
  {
    assert Entries(Swap(ps, i, j)) == Swap(Entries(ps), i, j);
  }

  /** Points with the same entries up to order have their clusters in the same range. */
  lemma SegmentsInPermutation(a: seq<ColorPoint>, b: seq<ColorPoint>, n: int)
    requires multiset(Entries(a)) == multiset(Entries(b))
    requires SegmentsIn(b, n)
    ensures SegmentsIn(a, n)
  {
    forall i | 0 <= i < |a|
      ensures 0 <= a[i].segment < n
    {
      assert Entries(a)[i] in multiset(Entries(b));
      var j :| 0 <= j < |b| && Entries(b)[j] == Entry(a[i]);
    }
  }

  /** pointDistance: the running distance becomes the smaller of the old one and the distance
      to `center`, and that value is returned. */
  function PointDistance(p: ColorPoint, center: FloatColor, dist: Distance): (r: (ColorPoint, real))
    ensures r.0 == p.(distance := r.1)
    ensures r.1 <= p.distance && r.1 <= dist(p.color, center)
    ensures r.1 == p.distance || r.1 == dist(p.color, center)
  {
    var d := dist(p.color, center);
    if d < p.distance then (p.(distance := d), d) else (p, p.distance)
  }

  /** The first inner loop of initCentroids: every point after slot c updates its running
      distance against the centroid in slot c. */
  function Refresh(ps: seq<ColorPoint>, c: nat, dist: Distance): (r: seq<ColorPoint>)
    requires c < |ps|
    ensures |r| == |ps| && Entries(r) == Entries(ps)
    ensures forall i :: 0 <= i <= c ==> r[i] == ps[i]
    ensures forall i :: c < i < |ps| ==>
              && r[i].distance <= ps[i].distance
              && r[i].distance <= dist(ps[i].color, ps[c].color)
              && (r[i].distance == ps[i].distance || r[i].distance == dist(ps[i].color, ps[c].color))
  {
    seq(|ps|, i requires 0 <= i < |ps| =>
      if i > c then PointDistance(ps[i], ps[c].color, dist).0 else ps[i])
  }

  /** The running distances of points i .. j-1, added left to right. */
  function DistSum(ps: seq<ColorPoint>, i: nat, j: nat): real
    requires i <= j <= |ps|
    decreases j
  {
    if j == i then 0.0 else DistSum(ps, i, j - 1) + ps[j - 1].distance
  }

  /** The roulette's running sum once point k has been added. */
  function Running(ps: seq<ColorPoint>, from: nat, k: nat): real
    requires from <= k < |ps|
  {
    DistSum(ps, from, k + 1)
  }

  /** The roulette, started at `from`, stops at `next`: the first point whose running sum
      exceeds rnd. */
  predicate Hit(ps: seq<ColorPoint>, from: nat, rnd: real, next: int)
  {
    && from <= next < |ps|
    && Running(ps, from, next) > rnd
    && forall k :: from <= k < next ==> Running(ps, from, k) <= rnd
  }

  /** No running sum from `from` on exceeds rnd. */
  predicate NoHit(ps: seq<ColorPoint>, from: nat, rnd: real)
  {
    forall k :: from <= k < |ps| ==> Running(ps, from, k) <= rnd
  }

  /** The second inner loop of initCentroids, at index i with `acc` summed since `from`: the
      first index whose running sum exceeds rnd, or the last index when none does. */
  function Roulette(ps: seq<ColorPoint>, from: nat, i: nat, acc: real, rnd: real): (next: nat)
    requires 0 < |ps| && from <= i <= |ps|
    requires acc == DistSum(ps, from, i)
    requires forall k :: from <= k < i ==> Running(ps, from, k) <= rnd
    ensures Hit(ps, from, rnd, next) || (next == |ps| - 1 && NoHit(ps, from, rnd))
    decreases |ps| - i
  {
    if i >= |ps| then |ps| - 1
    else
      assert Running(ps, from, i) == acc + ps[i].distance;
      if acc + ps[i].distance > rnd then i
      else Roulette(ps, from, i + 1, acc + ps[i].distance, rnd)
  }

  /** When the distances from `from` on add up to more than rnd the roulette always hits. */
  lemma RouletteHits(ps: seq<ColorPoint>, from: nat, rnd: real)
    requires from < |ps|
    requires DistSum(ps, from, |ps|) > rnd
    ensures Hit(ps, from, rnd, Roulette(ps, from, from, 0.0, rnd))
  {
    assert Running(ps, from, |ps| - 1) > rnd;
  }

  /** A hit with a non-negative threshold lands on a point of positive distance: the points
      the running sum passes over without exceeding rnd are never drawn. */
  lemma {:induction false} HitIsPositive(ps: seq<ColorPoint>, from: nat, rnd: real, next: int)
    requires Hit(ps, from, rnd, next) && rnd >= 0.0
    ensures ps[next].distance > 0.0
  {
    assert Running(ps, from, next) == DistSum(ps, from, next) + ps[next].distance;
    if next > from {
      assert Running(ps, from, next - 1) <= rnd;
    } else {
      assert DistSum(ps, from, next) == 0.0;
    }
  }

  /** Where the roulette starts after slot c has been filled: c + 2 in the source, which never
      draws the point in slot c + 1 (see UnseededSlotAsWritten); c + 1 in the corrected
      seeding. */
  function RouletteStart(c: nat, asWritten: bool): (from: nat)
    ensures c + 1 <= from <= c + 2
  {
    if asWritten then c + 2 else c + 1
  }

  /** The slot swapped into position c + 1 by one seeding round: rnd = frac * (sum of the
      refreshed distances after slot c), then the roulette. */
  function Draw(ps: seq<ColorPoint>, c: nat, frac: real, dist: Distance, asWritten: bool): (next: nat)
    requires c + 1 < |ps|
    ensures c + 1 <= next < |ps|
  {
    var q := Refresh(ps, c, dist);
    var rnd := Scale(frac, DistSum(q, c + 1, |q|));
    var from := RouletteStart(c, asWritten);
    Roulette(q, from, from, 0.0, rnd)
  }

  /** One round of the seeding loop, centroid c already in place. */
  function Advance(ps: seq<ColorPoint>, c: nat, frac: real, dist: Distance, asWritten: bool): (r: seq<ColorPoint>)
    requires c + 1 < |ps|
    ensures |r| == |ps|
    ensures multiset(Entries(r)) == multiset(Entries(ps))
    ensures forall i :: 0 <= i <= c ==> r[i] == ps[i]
    ensures r[c + 1] == Refresh(ps, c, dist)[Draw(ps, c, frac, dist, asWritten)]
  {
    var q := Refresh(ps, c, dist);
    var next := Draw(ps, c, frac, dist, asWritten);
    EntriesSwap(q, c + 1, next);
    Swap(q, c + 1, next)
  }

  /** The rounds of the seeding loop from centroid c on, `for centInd < colors-1`. */
  function SeedRounds(ps: seq<ColorPoint>, c: nat, colors: nat, fracs: seq<real>, dist: Distance, asWritten: bool): (r: seq<ColorPoint>)
    requires c < colors <= |ps| && |fracs| >= colors - 1
    ensures |r| == |ps|
    ensures multiset(Entries(r)) == multiset(Entries(ps))
    ensures forall i :: 0 <= i <= c ==> r[i] == ps[i]
    ensures c + 1 < colors ==> r[c + 1] == Advance(ps, c, fracs[c], dist, asWritten)[c + 1]
    decreases colors - c
  {
    if c + 1 >= colors then ps
    else
      var next := Advance(ps, c, fracs[c], dist, asWritten);
      SeedRounds(next, c + 1, colors, fracs, dist, asWritten)
  }

  /** The points after seeding and the chosen centroids. */
  datatype Seeded = Seeded(points: seq<ColorPoint>, centroids: seq<FloatColor>)

  /** initCentroids: swap the point drawn by `first` into slot 0, run the rounds, and take the
      colours of the first `colors` points as centroids. */
  function InitCentroids(ps: seq<ColorPoint>, colors: nat, first: nat, fracs: seq<real>, dist: Distance, asWritten: bool): (s: Seeded)
    requires 1 <= colors <= |ps| && |fracs| >= colors - 1
    ensures |s.points| == |ps|
    ensures multiset(Entries(s.points)) == multiset(Entries(ps))
    ensures |s.centroids| == colors
    ensures forall i :: 0 <= i < colors ==> s.centroids[i] == s.points[i].color
    ensures s.points[0] == ps[first % |ps|]
  {
    var p0 := Swap(ps, 0, first % |ps|);
    EntriesSwap(ps, 0, first % |ps|);
    var p := SeedRounds(p0, 0, colors, fracs, dist, asWritten);
    Seeded(p, seq(colors, i requires 0 <= i < colors => p[i].color))
  }

  /** The corrected roulette draws a point at positive running distance whenever the draw is in
      [0, 1) and some distance after slot c is positive. */
  lemma DrawLandsPositive(ps: seq<ColorPoint>, c: nat, frac: real, dist: Distance)
    requires c + 1 < |ps| && 0.0 <= frac < 1.0
    requires DistSum(Refresh(ps, c, dist), c + 1, |ps|) > 0.0
    ensures Refresh(ps, c, dist)[Draw(ps, c, frac, dist, false)].distance > 0.0
  {
    RoulettePositive(Refresh(ps, c, dist), c + 1, frac);
  }

  lemma RoulettePositive(q: seq<ColorPoint>, from: nat, frac: real)
    requires from < |q| && 0.0 <= frac < 1.0
    requires DistSum(q, from, |q|) > 0.0
    ensures q[Roulette(q, from, from, 0.0, Scale(frac, DistSum(q, from, |q|)))].distance > 0.0
  {
    var rnd := Scale(frac, DistSum(q, from, |q|));
    RouletteHits(q, from, rnd);
    HitIsPositive(q, from, rnd, Roulette(q, from, from, 0.0, rnd));
  }

  /** So, with Distance(x, x) = 0, the corrected seeding never gives slot c + 1 the colour of
      slot c while some point after slot c is away from the centroids. */
  lemma DrawIsPositive(ps: seq<ColorPoint>, c: nat, frac: real, dist: Distance)
    requires c + 1 < |ps| && 0.0 <= frac < 1.0
    requires DistSum(Refresh(ps, c, dist), c + 1, |ps|) > 0.0
    requires forall x :: dist(x, x) == 0.0
    ensures var r := Advance(ps, c, frac, dist, false);
            r[c + 1].distance > 0.0 && r[c + 1].color != ps[c].color
  {
    DrawLandsPositive(ps, c, frac, dist);
    var q := Refresh(ps, c, dist);
    var next := Draw(ps, c, frac, dist, false);
    assert Entries(q)[next] == Entries(ps)[next];
    assert q[next].distance <= dist(ps[next].color, ps[c].color);
  }

  /** Running distances that are zero from m on add nothing to a sum started before m. */
  lemma {:induction false} DistSumZeroTail(ps: seq<ColorPoint>, from: nat, m: nat, j: nat)
    requires from <= m <= j <= |ps|
    requires forall k :: m <= k < j ==> ps[k].distance == 0.0
    ensures DistSum(ps, from, j) == DistSum(ps, from, m)
    decreases j
  {
    if j > m {
      DistSumZeroTail(ps, from, m, j - 1);
    }
  }

  /** The 16 points ColorCalcMini makes of a block whose pixel 1 has colour b and every other
      pixel colour a. */
  function OddOneOut(a: FloatColor, b: FloatColor): (ps: seq<ColorPoint>)
    ensures |ps| == 16 && ps[1] == ColorPoint(b, 0, 1, MaxFloat64)
    ensures forall i :: 0 <= i < 16 && i != 1 ==> ps[i] == ColorPoint(a, 0, 1, MaxFloat64)
  {
    seq(16, i requires 0 <= i < 16 => ColorPoint(if i == 1 then b else a, 0, 1, MaxFloat64))
  }

  /** As written, the point in slot c + 1 when slot c is filled is never drawn unless it is the
      last one: the roulette starts after it. On the block OddOneOut(a, b) with two colours
      and any first draw that leaves b in slot 1 (15 draws in 16), the points after b are all
      at distance 0 from a, so the roulette falls back to the last slot and the centroids are
      a, a; the corrected roulette picks b. */
  lemma UnseededSlotAsWritten(a: FloatColor, b: FloatColor, dist: Distance, first: nat, frac: real)
    requires dist(b, a) > 0.0 && dist(b, a) < MaxFloat64 && dist(a, a) == 0.0
    requires first % 16 != 1 && 0.0 <= frac < 1.0
    ensures InitCentroids(OddOneOut(a, b), 2, first, [frac], dist, true).centroids == [a, a]
    ensures InitCentroids(OddOneOut(a, b), 2, first, [frac], dist, false).centroids == [a, b]
  {
    var ps := OddOneOut(a, b);
    assert Swap(ps, 0, first % 16) == ps;
    OddOneOutDraws(a, b, dist, frac);
    TwoColorCentroids(ps, first, frac, dist, true);
    TwoColorCentroids(ps, first, frac, dist, false);
    assert Entries(Refresh(ps, 0, dist))[15] == Entries(ps)[15];
    assert Entries(Refresh(ps, 0, dist))[1] == Entries(ps)[1];
  }

  /** With two colours initCentroids has one round: the centroids are the colour of the first
      draw's point and the colour of the point the roulette then picks. */
  lemma TwoColorCentroids(ps: seq<ColorPoint>, first: nat, frac: real, dist: Distance, asWritten: bool)
    requires 2 <= |ps|
    ensures var p0 := Swap(ps, 0, first % |ps|);
            InitCentroids(ps, 2, first, [frac], dist, asWritten).centroids ==
            [p0[0].color, Refresh(p0, 0, dist)[Draw(p0, 0, frac, dist, asWritten)].color]
  {
    var p0 := Swap(ps, 0, first % |ps|);
    var p := SeedRounds(p0, 0, 2, [frac], dist, asWritten);
    assert p == Advance(p0, 0, frac, dist, asWritten);
  }

  /** The roulette on OddOneOut(a, b) after slot 0: started after b, as written, it passes only
      points at distance 0 and falls back to the last slot; started at b it stops there. */
  lemma OddOneOutDraws(a: FloatColor, b: FloatColor, dist: Distance, frac: real)
    requires dist(b, a) > 0.0 && dist(b, a) < MaxFloat64 && dist(a, a) == 0.0
    requires 0.0 <= frac < 1.0
    ensures Draw(OddOneOut(a, b), 0, frac, dist, true) == 15
    ensures Draw(OddOneOut(a, b), 0, frac, dist, false) == 1
  {
    var ps := OddOneOut(a, b);
    var q := Refresh(ps, 0, dist);
    assert q[1].distance == dist(b, a);
    assert forall k :: 2 <= k < 16 ==> q[k].distance == 0.0;
    DistSumZeroTail(q, 1, 2, 16);
    var rnd := Scale(frac, DistSum(q, 1, 16));
    forall k | 2 <= k < 16
      ensures Running(q, 2, k) == 0.0
    {
      DistSumZeroTail(q, 2, 2, k + 1);
    }
    assert Draw(ps, 0, frac, dist, true) == 15;
    assert Running(q, 1, 1) == dist(b, a);
    assert Draw(ps, 0, frac, dist, false) == 1;
  }

  /** The distances of a colour to every centroid. */
  function Scores(color: FloatColor, centroids: seq<FloatColor>, dist: Distance): (s: seq<real>)
    ensures |s| == |centroids| && forall c :: 0 <= c < |centroids| ==> s[c] == dist(color, centroids[c])
  {
    seq(|centroids|, c requires 0 <= c < |centroids| => dist(color, centroids[c]))
  }

  /** The per-point body of calcSegments: a scan over the centroids that starts from the
      point's own cluster and replaces it only with a strictly closer centroid. */
  function Reassign(p: ColorPoint, centroids: seq<FloatColor>, dist: Distance): (q: ColorPoint)
    requires 0 <= p.segment < |centroids|
    ensures q == p.(segment := q.segment)
    ensures 0 <= q.segment < |centroids|
  {
    var best := Scan(p.color, centroids, dist, 0, Pick(p.segment, dist(p.color, centroids[p.segment])));
    p.(segment := best.index)
  }

  /** The centroid loop of calcSegments from centroid c on, `best` being (newSeg, minDist). */
  function Scan(color: FloatColor, centroids: seq<FloatColor>, dist: Distance, c: nat, best: Pick): (r: Pick)
    requires c <= |centroids| && 0 <= best.index < |centroids|
    ensures 0 <= r.index < |centroids|
    decreases |centroids| - c
  {
    if c == |centroids| then best
    else
      var d := dist(color, centroids[c]);
      Scan(color, centroids, dist, c + 1, if d < best.score then Pick(c, d) else best)
  }

  /** The loop is the first-minimum scan of the distances to the centroids. */
  lemma {:induction false} ScanIsFirstMin(color: FloatColor, centroids: seq<FloatColor>, dist: Distance, c: nat, start: Pick)
    requires c <= |centroids| && 0 <= start.index < |centroids|
    ensures var s := Scores(color, centroids, dist);
            Scan(color, centroids, dist, c, FirstMin(s[..c], start)) == FirstMin(s, start)
    decreases |centroids| - c
  {
    var s := Scores(color, centroids, dist);
    if c == |centroids| {
      assert s[..c] == s;
    } else {
      var b := FirstMin(s[..c], start);
      assert s[..c + 1][..c] == s[..c];
      assert FirstMin(s[..c + 1], start) == if s[c] < b.score then Pick(c, s[c]) else b;
      assert 0 <= b.index < |centroids| by {
        if Beaten(s[..c], start) {
        }
      }
      ScanIsFirstMin(color, centroids, dist, c + 1, start);
    }
  }

  /** The new cluster is a nearest centroid; the point stays exactly when its own centroid is
      one of the nearest (ties keep the old cluster), and otherwise moves to the first nearest,
      which is strictly closer. */
  lemma ReassignNearest(p: ColorPoint, centroids: seq<FloatColor>, dist: Distance)
    requires 0 <= p.segment < |centroids|
    ensures var q := Reassign(p, centroids, dist);
            && (forall c :: 0 <= c < |centroids| ==> dist(p.color, centroids[q.segment]) <= dist(p.color, centroids[c]))
            && (q.segment == p.segment <==>
                forall c :: 0 <= c < |centroids| ==> dist(p.color, centroids[p.segment]) <= dist(p.color, centroids[c]))
            && (q.segment != p.segment ==>
                && dist(p.color, centroids[q.segment]) < dist(p.color, centroids[p.segment])
                && forall c :: 0 <= c < q.segment ==> dist(p.color, centroids[q.segment]) < dist(p.color, centroids[c]))
  {
    var s := Scores(p.color, centroids, dist);
    var start := Pick(p.segment, dist(p.color, centroids[p.segment]));
    assert s[..0] == [];
    ScanIsFirstMin(p.color, centroids, dist, 0, start);
    var best := FirstMin(s, start);
    assert Beaten(s, start) ==> best.index != p.segment;
  }

  /** A point already at a nearest centroid stays where it is: the assignment is idempotent. */
  lemma ReassignIdempotent(p: ColorPoint, centroids: seq<FloatColor>, dist: Distance)
    requires 0 <= p.segment < |centroids|
    ensures Reassign(Reassign(p, centroids, dist), centroids, dist) == Reassign(p, centroids, dist)
  {
    ReassignNearest(p, centroids, dist);
    ReassignNearest(Reassign(p, centroids, dist), centroids, dist);
  }

  /** The number of points in [lo, hi) whose cluster differs between a and b. */
  function Moved(a: seq<ColorPoint>, b: seq<ColorPoint>, lo: nat, hi: nat): nat
    requires lo <= hi <= |a| && hi <= |b|
    decreases hi
  {
    if hi == lo then 0
    else Moved(a, b, lo, hi - 1) + if a[hi - 1].segment != b[hi - 1].segment then 1 else 0
  }

  /** No point moved exactly when the count is zero. */
  lemma {:induction false} MovedZero(a: seq<ColorPoint>, b: seq<ColorPoint>, lo: nat, hi: nat)
    requires lo <= hi <= |a| && hi <= |b|
    ensures Moved(a, b, lo, hi) == 0 <==> forall i :: lo <= i < hi ==> a[i].segment == b[i].segment
    decreases hi
  {
    if hi > lo {
      MovedZero(a, b, lo, hi - 1);
    }
  }

  /** The running `pointsChanged` of calcSegments after the points in [lo, hi). */
  function Changed(ps: seq<ColorPoint>, centroids: seq<FloatColor>, dist: Distance, lo: nat, hi: nat): nat
    requires lo <= hi <= |ps|
    requires forall i :: lo <= i < hi ==> 0 <= ps[i].segment < |centroids|
    decreases hi
  {
    if hi == lo then 0
    else Changed(ps, centroids, dist, lo, hi - 1) +
         if Reassign(ps[hi - 1], centroids, dist).segment != ps[hi - 1].segment then 1 else 0
  }

  /** calcSegments over the points in [lo, hi), which is what one worker does with its range:
      the reassigned points and how many of them changed cluster. */
  function Assign(ps: seq<ColorPoint>, centroids: seq<FloatColor>, dist: Distance, lo: nat, hi: nat): (r: (seq<ColorPoint>, nat))
    requires lo <= hi <= |ps|
    requires forall i :: lo <= i < hi ==> 0 <= ps[i].segment < |centroids|
    ensures |r.0| == |ps|
    ensures forall i :: 0 <= i < |ps| && !(lo <= i < hi) ==> r.0[i] == ps[i]
    ensures forall i :: lo <= i < hi ==> r.0[i] == Reassign(ps[i], centroids, dist)
    ensures SegmentsIn(ps, |centroids|) ==> SegmentsIn(r.0, |centroids|)
  {
    (seq(|ps|, i requires 0 <= i < |ps| => if lo <= i < hi then Reassign(ps[i], centroids, dist) else ps[i]),
     Changed(ps, centroids, dist, lo, hi))
  }

  lemma {:induction false} ChangedIsMoved(ps: seq<ColorPoint>, centroids: seq<FloatColor>, dist: Distance, lo: nat, hi: nat, k: nat)
    requires lo <= k <= hi <= |ps|
    requires forall i :: lo <= i < hi ==> 0 <= ps[i].segment < |centroids|
    ensures Changed(ps, centroids, dist, lo, k) == Moved(ps, Assign(ps, centroids, dist, lo, hi).0, lo, k)
    decreases k
  {
    if k > lo {
      ChangedIsMoved(ps, centroids, dist, lo, hi, k - 1);
    }
  }

  /** pointsChanged is the number of points in the range whose cluster changed. */
  lemma AssignCountsMoves(ps: seq<ColorPoint>, centroids: seq<FloatColor>, dist: Distance, lo: nat, hi: nat)
    requires lo <= hi <= |ps|
    requires forall i :: lo <= i < hi ==> 0 <= ps[i].segment < |centroids|
    ensures var r := Assign(ps, centroids, dist, lo, hi);
            r.1 == Moved(ps, r.0, lo, hi)
  {
    ChangedIsMoved(ps, centroids, dist, lo, hi, hi);
  }

  /** calcSegments over all points keeps every cluster in range, and moves a point only to a
      strictly closer centroid. */
  lemma AssignKeepsSegments(ps: seq<ColorPoint>, centroids: seq<FloatColor>, dist: Distance)
    requires SegmentsIn(ps, |centroids|)
    ensures var r := Assign(ps, centroids, dist, 0, |ps|).0;
            && SegmentsIn(r, |centroids|)
            && forall i :: 0 <= i < |ps| && r[i].segment != ps[i].segment ==>
                 dist(ps[i].color, centroids[r[i].segment]) < dist(ps[i].color, centroids[ps[i].segment])
  {
    forall i | 0 <= i < |ps|
      ensures var q := Reassign(ps[i], centroids, dist);
              q.segment != ps[i].segment ==> dist(ps[i].color, centroids[q.segment]) < dist(ps[i].color, centroids[ps[i].segment])
    {
      ReassignNearest(ps[i], centroids, dist);
    }
  }

  /** A second calcSegments with the same centroids moves nothing. */
  lemma AssignIdempotent(ps: seq<ColorPoint>, centroids: seq<FloatColor>, dist: Distance)
    requires SegmentsIn(ps, |centroids|)
    ensures var r := Assign(ps, centroids, dist, 0, |ps|).0;
            var r2 := Assign(r, centroids, dist, 0, |ps|);
            r2.0 == r && r2.1 == 0
  {
    var r := Assign(ps, centroids, dist, 0, |ps|).0;
    var r2 := Assign(r, centroids, dist, 0, |ps|);
    forall i | 0 <= i < |ps|
      ensures r2.0[i] == r[i]
    {
      ReassignIdempotent(ps[i], centroids, dist);
    }
    AssignCountsMoves(r, centroids, dist, 0, |ps|);
    MovedZero(r, r2.0, 0, |ps|);
  }

  /** The total count of the points in cluster s. */
  function Size(ps: seq<ColorPoint>, s: int): nat
  {
    if |ps| == 0 then 0
    else Size(ps[..|ps| - 1], s) + if ps[|ps| - 1].segment == s then ps[|ps| - 1].count else 0
  }

  function AddColor(a: FloatColor, b: FloatColor): FloatColor
  {
    FloatColor(a.r + b.r, a.g + b.g, a.b + b.b)
  }

  function ScaleColor(a: FloatColor, k: real): FloatColor
  {
    FloatColor(a.r * k, a.g * k, a.b * k)
  }

  /** The count-weighted colour sum of cluster s. */
  function Weighted(ps: seq<ColorPoint>, s: int): FloatColor
  {
    if |ps| == 0 then FloatColor(0.0, 0.0, 0.0)
    else
      var last := ps[|ps| - 1];
      AddColor(Weighted(ps[..|ps| - 1], s),
               if last.segment == s then ScaleColor(last.color, last.count as real) else FloatColor(0.0, 0.0, 0.0))
  }

  /** The colour w / n. */
  function Mean(w: FloatColor, n: real): (m: FloatColor)
    requires n > 0.0
    ensures ScaleColor(m, n) == w
  {
    var m := FloatColor(w.r / n, w.g / n, w.b / n);
    assert m.r * n == w.r && m.g * n == w.g && m.b * n == w.b;
    m
  }

  lemma MeanOfScale(c: FloatColor, n: real)
    requires n > 0.0
    ensures Mean(ScaleColor(c, n), n) == c
  {
  }

  /** calcCentroids: each non-empty cluster's centroid becomes the count-weighted mean of its
      colours; an empty cluster keeps its centroid. */
  function CalcCentroids(ps: seq<ColorPoint>, centroids: seq<FloatColor>): (r: seq<FloatColor>)
    requires SegmentsIn(ps, |centroids|)
    ensures |r| == |centroids|
    ensures forall i :: 0 <= i < |centroids| && Size(ps, i) == 0 ==> r[i] == centroids[i]
    ensures forall i :: 0 <= i < |centroids| && Size(ps, i) > 0 ==>
              ScaleColor(r[i], Size(ps, i) as real) == Weighted(ps, i)
  {
    seq(|centroids|, i requires 0 <= i < |centroids| =>
      if Size(ps, i) == 0 then centroids[i] else Mean(Weighted(ps, i), Size(ps, i) as real))
  }

  /** A cluster whose points all have one colour has as weighted sum that colour times the
      cluster's size. */
  lemma {:induction false} WeightedUniform(ps: seq<ColorPoint>, s: int, color: FloatColor)
    requires forall i :: 0 <= i < |ps| && ps[i].segment == s ==> ps[i].color == color
    ensures Weighted(ps, s) == ScaleColor(color, Size(ps, s) as real)
  {
    if |ps| == 0 {
      assert ScaleColor(color, 0.0) == FloatColor(0.0, 0.0, 0.0);
    } else {
      var init := ps[..|ps| - 1];
      var last := ps[|ps| - 1];
      assert forall i :: 0 <= i < |init| ==> init[i] == ps[i];
      WeightedUniform(init, s, color);
      var n := Size(init, s);
      var w := ScaleColor(color, n as real);
      if last.segment == s {
        assert Weighted(ps, s) == AddColor(w, ScaleColor(color, last.count as real));
        assert Size(ps, s) == n + last.count;
        ScaleAdd(color, n as real, last.count as real, Size(ps, s) as real);
      } else {
        assert Weighted(ps, s) == AddColor(w, FloatColor(0.0, 0.0, 0.0)) == w;
        assert Size(ps, s) == n;
      }
    }
  }

  lemma ScaleAdd(c: FloatColor, n: real, k: real, m: real)
    requires m == n + k
    ensures AddColor(ScaleColor(c, n), ScaleColor(c, k)) == ScaleColor(c, m)
  {
    assert c.r * n + c.r * k == c.r * m;
    assert c.g * n + c.g * k == c.g * m;
    assert c.b * n + c.b * k == c.b * m;
  }

  /** A non-empty cluster of one colour gets that colour as its centroid. */
  lemma CalcCentroidsUniform(ps: seq<ColorPoint>, centroids: seq<FloatColor>, s: int, color: FloatColor)
    requires SegmentsIn(ps, |centroids|) && 0 <= s < |centroids|
    requires Size(ps, s) > 0
    requires forall i :: 0 <= i < |ps| && ps[i].segment == s ==> ps[i].color == color
    ensures CalcCentroids(ps, centroids)[s] == color
  {
    WeightedUniform(ps, s, color);
    MeanOfScale(color, Size(ps, s) as real);
  }

  /** CalcError with `err(x, y)` for sqrt(x.Distance(y)): the count-weighted error of every point
      against its centroid. */
  function CalcError(ps: seq<ColorPoint>, centroids: seq<FloatColor>, err: Distance): real
    requires SegmentsIn(ps, |centroids|)
  {
    if |ps| == 0 then 0.0
    else
      var last := ps[|ps| - 1];
      CalcError(ps[..|ps| - 1], centroids, err) + err(last.color, centroids[last.segment]) * last.count as real
  }

  /** The error is non-negative, and zero when every point sits on its centroid. */
  lemma {:induction false} CalcErrorBounds(ps: seq<ColorPoint>, centroids: seq<FloatColor>, err: Distance)
    requires SegmentsIn(ps, |centroids|)
    requires forall x, y :: err(x, y) >= 0.0
    requires forall x :: err(x, x) == 0.0
    ensures CalcError(ps, centroids, err) >= 0.0
    ensures (forall i :: 0 <= i < |ps| ==> ps[i].color == centroids[ps[i].segment]) ==> CalcError(ps, centroids, err) == 0.0
  {
    if |ps| > 0 {
      var init := ps[..|ps| - 1];
      CalcErrorBounds(init, centroids, err);
      var last := ps[|ps| - 1];
      assert err(last.color, centroids[last.segment]) * last.count as real >= 0.0;
      assert (forall i :: 0 <= i < |ps| ==> ps[i].color == centroids[ps[i].segment]) ==>
             forall i :: 0 <= i < |init| ==> init[i].color == centroids[init[i].segment];
    }
  }

  datatype State = State(points: seq<ColorPoint>, centroids: seq<FloatColor>)

  predicate ValidState(st: State)
  {
    SegmentsIn(st.points, |st.centroids|)
  }

  /** How calcSegments covers the points: in one sequential pass (ColorCalcMini), or split
      over the ranges of `count` goroutines (ColorCalc), where a single worker gets no range
      and so reassigns nothing. */
  datatype Segmenter = Sequential | Workers(count: int)

  /** Which Run is meant: `asWritten` picks the roulette start of the source (else the
      intended one), `how` the calcSegments of the type. */
  datatype Mode = Mode(asWritten: bool, how: Segmenter)

  /** The intended quantizer: the corrected roulette and a pass over every point. */
  const Intended := Mode(false, Sequential)

  /** calcSegments of either type: the sequential pass over every point, which several
      workers' ranges add up to, or nothing at all for a single worker. */
  function Segments(ps: seq<ColorPoint>, centroids: seq<FloatColor>, dist: Distance, how: Segmenter): (o: (seq<ColorPoint>, nat))
    requires SegmentsIn(ps, |centroids|)
    ensures |o.0| == |ps| && SegmentsIn(o.0, |centroids|)
    ensures o.1 == 0 <==> o.0 == ps
    ensures how.Sequential? || how.count > 1 ==> o == Assign(ps, centroids, dist, 0, |ps|)
    ensures how.Workers? && how.count <= 1 ==> o == (ps, 0)
  {
    if how.Workers? && how.count <= 1 then (ps, 0)
    else
      var r := Assign(ps, centroids, dist, 0, |ps|);
      AssignKeepsSegments(ps, centroids, dist);
      AssignCountsMoves(ps, centroids, dist, 0, |ps|);
      MovedZero(ps, r.0, 0, |ps|);
      r
  }

  /** The points are at a fixed point of calcSegments. */
  predicate Converged(st: State, dist: Distance, how: Segmenter)
    requires ValidState(st)
  {
    Segments(st.points, st.centroids, dist, how).1 == 0
  }

  /** The state after the step loop, and whether it ended by `pointsChanged == 0`. */
  datatype Outcome = Outcome(state: State, stopped: bool)

  /** The step loop of Run: up to `steps` rounds of calcSegments then calcCentroids, leaving
      early once calcSegments moves nothing. A single worker moves nothing, so its loop leaves
      the state as it found it. */
  function Steps(st: State, steps: int, dist: Distance, how: Segmenter): (o: Outcome)
    requires ValidState(st)
    ensures ValidState(o.state) && |o.state.points| == |st.points| && |o.state.centroids| == |st.centroids|
    ensures o.stopped ==> Converged(o.state, dist, how)
    ensures how.Workers? && how.count <= 1 ==> o.state == st
    decreases steps
  {
    if steps <= 0 then Outcome(st, false)
    else
      var (ps, n) := Segments(st.points, st.centroids, dist, how);
      if n == 0 then Outcome(State(ps, st.centroids), true)
      else Steps(State(ps, CalcCentroids(ps, st.centroids)), steps - 1, dist, how)
  }

  /** An early stop leaves the closing calcSegments of the attempt nothing to do. */
  lemma StepsStopFixed(st: State, steps: int, dist: Distance, how: Segmenter)
    requires ValidState(st)
    ensures var o := Steps(st, steps, dist, how);
            o.stopped ==> Segments(o.state.points, o.state.centroids, dist, how).0 == o.state.points
  {
  }

  /** The random draws of one attempt: rand.Uint64() for the first centroid and rand.Float64()
      for each later one. */
  datatype Draws = Draws(first: nat, fracs: seq<real>)

  datatype Attempted = Attempted(state: State, error: real)

  /** One attempt of Run: seed, step, a closing calcSegments, and the error. With a single
      worker no point ever leaves the cluster it came in with: the attempt only reorders the
      points. */
  function Attempt(ps: seq<ColorPoint>, colors: nat, d: Draws, steps: int, dist: Distance, err: Distance, mode: Mode): (a: Attempted)
    requires 1 <= colors <= |ps| && |d.fracs| >= colors - 1
    requires SegmentsIn(ps, colors)
    ensures |a.state.points| == |ps| && |a.state.centroids| == colors
    ensures SegmentsIn(a.state.points, colors)
    ensures a.error == CalcError(a.state.points, a.state.centroids, err)
  {
    var s := InitCentroids(ps, colors, d.first, d.fracs, dist, mode.asWritten);
    SegmentsInPermutation(s.points, ps, colors);
    var o := Steps(State(s.points, s.centroids), steps, dist, mode.how);
    var (q, _) := Segments(o.state.points, o.state.centroids, dist, mode.how);
    Attempted(State(q, o.state.centroids), CalcError(q, o.state.centroids, err))
  }

  /** The best-attempt bookkeeping of Run. */
  datatype Best = Best(errors: seq<real>, bestError: real, bestAtt: int, bestPalette: seq<FloatColor>)

  /** bestAtt is the first attempt of least error and bestError its error (attempts count
      from 1); before any attempt everything is zero. */
  predicate BestOf(b: Best)
  {
    if |b.errors| == 0 then b.bestAtt == 0
    else
      && 1 <= b.bestAtt <= |b.errors|
      && b.bestError == b.errors[b.bestAtt - 1]
      && (forall j :: 0 <= j < |b.errors| ==> b.bestError <= b.errors[j])
      && (forall j :: 0 <= j < b.bestAtt - 1 ==> b.bestError < b.errors[j])
  }

  /** The bookkeeping agrees with the first-minimum scan of the errors started at the first
      error. */
  lemma BestIsFirstMin(b: Best)
    requires BestOf(b) && |b.errors| > 0
    ensures FirstMin(b.errors, Pick(0, b.errors[0])) == Pick(b.bestAtt - 1, b.bestError)
  {
    if b.bestAtt > 1 {
      FirstMinUnique(b.errors, Pick(0, b.errors[0]), Pick(b.bestAtt - 1, b.bestError));
    }
  }

  /** `if a == 1 || colorErr < cc.bestError { ... }; cc.errors = append(cc.errors, colorErr)`. */
  function Record(b: Best, a: int, error: real, palette: seq<FloatColor>): (r: Best)
    requires BestOf(b) && a == |b.errors| + 1
    ensures BestOf(r) && r.errors == b.errors + [error]
    ensures r.bestAtt == a ==> r.bestPalette == palette
    ensures r.bestAtt != a ==> r.bestAtt == b.bestAtt && r.bestPalette == b.bestPalette
  {
    if a == 1 || error < b.bestError then Best(b.errors + [error], error, a, palette)
    else b.(errors := b.errors + [error])
  }

  /** The attempts of Run, one per draw, each starting from the points the previous one left. */
  function Attempts(ps: seq<ColorPoint>, colors: nat, ds: seq<Draws>, steps: int, dist: Distance,
                    err: Distance, mode: Mode): (r: seq<Attempted>)
    requires 1 <= colors <= |ps| && SegmentsIn(ps, colors)
    requires forall i :: 0 <= i < |ds| ==> |ds[i].fracs| >= colors - 1
    ensures |r| == |ds|
    ensures forall a :: a in r ==> |a.state.centroids| == colors
    decreases |ds|
  {
    if |ds| == 0 then []
    else
      var t := Attempt(ps, colors, ds[0], steps, dist, err, mode);
      [t] + Attempts(t.state.points, colors, ds[1..], steps, dist, err, mode)
  }

  /** The bookkeeping of Run over a sequence of outcomes, in order: one error appended per
      outcome, the record still names the first least one, and the palette kept is the one of
      the outcome it names. */
  function RecordAll(b: Best, outs: seq<Attempted>): (r: Best)
    requires BestOf(b)
    ensures BestOf(r) && |r.errors| == |b.errors| + |outs|
    ensures forall i :: 0 <= i < |b.errors| ==> r.errors[i] == b.errors[i]
    ensures forall i :: 0 <= i < |outs| ==> r.errors[|b.errors| + i] == outs[i].error
    ensures r.bestAtt > |b.errors| ==> r.bestPalette == outs[r.bestAtt - |b.errors| - 1].state.centroids
    ensures r.bestAtt <= |b.errors| ==> r.bestAtt == b.bestAtt && r.bestPalette == b.bestPalette
    decreases |outs|
  {
    if |outs| == 0 then b
    else
      RecordAll(Record(b, |b.errors| + 1, outs[0].error, outs[0].state.centroids), outs[1..])
  }

  /** The bookkeeping of Run over its outcomes, from an empty record: one error per outcome,
      bestAtt the first outcome of least error (counting from 1) and the palette that outcome
      ended with. */
  function Tally(outs: seq<Attempted>, colors: nat): (b: Best)
    requires forall a :: a in outs ==> |a.state.centroids| == colors
    ensures BestOf(b) && |b.errors| == |outs|
    ensures forall i :: 0 <= i < |outs| ==> b.errors[i] == outs[i].error
    ensures |outs| > 0 ==>
              && b.bestPalette == outs[b.bestAtt - 1].state.centroids
              && |b.bestPalette| == colors
  {
    var b := RecordAll(Best([], 0.0, 0, []), outs);
    if |outs| > 0 then
      assert outs[b.bestAtt - 1] in outs;
      b
    else b
  }

  /** The attempts of a run of `attempts` attempts, one per draw, in order. */
  function Outcomes(ps: seq<ColorPoint>, colors: nat, draws: seq<Draws>, attempts: int, steps: int,
                    dist: Distance, err: Distance, mode: Mode): (r: seq<Attempted>)
    requires 1 <= colors <= |ps| && SegmentsIn(ps, colors)
    requires forall i :: 0 <= i < |draws| ==> |draws[i].fracs| >= colors - 1
    requires 0 <= attempts <= |draws|
    ensures |r| == attempts
    ensures forall a :: a in r ==> |a.state.centroids| == colors
  {
    Attempts(ps, colors, draws[..attempts], steps, dist, err, mode)
  }

  /** Run: one error per attempt, bestError their minimum and bestAtt the first attempt that
      reaches it, which is the first-minimum scan of the errors started at the first one; the
      best palette has one colour per cluster. A negative attempt count makes `make` panic,
      so the count is at least 0. */
  function Run(ps: seq<ColorPoint>, colors: nat, draws: seq<Draws>, attempts: int, steps: int,
               dist: Distance, err: Distance, mode: Mode): (b: Best)
    requires 1 <= colors <= |ps| && SegmentsIn(ps, colors)
    requires forall i :: 0 <= i < |draws| ==> |draws[i].fracs| >= colors - 1
    requires 0 <= attempts <= |draws|
    ensures |b.errors| == attempts
    ensures attempts == 0 ==> b.bestAtt == 0
    ensures attempts > 0 ==>
              && 1 <= b.bestAtt <= attempts
              && |b.bestPalette| == colors
              && FirstMin(b.errors, Pick(0, b.errors[0])) == Pick(b.bestAtt - 1, b.bestError)
  {
    var b := Tally(Attempts(ps, colors, draws[..attempts], steps, dist, err, mode), colors);
    if attempts > 0 then BestIsFirstMin(b); b else b
  }

  /** The errors Run records are those of its attempts, in order, and the palette it keeps is
      the centroids its best attempt ended with. */
  lemma RunRecords(ps: seq<ColorPoint>, colors: nat, draws: seq<Draws>, attempts: int, steps: int,
                   dist: Distance, err: Distance, mode: Mode)
    requires 1 <= colors <= |ps| && SegmentsIn(ps, colors)
    requires forall i :: 0 <= i < |draws| ==> |draws[i].fracs| >= colors - 1
    requires 0 <= attempts <= |draws|
    ensures forall i :: 0 <= i < attempts ==>
              Run(ps, colors, draws, attempts, steps, dist, err, mode).errors[i] ==
              Outcomes(ps, colors, draws, attempts, steps, dist, err, mode)[i].error
    ensures attempts > 0 ==>
              Run(ps, colors, draws, attempts, steps, dist, err, mode).bestPalette ==
              Outcomes(ps, colors, draws, attempts, steps, dist, err, mode)[Run(ps, colors, draws, attempts, steps, dist, err, mode).bestAtt - 1].state.centroids
  {
  }

  /** What the bookkeeping of a run of `attempts` attempts says about its best attempt. */
  lemma RunBest(b: Best, attempts: nat)
    requires BestOf(b) && |b.errors| == attempts
    ensures attempts == 0 ==> b.bestAtt == 0
    ensures attempts > 0 ==>
              && 1 <= b.bestAtt <= attempts
              && FirstMin(b.errors, Pick(0, b.errors[0])) == Pick(b.bestAtt - 1, b.bestError)
  {
    if attempts > 0 {
      BestIsFirstMin(b);
    }
  }

  /** Two point lists with the same entries agree on which clusters are used: if every point
      of one is in cluster s, so is every point of the other. */
  lemma SameEntriesSameCluster(a: seq<ColorPoint>, b: seq<ColorPoint>, s: int)
    requires multiset(Entries(a)) == multiset(Entries(b))
    requires forall j :: 0 <= j < |b| ==> b[j].segment == s
    ensures forall i :: 0 <= i < |a| ==> a[i].segment == s
  {
    forall i | 0 <= i < |a|
      ensures a[i].segment == s
    {
      assert Entries(a)[i] == Entry(a[i]);
      assert Entry(a[i]) in multiset(Entries(b));
      var j :| 0 <= j < |b| && Entries(b)[j] == Entry(a[i]);
    }
  }

  /** With a single worker an attempt only reorders the points it is given: seeding swaps,
      and neither the step loop nor the closing calcSegments moves a point. */
  lemma SingleWorkerAttempt(ps: seq<ColorPoint>, colors: nat, d: Draws, steps: int, dist: Distance, err: Distance,
                            asWritten: bool, workers: int)
    requires 1 <= colors <= |ps| && |d.fracs| >= colors - 1
    requires SegmentsIn(ps, colors) && workers <= 1
    ensures var a := Attempt(ps, colors, d, steps, dist, err, Mode(asWritten, Workers(workers)));
            multiset(Entries(a.state.points)) == multiset(Entries(ps))
  {
    var s := InitCentroids(ps, colors, d.first, d.fracs, dist, asWritten);
    SegmentsInPermutation(s.points, ps, colors);
    var o := Steps(State(s.points, s.centroids), steps, dist, Workers(workers));
    assert o.state.points == s.points;
  }

  /** Every point is in cluster 0. */
  predicate Unclustered(ps: seq<ColorPoint>)
  {
    forall i :: 0 <= i < |ps| ==> ps[i].segment == 0
  }

  /** With a single worker an attempt on points all in cluster 0 leaves them all there. */
  lemma SingleWorkerStaysUnclustered(ps: seq<ColorPoint>, colors: nat, d: Draws, steps: int, dist: Distance, err: Distance,
                                     asWritten: bool, workers: int)
    requires 1 <= colors <= |ps| && |d.fracs| >= colors - 1
    requires SegmentsIn(ps, colors) && workers <= 1 && Unclustered(ps)
    ensures var a := Attempt(ps, colors, d, steps, dist, err, Mode(asWritten, Workers(workers)));
            Unclustered(a.state.points) && SegmentsIn(a.state.points, colors)
  {
    var a := Attempt(ps, colors, d, steps, dist, err, Mode(asWritten, Workers(workers)));
    SingleWorkerAttempt(ps, colors, d, steps, dist, err, asWritten, workers);
    SameEntriesSameCluster(a.state.points, ps, 0);
  }

  /** With a single worker Run never clusters: points that all come in cluster 0 are all
      still in cluster 0 after every attempt. */
  lemma {:induction false} SingleWorkerNeverClusters(ps: seq<ColorPoint>, colors: nat, ds: seq<Draws>, steps: int, dist: Distance,
                                                     err: Distance, asWritten: bool, workers: int)
    requires 1 <= colors <= |ps| && SegmentsIn(ps, colors) && workers <= 1
    requires forall i :: 0 <= i < |ds| ==> |ds[i].fracs| >= colors - 1
    requires Unclustered(ps)
    ensures forall a :: a in Attempts(ps, colors, ds, steps, dist, err, Mode(asWritten, Workers(workers))) ==>
                        Unclustered(a.state.points)
    decreases |ds|
  {
    var mode := Mode(asWritten, Workers(workers));
    if |ds| > 0 {
      var t := Attempt(ps, colors, ds[0], steps, dist, err, mode);
      SingleWorkerStaysUnclustered(ps, colors, ds[0], steps, dist, err, asWritten, workers);
      SingleWorkerNeverClusters(t.state.points, colors, ds[1..], steps, dist, err, asWritten, workers);
      var rest := Attempts(t.state.points, colors, ds[1..], steps, dist, err, mode);
      assert Attempts(ps, colors, ds, steps, dist, err, mode) == [t] + rest;
    }
  }
}
