/** The candidate offsets of the block motion search (encoder/motion.go) and the spiral walk
    they follow. */
module MotionOffsets {

  /** A candidate displacement of a block. */
  datatype Offset = Offset(x: int, y: int)

  /** The search order of `offsets`: the zero offset, then the squares at Chebyshev distance
      1, 2, ..., 6, each walked clockwise from its top-left corner. */
  const Offsets: seq<Offset> :=
    OffsetsRing0 + OffsetsRing1 + OffsetsRing2 + OffsetsRing3 + OffsetsRing4 + OffsetsRing5 + OffsetsRing6

  const OffsetsRing0: seq<Offset> :=
      [Offset(0, 0)]

  const OffsetsRing1: seq<Offset> :=
      [Offset(-1, -1), Offset(0, -1), Offset(1, -1), Offset(1, 0), Offset(1, 1), Offset(0, 1), Offset(-1, 1), Offset(-1, 0)]

  const OffsetsRing2: seq<Offset> :=
      [Offset(-2, -2), Offset(-1, -2), Offset(0, -2), Offset(1, -2), Offset(2, -2), Offset(2, -1), Offset(2, 0), Offset(2, 1)] +
      [Offset(2, 2), Offset(1, 2), Offset(0, 2), Offset(-1, 2), Offset(-2, 2), Offset(-2, 1), Offset(-2, 0), Offset(-2, -1)]

  const OffsetsRing3: seq<Offset> :=
      [Offset(-3, -3), Offset(-2, -3), Offset(-1, -3), Offset(0, -3), Offset(1, -3), Offset(2, -3), Offset(3, -3), Offset(3, -2)] +
      [Offset(3, -1), Offset(3, 0), Offset(3, 1), Offset(3, 2), Offset(3, 3), Offset(2, 3), Offset(1, 3), Offset(0, 3)] +
      [Offset(-1, 3), Offset(-2, 3), Offset(-3, 3), Offset(-3, 2), Offset(-3, 1), Offset(-3, 0), Offset(-3, -1), Offset(-3, -2)]

  const OffsetsRing4: seq<Offset> :=
      [Offset(-4, -4), Offset(-3, -4), Offset(-2, -4), Offset(-1, -4), Offset(0, -4), Offset(1, -4), Offset(2, -4), Offset(3, -4)] +
      [Offset(4, -4), Offset(4, -3), Offset(4, -2), Offset(4, -1), Offset(4, 0), Offset(4, 1), Offset(4, 2), Offset(4, 3)] +
      [Offset(4, 4), Offset(3, 4), Offset(2, 4), Offset(1, 4), Offset(0, 4), Offset(-1, 4), Offset(-2, 4), Offset(-3, 4)] +
      [Offset(-4, 4), Offset(-4, 3), Offset(-4, 2), Offset(-4, 1), Offset(-4, 0), Offset(-4, -1), Offset(-4, -2), Offset(-4, -3)]

  const OffsetsRing5: seq<Offset> :=
      [Offset(-5, -5), Offset(-4, -5), Offset(-3, -5), Offset(-2, -5), Offset(-1, -5), Offset(0, -5), Offset(1, -5), Offset(2, -5)] +
      [Offset(3, -5), Offset(4, -5), Offset(5, -5), Offset(5, -4), Offset(5, -3), Offset(5, -2), Offset(5, -1), Offset(5, 0)] +
      [Offset(5, 1), Offset(5, 2), Offset(5, 3), Offset(5, 4), Offset(5, 5), Offset(4, 5), Offset(3, 5), Offset(2, 5)] +
      [Offset(1, 5), Offset(0, 5), Offset(-1, 5), Offset(-2, 5), Offset(-3, 5), Offset(-4, 5), Offset(-5, 5), Offset(-5, 4)] +
      [Offset(-5, 3), Offset(-5, 2), Offset(-5, 1), Offset(-5, 0), Offset(-5, -1), Offset(-5, -2), Offset(-5, -3), Offset(-5, -4)]

  const OffsetsRing6: seq<Offset> :=
      [Offset(-6, -6), Offset(-5, -6), Offset(-4, -6), Offset(-3, -6), Offset(-2, -6), Offset(-1, -6), Offset(0, -6), Offset(1, -6)] +
      [Offset(2, -6), Offset(3, -6), Offset(4, -6), Offset(5, -6), Offset(6, -6), Offset(6, -5), Offset(6, -4), Offset(6, -3)] +
      [Offset(6, -2), Offset(6, -1), Offset(6, 0), Offset(6, 1), Offset(6, 2), Offset(6, 3), Offset(6, 4), Offset(6, 5)] +
      [Offset(6, 6), Offset(5, 6), Offset(4, 6), Offset(3, 6), Offset(2, 6), Offset(1, 6), Offset(0, 6), Offset(-1, 6)] +
      [Offset(-2, 6), Offset(-3, 6), Offset(-4, 6), Offset(-5, 6), Offset(-6, 6), Offset(-6, 5), Offset(-6, 4), Offset(-6, 3)] +
      [Offset(-6, 2), Offset(-6, 1), Offset(-6, 0), Offset(-6, -1), Offset(-6, -2), Offset(-6, -3), Offset(-6, -4), Offset(-6, -5)]

  function Abs(v: int): nat { if v < 0 then -v else v }

  /** The Chebyshev distance of an offset from the origin: the ring it lies on. */
  function Ring(o: Offset): nat { if Abs(o.x) >= Abs(o.y) then Abs(o.x) else Abs(o.y) }

  /** An offset the search can reach: within six pixels in both directions. */
  predicate InWindow(o: Offset) { -6 <= o.x <= 6 && -6 <= o.y <= 6 }

  /** The number of offsets at distance k. */
  function RingSize(k: nat): nat { if k == 0 then 1 else 8 * k }

  /** The number of offsets closer than k: the (2k-1) x (2k-1) square. */
  function RingStart(k: nat): nat { if k == 0 then 0 else (2 * k - 1) * (2 * k - 1) }

  lemma RingStartStep(k: nat)
    ensures RingStart(k + 1) == RingStart(k) + RingSize(k)
  {
    if k > 0 {
      assert (2 * k + 1) * (2 * k + 1) == (2 * k - 1) * (2 * k - 1) + 8 * k;
    }
  }

  /** Step p of the clockwise walk round ring k: along the top edge, down the right edge,
      back along the bottom edge and up the left edge. */
  function Walk(k: nat, p: int): Offset
  {
    var k: int := k;
    if p <= 2 * k then Offset(-k + p, -k)
    else if p <= 4 * k then Offset(k, -k + (p - 2 * k))
    else if p <= 6 * k then Offset(k - (p - 4 * k), k)
    else Offset(-k, k - (p - 6 * k))
  }

  /** The step at which the walk round its ring reaches o. */
  function Step(o: Offset): int
  {
    var k: int := Ring(o);
    if o.y == -k then o.x + k
    else if o.x == k then 2 * k + (o.y + k)
    else if o.y == k then 4 * k + (k - o.x)
    else 6 * k + (k - o.y)
  }

  /** The walk stays on its ring and visits each step's offset once. */
  lemma WalkOnRing(k: nat, p: int)
    requires 0 <= p < RingSize(k)
    ensures Ring(Walk(k, p)) == k && Step(Walk(k, p)) == p
  {
  }

  /** Every offset is visited by the walk round its own ring. */
  lemma WalkCovers(o: Offset)
    ensures 0 <= Step(o) < RingSize(Ring(o))
    ensures Walk(Ring(o), Step(o)) == o
  {
  }

  lemma Ring1Walk()
    ensures |OffsetsRing1| == RingSize(1)
    ensures forall p :: 0 <= p < 8 ==> OffsetsRing1[p] == Walk(1, p)
  {
    forall p | 0 <= p < 8 ensures OffsetsRing1[p] == Walk(1, p) {
      assert p == 0 || p == 1 || p == 2 || p == 3 || p == 4 || p == 5 || p == 6 || p == 7;
    }
  }

  lemma Ring2Walk()
    ensures |OffsetsRing2| == RingSize(2)
    ensures forall p :: 0 <= p < 16 ==> OffsetsRing2[p] == Walk(2, p)
  {
    forall p | 0 <= p < 16 ensures OffsetsRing2[p] == Walk(2, p) {
      assert p == 0 || p == 1 || p == 2 || p == 3 || p == 4 || p == 5 || p == 6 || p == 7 || p == 8 || p == 9 || p == 10 || p == 11 ||
        p == 12 || p == 13 || p == 14 || p == 15;
    }
  }

  lemma Ring3Walk()
    ensures |OffsetsRing3| == RingSize(3)
    ensures forall p :: 0 <= p < 24 ==> OffsetsRing3[p] == Walk(3, p)
  {
    forall p | 0 <= p < 24 ensures OffsetsRing3[p] == Walk(3, p) {
      assert p == 0 || p == 1 || p == 2 || p == 3 || p == 4 || p == 5 || p == 6 || p == 7 || p == 8 || p == 9 || p == 10 || p == 11 ||
        p == 12 || p == 13 || p == 14 || p == 15 || p == 16 || p == 17 || p == 18 || p == 19 || p == 20 || p == 21 || p == 22 || p == 23;
    }
  }

  lemma Ring4WalkA()
    ensures |OffsetsRing4| == RingSize(4)
    ensures forall p :: 0 <= p < 16 ==> OffsetsRing4[p] == Walk(4, p)
  {
    forall p | 0 <= p < 16 ensures OffsetsRing4[p] == Walk(4, p) {
      assert p == 0 || p == 1 || p == 2 || p == 3 || p == 4 || p == 5 || p == 6 || p == 7 || p == 8 || p == 9 || p == 10 || p == 11 ||
        p == 12 || p == 13 || p == 14 || p == 15;
    }
  }

  lemma Ring4WalkB()
    ensures |OffsetsRing4| == RingSize(4)
    ensures forall p :: 16 <= p < 32 ==> OffsetsRing4[p] == Walk(4, p)
  {
    forall p | 16 <= p < 32 ensures OffsetsRing4[p] == Walk(4, p) {
      assert p == 16 || p == 17 || p == 18 || p == 19 || p == 20 || p == 21 || p == 22 || p == 23 || p == 24 || p == 25 || p == 26 || p == 27 ||
        p == 28 || p == 29 || p == 30 || p == 31;
    }
  }

  lemma Ring5WalkA()
    ensures |OffsetsRing5| == RingSize(5)
    ensures forall p :: 0 <= p < 20 ==> OffsetsRing5[p] == Walk(5, p)
  {
    forall p | 0 <= p < 20 ensures OffsetsRing5[p] == Walk(5, p) {
      assert p == 0 || p == 1 || p == 2 || p == 3 || p == 4 || p == 5 || p == 6 || p == 7 || p == 8 || p == 9 || p == 10 || p == 11 ||
        p == 12 || p == 13 || p == 14 || p == 15 || p == 16 || p == 17 || p == 18 || p == 19;
    }
  }

  lemma Ring5WalkB()
    ensures |OffsetsRing5| == RingSize(5)
    ensures forall p :: 20 <= p < 40 ==> OffsetsRing5[p] == Walk(5, p)
  {
    forall p | 20 <= p < 40 ensures OffsetsRing5[p] == Walk(5, p) {
      assert p == 20 || p == 21 || p == 22 || p == 23 || p == 24 || p == 25 || p == 26 || p == 27 || p == 28 || p == 29 || p == 30 || p == 31 ||
        p == 32 || p == 33 || p == 34 || p == 35 || p == 36 || p == 37 || p == 38 || p == 39;
    }
  }

  lemma Ring6WalkA()
    ensures |OffsetsRing6| == RingSize(6)
    ensures forall p :: 0 <= p < 24 ==> OffsetsRing6[p] == Walk(6, p)
  {
    forall p | 0 <= p < 24 ensures OffsetsRing6[p] == Walk(6, p) {
      assert p == 0 || p == 1 || p == 2 || p == 3 || p == 4 || p == 5 || p == 6 || p == 7 || p == 8 || p == 9 || p == 10 || p == 11 ||
        p == 12 || p == 13 || p == 14 || p == 15 || p == 16 || p == 17 || p == 18 || p == 19 || p == 20 || p == 21 || p == 22 || p == 23;
    }
  }

  lemma Ring6WalkB()
    ensures |OffsetsRing6| == RingSize(6)
    ensures forall p :: 24 <= p < 48 ==> OffsetsRing6[p] == Walk(6, p)
  {
    forall p | 24 <= p < 48 ensures OffsetsRing6[p] == Walk(6, p) {
      assert p == 24 || p == 25 || p == 26 || p == 27 || p == 28 || p == 29 || p == 30 || p == 31 || p == 32 || p == 33 || p == 34 || p == 35 ||
        p == 36 || p == 37 || p == 38 || p == 39 || p == 40 || p == 41 || p == 42 || p == 43 || p == 44 || p == 45 || p == 46 || p == 47;
    }
  }

  /** The ring index i of the table belongs to. */
  function RingOf(i: int): (k: nat)
    requires 0 <= i < 169
    ensures k <= 6 && RingStart(k) <= i < RingStart(k) + RingSize(k)
  {
    if i < 1 then 0 else if i < 9 then 1 else if i < 25 then 2 else if i < 49 then 3
    else if i < 81 then 4 else if i < 121 then 5 else 6
  }
}
