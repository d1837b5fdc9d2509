/** Integer and real helpers shared by the encoder and player models. */
module Numeric {

  /** The largest finite float64, 2^1024 - 2^971: the "nothing found yet" score of every scan. */
  const MaxFloat64: real := 179769313486231570814527423731704356798070567525844996598917476803157260780028538760589558632766878171540458953514382464234321326889464182768467546703537516986049910576551282076245490090389328944075868508455133942304583236903222948165808559332123348274797826204144723168738177180919299881250404026184124858368.0

  function Min(a: int, b: int): int { if a <= b then a else b }

  function Max(a: int, b: int): int { if a >= b then a else b }

  /** `if v > hi { v = hi }; if v < lo { v = lo }`. */
  function Clamp(v: int, lo: int, hi: int): (r: int)
    requires lo <= hi
    ensures lo <= r <= hi
    ensures lo <= v <= hi ==> r == v
    ensures v > hi ==> r == hi
    ensures v < lo ==> r == lo
  {
    if v > hi then hi else if v < lo then lo else v
  }

  /** ⌈n / d⌉ for a non-negative n, which is what `int(math.Ceil(float64(n) / d))` yields
      for the frame sizes the codec handles. */
  function CeilDiv(n: nat, d: nat): (r: nat)
    requires d > 0
    ensures n <= r * d
    ensures r == 0 || (r - 1) * d < n
  {
    var q := (n + d - 1) / d;
    DivBounds(n + d - 1, d);
    q
  }

  lemma DivBounds(a: nat, d: nat)
    requires d > 0
    ensures (a / d) * d <= a < (a / d) * d + d
  {}

  /** Sum of a sequence of reals, left to right. */
  function Sum(s: seq<real>): real
  {
    if |s| == 0 then 0.0 else Sum(s[..|s| - 1]) + s[|s| - 1]
  }

  lemma {:induction false} SumNonNegative(s: seq<real>)
    requires forall i :: 0 <= i < |s| ==> s[i] >= 0.0
    ensures Sum(s) >= 0.0
  {
    if |s| > 0 {
      SumNonNegative(s[..|s| - 1]);
    }
  }

  lemma {:induction false} SumZero(s: seq<real>)
    requires forall i :: 0 <= i < |s| ==> s[i] == 0.0
    ensures Sum(s) == 0.0
  {
    if |s| > 0 {
      SumZero(s[..|s| - 1]);
    }
  }

  /** d * w >= w for d >= 1 and w >= 0. */
  lemma MulAtLeast(d: int, w: int)
    requires d >= 1 && w >= 0
    ensures d * w >= w
  {
    assert d * w == (d - 1) * w + w;
    assert (d - 1) * w >= 0;
  }

  /** Euclidean division is determined by quotient and remainder. */
  lemma DivModUnique(i: int, w: int, q: int, r: int)
    requires w > 0 && 0 <= r < w && i == q * w + r
    ensures i / w == q && i % w == r
  {
    var q' := i / w;
    var r' := i % w;
    assert (q' - q) * w == r - r';
    if q' - q >= 1 {
      MulAtLeast(q' - q, w);
    } else if q - q' >= 1 {
      MulAtLeast(q - q', w);
    }
  }

  /** Counting modulo w: the successor of m's residue, or 0 where it reaches w. */
  lemma ModNext(m: nat, w: int)
    requires w > 0
    ensures (m + 1) % w == (if m % w + 1 < w then m % w + 1 else 0)
  {
    var q, r := m / w, m % w;
    if r + 1 < w {
      DivModUnique(m + 1, w, q, r + 1);
    } else {
      assert m + 1 == (q + 1) * w;
      DivModUnique(m + 1, w, q + 1, 0);
    }
  }

  /** x + y * w decomposes back into (x, y) when 0 <= x < w. */
  lemma DivModOfRowMajor(x: int, y: int, w: int)
    requires 0 <= x < w
    ensures (x + y * w) / w == y
    ensures (x + y * w) % w == x
  {
    DivModUnique(x + y * w, w, y, x);
  }

  /** Row-major indices of a w-wide grid are distinct for distinct cells. */
  lemma RowMajorInjective(x1: int, y1: int, x2: int, y2: int, w: int)
    requires 0 <= x1 < w && 0 <= x2 < w
    requires x1 + y1 * w == x2 + y2 * w
    ensures x1 == x2 && y1 == y2
  {
    DivModOfRowMajor(x1, y1, w);
    DivModOfRowMajor(x2, y2, w);
  }

  /** An index below w*h splits into a column below w and a row below h. */
  lemma RowMajorSplit(i: int, w: int, h: int)
    requires 0 <= w && 0 <= h && 0 <= i < w * h
    ensures w > 0 && h > 0
    ensures 0 <= i % w < w && 0 <= i / w < h
    ensures i == i % w + (i / w) * w
  {
    assert w != 0 && h != 0;
  }

  /** Row-major indices of a w x h grid lie in [0, w*h). */
  lemma RowMajorBounds(x: int, y: int, w: int, h: int)
    requires 0 <= x < w && 0 <= y < h
    ensures 0 <= x + y * w < w * h
  {
    assert y * w <= (h - 1) * w;
  }

  /** A draw f in [0, 1) scales a positive total t into [0, t). */
  lemma FractionBelow(f: real, t: real, x: real)
    requires 0.0 <= f < 1.0 && t > 0.0 && x == f * t
    ensures 0.0 <= x < t
  {
    assert t - x == (1.0 - f) * t;
  }

  /** `rand.Float64() * sum` for the draw f. */
  function Scale(f: real, t: real): (x: real)
    ensures 0.0 <= f < 1.0 && t > 0.0 ==> 0.0 <= x < t
  {
    var x := f * t;
    assert 0.0 <= f < 1.0 && t > 0.0 ==> 0.0 <= x < t by {
      if 0.0 <= f < 1.0 && t > 0.0 {
        FractionBelow(f, t, x);
      }
    }
    x
  }
}
