/** Colours of the encoder (encoder/colors.go): 8-bit integer colours, normalised real colours and
    the clamps between them. float64 is modelled as `real`; rounding is a parameter. */
module Colors {

  datatype FloatColor = FloatColor(r: real, g: real, b: real)

  datatype IntColor = IntColor(r: int, g: int, b: int)

  /** Indexed colours: entry i is the colour of palette index i. */
  type Palette = seq<IntColor>

  /** FloatColor.Difference: the perceptual distance, not part of this model. */
  type Difference = (FloatColor, FloatColor) -> real

  predicate InByteRange(v: int) { 0 <= v <= 255 }

  predicate IsByteColor(c: IntColor)
  {
    InByteRange(c.r) && InByteRange(c.g) && InByteRange(c.b)
  }

  predicate InUnitRange(v: real) { 0.0 <= v <= 1.0 }

  predicate IsUnitColor(c: FloatColor)
  {
    InUnitRange(c.r) && InUnitRange(c.g) && InUnitRange(c.b)
  }

  function ClipFloat(v: real): (r: real)
    ensures InUnitRange(r)
    ensures InUnitRange(v) ==> r == v
    ensures v > 1.0 ==> r == 1.0
    ensures v < 0.0 ==> r == 0.0
  {
    if v > 1.0 then 1.0
    else if v < 0.0 then 0.0
    else v
  }

  function ClipInt(v: int): (r: int)
    ensures InByteRange(r)
    ensures InByteRange(v) ==> r == v
    ensures v > 255 ==> r == 255
    ensures v < 0 ==> r == 0
  {
    if v > 255 then 255
    else if v < 0 then 0
    else v
  }

  lemma ClipIntIdempotent(v: int)
    ensures ClipInt(ClipInt(v)) == ClipInt(v)
  {
  }

  lemma ClipIntMonotone(a: int, b: int)
    requires a <= b
    ensures ClipInt(a) <= ClipInt(b)
  {
  }

  /** FloatColor.Normalized: each component clipped into [0, 1]. */
  function NormalizedFloat(c: FloatColor): (n: FloatColor)
    ensures IsUnitColor(n)
    ensures IsUnitColor(c) ==> n == c
  {
    FloatColor(ClipFloat(c.r), ClipFloat(c.g), ClipFloat(c.b))
  }

  /** IntColor.Normalized: each component clipped into [0, 255]. */
  function NormalizedInt(c: IntColor): (n: IntColor)
    ensures IsByteColor(n)
    ensures IsByteColor(c) ==> n == c
  {
    IntColor(ClipInt(c.r), ClipInt(c.g), ClipInt(c.b))
  }

  /** IntColor.ToFloatColor: components divided by 255. */
  function IntToFloat(c: IntColor): (f: FloatColor)
    ensures IsByteColor(c) ==> IsUnitColor(f)
  {
    FloatColor(c.r as real / 255.0, c.g as real / 255.0, c.b as real / 255.0)
  }

  /** FloatColor.ToIntColor with `math.Round` passed in as `round`. */
  function FloatToInt(c: FloatColor, round: real -> int): (i: IntColor)
    ensures IsByteColor(i)
  {
    var n := NormalizedFloat(c);
    IntColor(ClipInt(round(n.r * 255.0)), ClipInt(round(n.g * 255.0)), ClipInt(round(n.b * 255.0)))
  }

  /** An 8-bit colour survives the trip to a real colour and back whenever rounding keeps
      whole numbers whole. */
  lemma IntFloatRoundTrip(c: IntColor, round: real -> int)
    requires IsByteColor(c)
    requires round(c.r as real) == c.r && round(c.g as real) == c.g && round(c.b as real) == c.b
    ensures FloatToInt(IntToFloat(c), round) == c
  {
    var f := IntToFloat(c);
    assert NormalizedFloat(f) == f;
    assert f.r * 255.0 == c.r as real;
    assert f.g * 255.0 == c.g as real;
    assert f.b * 255.0 == c.b as real;
  }
}
