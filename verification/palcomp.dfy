/** The precomputed palette comparison table (encoder/palcomp.go): an n x n matrix of perceptual
    distances between palette entries, the entries as real colours, and their lumas. */
module PaletteCompare {

  import opened Colors
  import opened ArgMin
  import opened Numeric

  /** FloatColor.Luma, not part of this model. */
  type LumaOf = FloatColor -> real

  datatype PalComp = PalComp(pal: Palette, floatpal: seq<FloatColor>, diffmatrix: seq<seq<real>>, lumas: seq<real>)
  {
    function Len(): nat { |pal| }

    /** The shape NewPalComp builds: every table has one entry per palette colour. */
    predicate Valid()
    {
      && |floatpal| == |pal|
      && |lumas| == |pal|
      && |diffmatrix| == |pal|
      && forall i :: 0 <= i < |diffmatrix| ==> |diffmatrix[i]| == |pal|
    }
  }

  function NewPalComp(pal: Palette, diff: Difference, luma: LumaOf): (pc: PalComp)
    ensures pc.Valid() && pc.pal == pal
    ensures forall i :: 0 <= i < |pal| ==> pc.floatpal[i] == IntToFloat(pal[i])
    ensures forall i :: 0 <= i < |pal| ==> pc.lumas[i] == luma(IntToFloat(pal[i]))
    ensures forall i, j :: 0 <= i < |pal| && 0 <= j < |pal| ==>
              pc.diffmatrix[i][j] == diff(IntToFloat(pal[i]), IntToFloat(pal[j]))
  {
    var floatpal := seq(|pal|, i requires 0 <= i < |pal| => IntToFloat(pal[i]));
    var lumas := seq(|pal|, i requires 0 <= i < |pal| => luma(floatpal[i]));
    var diffmat := seq(|pal|, i requires 0 <= i < |pal| =>
                     seq(|pal|, j requires 0 <= j < |pal| => diff(floatpal[i], floatpal[j])));
    PalComp(pal, floatpal, diffmat, lumas)
  }

  function CompareColors(pc: PalComp, c1: int, c2: int): real
    requires pc.Valid()
    requires 0 <= c1 < pc.Len() && 0 <= c2 < pc.Len()
  {
    pc.diffmatrix[c1][c2]
  }

  /** A lookup in the table is the distance between the two palette colours. */
  lemma CompareColorsIsDifference(pal: Palette, diff: Difference, luma: LumaOf, c1: int, c2: int)
    requires 0 <= c1 < |pal| && 0 <= c2 < |pal|
    ensures CompareColors(NewPalComp(pal, diff, luma), c1, c2) == diff(IntToFloat(pal[c1]), IntToFloat(pal[c2]))
  {
  }

  /** The table is symmetric whenever the distance is. */
  lemma CompareColorsSymmetric(pal: Palette, diff: Difference, luma: LumaOf, c1: int, c2: int)
    requires forall a, b :: diff(a, b) == diff(b, a)
    requires 0 <= c1 < |pal| && 0 <= c2 < |pal|
    ensures CompareColors(NewPalComp(pal, diff, luma), c1, c2) == CompareColors(NewPalComp(pal, diff, luma), c2, c1)
  {
    CompareColorsIsDifference(pal, diff, luma, c1, c2);
    CompareColorsIsDifference(pal, diff, luma, c2, c1);
  }

  /** The distance GetColorIndex minimises: 0.75 times the channel-weighted squared difference
      plus the squared luma difference. */
  function ColorDiff(pc: PalComp, color: FloatColor, luma: real, id: int): (d: real)
    requires pc.Valid() && 0 <= id < pc.Len()
    ensures d >= 0.0
    ensures color == pc.floatpal[id] && luma == pc.lumas[id] ==> d == 0.0
  {
    var other := pc.floatpal[id];
    var diffR := color.r - other.r;
    var diffG := color.g - other.g;
    var diffB := color.b - other.b;
    var diffcolor := diffR * diffR * 0.299 + diffG * diffG * 0.587 + diffB * diffB * 0.114;
    var diffluma := luma - pc.lumas[id];
    assert diffR * diffR >= 0.0 && diffG * diffG >= 0.0 && diffB * diffB >= 0.0;
    assert diffluma * diffluma >= 0.0;
    diffcolor * 0.75 + diffluma * diffluma
  }

  /** ColorDiff from a colour to every palette entry, in palette order. */
  function ColorDists(pc: PalComp, color: FloatColor, luma: real): (d: seq<real>)
    requires pc.Valid()
    ensures |d| == pc.Len()
    ensures forall i :: 0 <= i < |d| ==> d[i] == ColorDiff(pc, color, luma, i)
  {
    seq(pc.Len(), i requires 0 <= i < pc.Len() => ColorDiff(pc, color, luma, i))
  }

  /** Index of the palette entry nearest to an arbitrary colour: the first one of least ColorDiff,
      0 when no entry comes below MaxFloat64 (in particular for an empty palette). */
  function GetColorIndex(pc: PalComp, color: FloatColor, lumaOf: LumaOf): (r: int)
    requires pc.Valid()
    ensures pc.Len() == 0 ==> r == 0
    ensures pc.Len() > 0 ==> 0 <= r < pc.Len()
    ensures var d := ColorDists(pc, color, lumaOf(color));
            (exists i :: 0 <= i < |d| && d[i] < MaxFloat64) ==>
              && (forall j :: 0 <= j < |d| ==> d[r] <= d[j])
              && (forall j :: 0 <= j < r ==> d[r] < d[j])
    ensures var d := ColorDists(pc, color, lumaOf(color));
            (forall i :: 0 <= i < |d| ==> d[i] >= MaxFloat64) ==> r == 0
  {
    FirstMin(ColorDists(pc, color, lumaOf(color)), Pick(0, MaxFloat64)).index
  }

  /** A colour that is exactly a palette entry (with that entry's luma) is matched at distance 0. */
  lemma GetColorIndexExact(pc: PalComp, lumaOf: LumaOf, k: int)
    requires pc.Valid() && 0 <= k < pc.Len()
    requires lumaOf(pc.floatpal[k]) == pc.lumas[k]
    ensures var color := pc.floatpal[k];
            ColorDiff(pc, color, lumaOf(color), GetColorIndex(pc, color, lumaOf)) == 0.0
  {
    var color := pc.floatpal[k];
    var d := ColorDists(pc, color, lumaOf(color));
    assert d[k] == 0.0;
    var r := GetColorIndex(pc, color, lumaOf);
    assert d[r] <= d[k];
  }

  function ToFloatColor(pc: PalComp, index: int): FloatColor
    requires pc.Valid() && 0 <= index < pc.Len()
  {
    pc.floatpal[index]
  }

  /** The table's real colour for an index is the palette colour divided by 255. */
  lemma ToFloatColorOfNew(pal: Palette, diff: Difference, luma: LumaOf, index: int)
    requires 0 <= index < |pal|
    ensures ToFloatColor(NewPalComp(pal, diff, luma), index) == IntToFloat(pal[index])
  {
  }
}
