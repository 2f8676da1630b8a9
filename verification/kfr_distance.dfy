/**
 The distance-estimation colour method (`Render-KFRDistance.cpp`). Instead of the iteration
 count, a pixel's palette position comes from how much the smooth iteration values around it
 differ: the sum of the absolute differences between the centre of its 3 x 3 distance matrix
 and four of its neighbours, reshaped by the modifier, capped at 1024, divided by the colour
 division, optionally clamped and shifted by the colour offset.

 The distance matrix is an input: it is `GetBlendedDistanceMatrix`'s result, or the
 intra-frame matrix when the scaling mode is 1. The slope shading is a parameter.
 */
module KfrDistance {
  import opened Common
  import opened Interpolate
  import opened DistanceMatrix
  import opened PixelColour
  import KfrColouring

  /** A colour as three fractions of white; the slope shading works on these. */
  datatype Shade = Shade(red: real, green: real, blue: real)

  /** The settings of the distance method. */
  datatype DistanceSettings = DistanceSettings(
    colouring: KfrColouring.Colouring,
    distanceClamp: real,
    slopesEnabled: bool,
    slopes: (Matrix3, Shade) -> Shade)
  {
    predicate Valid() { colouring.Valid() }
  }

  /** The value `RenderCommon` returns for a pixel inside the set. */
  const InsideMarker: real := -1.0

  /** The largest reshaped distance used, as in Kalles Fraktaler. */
  const DistanceCap: real := 1024.0

  function Abs(r: real): real { if r < 0.0 then -r else r }

  /**
   `doDistance`: the absolute differences between the centre and its left, upper-left,
   lower-left and upper neighbours, summed. It is never negative, and it is 0 exactly when
   those four neighbours all equal the centre.
   */
  function DoDistance(p: Matrix3): (g: real)
    ensures g >= 0.0
    ensures g == 0.0 <==> p.p01 == p.p11 && p.p10 == p.p11 && p.p00 == p.p11 && p.p02 == p.p11
  {
    Abs(p.p01 - p.p11) + Abs(p.p10 - p.p11) + Abs(p.p00 - p.p11) + Abs(p.p02 - p.p11)
  }

  /** Every entry of a matrix raised by the same amount. */
  function Raise(p: Matrix3, c: real): Matrix3 {
    Matrix3(p.p00 + c, p.p01 + c, p.p02 + c, p.p10 + c, p.p11 + c, p.p12 + c, p.p20 + c, p.p21 + c, p.p22 + c)
  }

  /**
   The distance depends only on differences: raising every entry by the same amount leaves
   it unchanged, and the right column and the lower-middle entry are never read.
   */
  lemma DistanceIgnoresLevel(p: Matrix3, c: real, a: real, b: real, d: real, e: real)
    ensures DoDistance(Raise(p, c)) == DoDistance(p)
    ensures DoDistance(p.(p12 := a, p20 := b, p21 := d, p22 := e)) == DoDistance(p)
  {
  }

  // ---------------------------------------------------------------------------------------
  // RenderCommon

  /** The modifier applied to a distance; the logarithm is raised by 1 so it starts at 1. */
  function Shaped(c: KfrColouring.Colouring, g: real): real {
    var a := DoModifier(c.math, c.modifier, g);
    if c.modifier == Logarithm then a + 1.0 else a
  }

  /** The reshaped distance capped at `DistanceCap`. */
  function Capped(x: real): (r: real)
    ensures r <= DistanceCap
    ensures r == MinR(x, DistanceCap)
  {
    if x > DistanceCap then DistanceCap else x
  }

  /** The optional distance clamp: a positive clamp is an upper limit, otherwise nothing. */
  function Clamped(clamp: real, x: real): (r: real)
    ensures clamp > 0.0 ==> r == MinR(x, clamp)
    ensures clamp <= 0.0 ==> r == x
  {
    if clamp > 0.0 && x > clamp then clamp else x
  }

  /**
   `RenderCommon`: `InsideMarker` for a pixel inside the set; otherwise the palette position
   of its distance. Above the colour offset the position is at most the cap divided by a
   positive division, and at most a positive distance clamp.
   */
  function RenderCommon(d: DistanceSettings, iCount: real, m: Matrix3): (r: real)
    requires d.Valid()
    ensures KfrColouring.Inside(d.colouring, iCount) ==> r == InsideMarker
    ensures !KfrColouring.Inside(d.colouring, iCount) && d.distanceClamp > 0.0 ==>
      r <= d.distanceClamp + d.colouring.colourOffset
    ensures !KfrColouring.Inside(d.colouring, iCount) && d.colouring.colourDivision > 0.0 ==>
      r <= DistanceCap / d.colouring.colourDivision + d.colouring.colourOffset
  {
    var c := d.colouring;
    if KfrColouring.Inside(c, iCount) then InsideMarker
    else
      var x := Capped(Shaped(c, DoDistance(m)));
      CappedQuotient(x, c.colourDivision);
      Clamped(d.distanceClamp, x / c.colourDivision) + c.colourOffset
  }

  lemma CappedQuotient(x: real, division: real)
    requires x <= DistanceCap && division != 0.0
    ensures division > 0.0 ==> x / division <= DistanceCap / division
  {
    if division > 0.0 {
      KfrColouring.DivMonotone(x, DistanceCap, division);
    }
  }

  /**
   The inside marker cannot be confused with a palette position: with a positive division, a
   colour offset of at least 0 (both as the sliders allow) and roots and logarithm that are
   never negative where the modifier uses them, every outside pixel's position is at least 0,
   so `RenderCommon` gives the marker exactly for the pixels inside the set.
   */
  lemma MarkerOnlyInside(d: DistanceSettings, iCount: real, m: Matrix3)
    requires d.Valid() && d.colouring.colourDivision > 0.0 && d.colouring.colourOffset >= 0.0
    requires RootsNonNegative(d.colouring.math) && LnNonNegativeFromOne(d.colouring.math)
    ensures !KfrColouring.Inside(d.colouring, iCount) ==> RenderCommon(d, iCount, m) >= 0.0
    ensures RenderCommon(d, iCount, m) == InsideMarker <==> KfrColouring.Inside(d.colouring, iCount)
  {
    var c := d.colouring;
    ModifierNonNegative(c.math, c.modifier, DoDistance(m));
    var x := Capped(Shaped(c, DoDistance(m)));
    assert x >= 0.0;
    KfrColouring.DivMonotone(0.0, x, c.colourDivision);
  }

  /**
   With non-decreasing library functions and a positive division, a larger distance never
   gives an earlier palette position.
   */
  lemma RenderCommonMonotone(d: DistanceSettings, iCount: real, m1: Matrix3, m2: Matrix3)
    requires d.Valid() && d.colouring.colourDivision > 0.0 && Monotone(d.colouring.math)
    requires !KfrColouring.Inside(d.colouring, iCount)
    requires DoDistance(m1) <= DoDistance(m2)
    ensures RenderCommon(d, iCount, m1) <= RenderCommon(d, iCount, m2)
  {
    var c := d.colouring;
    ModifierMonotone(c.math, c.modifier, DoDistance(m1), DoDistance(m2));
    var x1, x2 := Capped(Shaped(c, DoDistance(m1))), Capped(Shaped(c, DoDistance(m2)));
    KfrColouring.DivMonotone(x1, x2, c.colourDivision);
  }

  /** A flat neighbourhood at the linear modifier sits exactly at the colour offset. */
  lemma FlatAtOffset(d: DistanceSettings, iCount: real, m: Matrix3)
    requires d.Valid() && d.colouring.modifier == Linear && d.distanceClamp >= 0.0
    requires !KfrColouring.Inside(d.colouring, iCount)
    requires m.p01 == m.p11 && m.p10 == m.p11 && m.p00 == m.p11 && m.p02 == m.p11
    ensures RenderCommon(d, iCount, m) == d.colouring.colourOffset
  {
  }

  // ---------------------------------------------------------------------------------------
  // Pixel functions

  /** The two picked entries mixed channel by channel, on the 8-bit scale. */
  function Mixed(k: ColourPick): (s: Shade)
    requires 0.0 <= k.weight < 1.0
    ensures MinR(k.low.red as real, k.high.red as real) <= s.red <= MaxR(k.low.red as real, k.high.red as real)
    ensures MinR(k.low.green as real, k.high.green as real) <= s.green <= MaxR(k.low.green as real, k.high.green as real)
    ensures MinR(k.low.blue as real, k.high.blue as real) <= s.blue <= MaxR(k.low.blue as real, k.high.blue as real)
  {
    Shade(MixChannel(k.low.red as real, k.high.red as real, k.weight),
          MixChannel(k.low.green as real, k.high.green as real, k.weight),
          MixChannel(k.low.blue as real, k.high.blue as real, k.weight))
  }

  /** An 8-bit shade as fractions of white. */
  function Unit(s: Shade): Shade { Shade(s.red / 255.0, s.green / 255.0, s.blue / 255.0) }

  /** The palette entries for an outside pixel's position. */
  function PickAt(d: DistanceSettings, index: real): (k: ColourPick)
    requires d.Valid()
    ensures 0.0 <= k.weight < 1.0
  {
    GetColours(d.colouring.count, d.colouring.colours, index)
  }

  /**
   `Render8`: the inside colour for the inside marker; otherwise the mix of the two picked
   entries, opaque. Without slopes every channel lies between the two entries' channels; with
   slopes the shaded fractions are scaled back to 8 bits and rounded into range.
   */
  function Render8(d: DistanceSettings, iCount: real, m: Matrix3): (p: Pixel)
    requires d.Valid()
    ensures var i := RenderCommon(d, iCount, m);
      && (i == InsideMarker ==> p == SetInsideColour8(d.colouring.insideColour))
      && (i != InsideMarker ==> p.alpha == White8)
      && (i != InsideMarker && !d.slopesEnabled ==>
            var k := PickAt(d, i);
            && KfrColouring.Between(p.red, k.low.red, k.high.red)
            && KfrColouring.Between(p.green, k.low.green, k.high.green)
            && KfrColouring.Between(p.blue, k.low.blue, k.high.blue))
  {
    var i := RenderCommon(d, iCount, m);
    if i == InsideMarker then SetInsideColour8(d.colouring.insideColour)
    else
      var k := PickAt(d, i);
      var s := Mixed(k);
      if d.slopesEnabled then
        var t := d.slopes(m, Unit(s));
        Pixel(White8, RoundTo8Bit(t.red * White8 as real), RoundTo8Bit(t.green * White8 as real),
              RoundTo8Bit(t.blue * White8 as real))
      else
        KfrColouring.RoundedMixBetween(k.low.red, k.high.red, k.weight);
        KfrColouring.RoundedMixBetween(k.low.green, k.high.green, k.weight);
        KfrColouring.RoundedMixBetween(k.low.blue, k.high.blue, k.weight);
        Pixel(White8, RoundTo8Bit(s.red), RoundTo8Bit(s.green), RoundTo8Bit(s.blue))
  }

  /** Scaling a linear interpolation scales its two ends. */
  lemma LerpScales(a: real, b: real, w: real, f: real)
    ensures Lerp(a, b, w) * f == Lerp(a * f, b * f, w)
  {
    calc {
      Lerp(a, b, w) * f;
      ((1.0 - w) * a + w * b) * f;
      (1.0 - w) * a * f + w * b * f;
      (1.0 - w) * (a * f) + w * (b * f);
    }
  }

  /** Mixing scaled channels is scaling the mix. */
  lemma MixScales(a: real, b: real, w: real, f: real)
    requires 0.0 <= w < 1.0
    ensures MixChannel(a, b, w) * f == MixChannel(a * f, b * f, w)
  {
    LerpScales(a, b, w, f);
  }

  lemma ScaledStaysBetween(x: real, a: real, b: real, f: real)
    requires MinR(a, b) <= x <= MaxR(a, b) && f >= 0.0
    ensures MinR(a * f, b * f) <= x * f <= MaxR(a * f, b * f)
  {
    if a <= b {
      ScaleKeepsOrder(a, x, f);
      ScaleKeepsOrder(x, b, f);
    } else {
      ScaleKeepsOrder(b, x, f);
      ScaleKeepsOrder(x, a, f);
    }
  }

  lemma ScaleKeepsOrder(a: real, b: real, f: real)
    requires a <= b && f >= 0.0
    ensures a * f <= b * f
  {
  }

  /**
   A value between two entries' channels, scaled by a non-negative factor and rounded to 16
   bits, lies between the two channels scaled and rounded the same way.
   */
  lemma Channel16Between(x: real, lo: byte, hi: byte, f: real)
    requires MinR(lo as real, hi as real) <= x <= MaxR(lo as real, hi as real) && f >= 0.0
    ensures var l, h := RoundTo16Bit(lo as real * f), RoundTo16Bit(hi as real * f);
      Min(l, h) <= RoundTo16Bit(x * f) <= Max(l, h)
  {
    if lo <= hi {
      OrderedChannel16(x, lo, hi, f);
    } else {
      OrderedChannel16(x, hi, lo, f);
    }
  }

  lemma OrderedChannel16(x: real, lo: byte, hi: byte, f: real)
    requires lo as real <= x <= hi as real && f >= 0.0
    ensures var l, h := RoundTo16Bit(lo as real * f), RoundTo16Bit(hi as real * f);
      Min(l, h) <= RoundTo16Bit(x * f) <= Max(l, h) && Min(h, l) <= RoundTo16Bit(x * f) <= Max(h, l)
  {
    ScaledRoundedBetween(x, lo as real, hi as real, f);
  }

  lemma ScaledRoundedBetween(x: real, a: real, b: real, f: real)
    requires a <= x <= b && f >= 0.0
    ensures RoundTo16Bit(a * f) <= RoundTo16Bit(x * f) <= RoundTo16Bit(b * f)
  {
    ScaledRoundedMonotone(a, x, f);
    ScaledRoundedMonotone(x, b, f);
  }

  lemma ScaledRoundedMonotone(a: real, b: real, f: real)
    requires a <= b && f >= 0.0
    ensures RoundTo16Bit(a * f) <= RoundTo16Bit(b * f)
  {
    ScaleKeepsOrder(a, b, f);
    RoundToBitsMonotone(a * f, b * f);
  }

  /** A mixed 8-bit channel as a fraction of white is the standard method's 32-bit channel. */
  lemma Mixed32(lo: byte, hi: byte, w: real)
    requires 0.0 <= w < 1.0
    ensures MixChannel(lo as real, hi as real, w) / 255.0 == KfrColouring.Mix32(lo, hi, w)
  {
    MixScales(lo as real, hi as real, w, ColourScale32());
    assert MixChannel(lo as real, hi as real, w) / 255.0 == MixChannel(lo as real, hi as real, w) * ColourScale32();
  }

  /**
   An 8-bit value scaled to 16 bits and rounded: by white16 / white8 in floating point when
   `exact`, otherwise by the integer quotient the distance method uses.
   */
  function Scale16(v: real, exact: bool): int {
    if exact then RoundTo16Bit(v * ColourScale16()) else RoundTo16Bit(v * ColourScale16AsWritten())
  }

  /** The 16-bit pixel for an outside position, exact or with the integer scale. */
  function Shade16(d: DistanceSettings, m: Matrix3, k: ColourPick, exact: bool): (p: Pixel)
    requires 0.0 <= k.weight < 1.0
    ensures p.alpha == White16
  {
    if d.slopesEnabled then
      var t := d.slopes(m, Unit(Mixed(k)));
      Pixel(White16, RoundTo16Bit(t.red * White16 as real), RoundTo16Bit(t.green * White16 as real),
            RoundTo16Bit(t.blue * White16 as real))
    else Plain16(k, exact)
  }

  /** The 16-bit pixel without slopes: the mixed entries scaled to 16 bits. */
  function Plain16(k: ColourPick, exact: bool): Pixel
    requires 0.0 <= k.weight < 1.0
  {
    var s := Mixed(k);
    Pixel(White16, Scale16(s.red, exact), Scale16(s.green, exact), Scale16(s.blue, exact))
  }

  /** Without slopes, the 16-bit pixel at the exact scale lies between the entries converted to 16 bits. */
  lemma Plain16Between(k: ColourPick)
    requires 0.0 <= k.weight < 1.0
    ensures var p := Plain16(k, true);
      && Min(To16(k.low.red), To16(k.high.red)) <= p.red <= Max(To16(k.low.red), To16(k.high.red))
      && Min(To16(k.low.green), To16(k.high.green)) <= p.green <= Max(To16(k.low.green), To16(k.high.green))
      && Min(To16(k.low.blue), To16(k.high.blue)) <= p.blue <= Max(To16(k.low.blue), To16(k.high.blue))
  {
    var s := Mixed(k);
    Channel16To16(s.red, k.low.red, k.high.red);
    Channel16To16(s.green, k.low.green, k.high.green);
    Channel16To16(s.blue, k.low.blue, k.high.blue);
  }

  lemma Channel16To16(x: real, lo: byte, hi: byte)
    requires MinR(lo as real, hi as real) <= x <= MaxR(lo as real, hi as real)
    ensures Min(To16(lo), To16(hi)) <= Scale16(x, true) <= Max(To16(lo), To16(hi))
  {
    Scaled16StaysBetween(x, lo, hi);
    Channel16Above(x, lo, hi);
    Channel16Below(x, lo, hi);
  }

  lemma Scaled16StaysBetween(x: real, lo: byte, hi: byte)
    requires MinR(lo as real, hi as real) <= x <= MaxR(lo as real, hi as real)
    ensures MinR(lo as real * ColourScale16(), hi as real * ColourScale16()) <= x * ColourScale16()
    ensures x * ColourScale16() <= MaxR(lo as real * ColourScale16(), hi as real * ColourScale16())
  {
    ScaledStaysBetween(x, lo as real, hi as real, ColourScale16());
  }

  lemma Channel16Above(x: real, lo: byte, hi: byte)
    requires MinR(lo as real * ColourScale16(), hi as real * ColourScale16()) <= x * ColourScale16()
    ensures Min(To16(lo), To16(hi)) <= RoundTo16Bit(x * ColourScale16())
  {
    RoundToBitsMonotone(MinR(lo as real * ColourScale16(), hi as real * ColourScale16()), x * ColourScale16());
  }

  lemma Channel16Below(x: real, lo: byte, hi: byte)
    requires x * ColourScale16() <= MaxR(lo as real * ColourScale16(), hi as real * ColourScale16())
    ensures RoundTo16Bit(x * ColourScale16()) <= Max(To16(lo), To16(hi))
  {
    RoundToBitsMonotone(x * ColourScale16(), MaxR(lo as real * ColourScale16(), hi as real * ColourScale16()));
  }

  /** The source's 16-bit scale: white16 / white8 evaluated in integer arithmetic, which is 128. */
  function ColourScale16AsWritten(): real { (White16 / White8) as real }

  /** An 8-bit channel multiplied by the integer quotient 128 and rounded into 16 bits. */
  function To16AsWritten(c: byte): int { RoundTo16Bit(c as real * ColourScale16AsWritten()) }

  /**
   `Render16` as written: the inside colour for the marker; otherwise opaque and, without
   slopes, each channel lies between the two picked entries multiplied by 128.
   */
  function Render16AsWritten(d: DistanceSettings, iCount: real, m: Matrix3): (p: Pixel)
    requires d.Valid()
    ensures var i := RenderCommon(d, iCount, m);
      && (i == InsideMarker ==> p == SetInsideColour16(d.colouring.insideColour))
      && (i != InsideMarker ==> p.alpha == White16)
      && (i != InsideMarker && !d.slopesEnabled ==>
            var k := PickAt(d, i);
            && Min(To16AsWritten(k.low.red), To16AsWritten(k.high.red)) <= p.red <= Max(To16AsWritten(k.low.red), To16AsWritten(k.high.red))
            && Min(To16AsWritten(k.low.green), To16AsWritten(k.high.green)) <= p.green <= Max(To16AsWritten(k.low.green), To16AsWritten(k.high.green))
            && Min(To16AsWritten(k.low.blue), To16AsWritten(k.high.blue)) <= p.blue <= Max(To16AsWritten(k.low.blue), To16AsWritten(k.high.blue)))
  {
    var i := RenderCommon(d, iCount, m);
    if i == InsideMarker then SetInsideColour16(d.colouring.insideColour)
    else
      var k := PickAt(d, i);
      if d.slopesEnabled then Shade16(d, m, k, false)
      else Plain16AsWrittenBetween(k); Shade16(d, m, k, false)
  }

  /** Without slopes, the 16-bit pixel at the integer scale lies between the entries multiplied by 128. */
  lemma Plain16AsWrittenBetween(k: ColourPick)
    requires 0.0 <= k.weight < 1.0
    ensures var p := Plain16(k, false);
      && Min(To16AsWritten(k.low.red), To16AsWritten(k.high.red)) <= p.red <= Max(To16AsWritten(k.low.red), To16AsWritten(k.high.red))
      && Min(To16AsWritten(k.low.green), To16AsWritten(k.high.green)) <= p.green <= Max(To16AsWritten(k.low.green), To16AsWritten(k.high.green))
      && Min(To16AsWritten(k.low.blue), To16AsWritten(k.high.blue)) <= p.blue <= Max(To16AsWritten(k.low.blue), To16AsWritten(k.high.blue))
  {
    var s := Mixed(k);
    ChannelAsWrittenBetween(s.red, k.low.red, k.high.red);
    ChannelAsWrittenBetween(s.green, k.low.green, k.high.green);
    ChannelAsWrittenBetween(s.blue, k.low.blue, k.high.blue);
  }

  lemma ChannelAsWrittenBetween(x: real, lo: byte, hi: byte)
    requires MinR(lo as real, hi as real) <= x <= MaxR(lo as real, hi as real)
    ensures Min(To16AsWritten(lo), To16AsWritten(hi)) <= Scale16(x, false) <= Max(To16AsWritten(lo), To16AsWritten(hi))
  {
    AsWrittenScale();
    ScaledStaysBetween(x, lo as real, hi as real, 128.0);
    ChannelAsWrittenAbove(x, lo, hi);
    ChannelAsWrittenBelow(x, lo, hi);
  }

  lemma AsWrittenScale()
    ensures ColourScale16AsWritten() == 128.0
  {
    assert White16 / White8 == 128;
  }

  lemma ChannelAsWrittenAbove(x: real, lo: byte, hi: byte)
    requires ColourScale16AsWritten() == 128.0
    requires MinR(lo as real * 128.0, hi as real * 128.0) <= x * 128.0
    ensures Min(To16AsWritten(lo), To16AsWritten(hi)) <= Scale16(x, false)
  {
    RoundToBitsMonotone(MinR(lo as real * 128.0, hi as real * 128.0), x * 128.0);
  }

  lemma ChannelAsWrittenBelow(x: real, lo: byte, hi: byte)
    requires ColourScale16AsWritten() == 128.0
    requires x * 128.0 <= MaxR(lo as real * 128.0, hi as real * 128.0)
    ensures Scale16(x, false) <= Max(To16AsWritten(lo), To16AsWritten(hi))
  {
    RoundToBitsMonotone(x * 128.0, MaxR(lo as real * 128.0, hi as real * 128.0));
  }

  /**
   Where both picked entries are white and there are no slopes, the source's `Render16` gives
   32640 for each channel instead of 16-bit white, 0x8000, which the standard method and the
   inside colour reach.
   */
  lemma WhiteFallsShortAsWritten(d: DistanceSettings, iCount: real, m: Matrix3)
    requires d.Valid() && !d.slopesEnabled
    requires RenderCommon(d, iCount, m) != InsideMarker
    requires PickAt(d, RenderCommon(d, iCount, m)).low == Rgb(255, 255, 255)
    requires PickAt(d, RenderCommon(d, iCount, m)).high == Rgb(255, 255, 255)
    ensures Render16AsWritten(d, iCount, m).red == 32640 != White16
  {
    var k := PickAt(d, RenderCommon(d, iCount, m));
    assert ColourScale16AsWritten() == 128.0;
    assert Mixed(k).red == 255.0;
    assert Round(255.0 * 128.0) == 32640 by { assert IsIntegral(32640.0); }
  }

  /**
   `Render16` with the scale evaluated in floating point, as the standard method does: the
   inside colour for the marker; otherwise, without slopes, each channel lies between the two
   picked entries' channels converted to 16 bits, as in the standard method, so two white
   entries give 0x8000.
   */
  function Render16(d: DistanceSettings, iCount: real, m: Matrix3): (p: Pixel)
    requires d.Valid()
    ensures var i := RenderCommon(d, iCount, m);
      && (i == InsideMarker ==> p == SetInsideColour16(d.colouring.insideColour))
      && (i != InsideMarker ==> p.alpha == White16)
      && (i != InsideMarker && !d.slopesEnabled ==>
            var k := PickAt(d, i);
            && Min(To16(k.low.red), To16(k.high.red)) <= p.red <= Max(To16(k.low.red), To16(k.high.red))
            && Min(To16(k.low.green), To16(k.high.green)) <= p.green <= Max(To16(k.low.green), To16(k.high.green))
            && Min(To16(k.low.blue), To16(k.high.blue)) <= p.blue <= Max(To16(k.low.blue), To16(k.high.blue)))
  {
    var i := RenderCommon(d, iCount, m);
    if i == InsideMarker then SetInsideColour16(d.colouring.insideColour)
    else
      var k := PickAt(d, i);
      if d.slopesEnabled then Shade16(d, m, k, true)
      else Plain16Between(k); Shade16(d, m, k, true)
  }

  /** With the corrected scale, two white entries give 16-bit white. */
  lemma WhiteReachesWhite16(d: DistanceSettings, iCount: real, m: Matrix3)
    requires d.Valid() && !d.slopesEnabled
    requires RenderCommon(d, iCount, m) != InsideMarker
    requires PickAt(d, RenderCommon(d, iCount, m)).low == Rgb(255, 255, 255)
    requires PickAt(d, RenderCommon(d, iCount, m)).high == Rgb(255, 255, 255)
    ensures Render16(d, iCount, m).red == White16
  {
    To16Ends();
  }

  /**
   `Render32`: the inside colour for the marker; otherwise the mix as fractions of white,
   shaded when slopes are enabled, with negative channels raised to 0. Without slopes each
   channel is the standard method's 32-bit mix, hence in [0, 1].
   */
  function Render32(d: DistanceSettings, iCount: real, m: Matrix3): (p: PixelF)
    requires d.Valid()
    ensures var i := RenderCommon(d, iCount, m);
      && (i == InsideMarker ==> p == SetInsideColour32(d.colouring.insideColour))
      && (i != InsideMarker ==> p.alpha == White32 && p.red >= 0.0 && p.green >= 0.0 && p.blue >= 0.0)
      && (i != InsideMarker && !d.slopesEnabled ==>
            var k := PickAt(d, i);
            && p.red == KfrColouring.Mix32(k.low.red, k.high.red, k.weight)
            && p.green == KfrColouring.Mix32(k.low.green, k.high.green, k.weight)
            && p.blue == KfrColouring.Mix32(k.low.blue, k.high.blue, k.weight))
  {
    var i := RenderCommon(d, iCount, m);
    if i == InsideMarker then SetInsideColour32(d.colouring.insideColour)
    else
      var k := PickAt(d, i);
      var s := Unit(Mixed(k));
      var t := if d.slopesEnabled then d.slopes(m, s) else s;
      Mixed32(k.low.red, k.high.red, k.weight);
      Mixed32(k.low.green, k.high.green, k.weight);
      Mixed32(k.low.blue, k.high.blue, k.weight);
      PixelF(White32, MaxR(0.0, t.red), MaxR(0.0, t.green), MaxR(0.0, t.blue))
  }
}
