/**
 The standard colour method (`Render-KFRColouring.cpp`): the blended iteration count of a
 pixel is reshaped by the modifier, divided by the colour division and shifted by the colour
 offset; the result picks two neighbouring palette entries, which are mixed by its fractional
 part. Pixels at or beyond the snapshot's maximum iteration count take the inside colour.

 The pixel functions take the blended iteration count (`GetBlendedPixelValue`) as an input.
 */
module KfrColouring {
  import opened Common
  import opened Interpolate
  import opened PixelColour

  /** The render parameters and palette the colour methods read. */
  datatype Colouring = Colouring(
    math: MathLib,
    modifier: int,
    colourDivision: real,
    colourOffset: real,
    insideColour: Rgb,
    count: nat,
    colours: seq<Rgb>,
    maxIterations: int)
  {
    /** The palette has its 1024 entries and the division was made nonzero by `SmartRender`. */
    predicate Valid() {
      count <= MaxKfrColours && |colours| == MaxKfrColours && colourDivision != 0.0
    }
  }

  /** A pixel is inside the set when its count reaches the snapshot's maximum iteration count. */
  predicate Inside(c: Colouring, iCount: real) { iCount >= c.maxIterations as real }

  /** The palette position of an iteration count: modifier, then division, then offset. */
  function ColourIndex(c: Colouring, iCount: real): real
    requires c.Valid()
  {
    DoModifier(c.math, c.modifier, iCount) / c.colourDivision + c.colourOffset
  }

  /**
   With non-decreasing library functions, a positive division and non-negative counts, a larger
   iteration count never moves backwards through the palette.
   */
  lemma ColourIndexMonotone(c: Colouring, a: real, b: real)
    requires c.Valid() && Monotone(c.math) && c.colourDivision > 0.0 && 0.0 <= a <= b
    ensures ColourIndex(c, a) <= ColourIndex(c, b)
  {
    ModifierMonotone(c.math, c.modifier, a, b);
    DivMonotone(DoModifier(c.math, c.modifier, a), DoModifier(c.math, c.modifier, b), c.colourDivision);
  }

  lemma DivMonotone(a: real, b: real, d: real)
    requires a <= b && d > 0.0
    ensures a / d <= b / d
  {
  }

  /** The two palette entries and the weight for an iteration count. */
  function Pick(c: Colouring, iCount: real): (p: ColourPick)
    requires c.Valid()
    ensures 0.0 <= p.weight < 1.0
  {
    GetColours(c.count, c.colours, ColourIndex(c, iCount))
  }

  /** A rounded mix of two 8-bit values lies between them. */
  lemma RoundedMixBetween(lo: byte, hi: byte, w: real)
    requires 0.0 <= w < 1.0
    ensures var v := RoundTo8Bit(MixChannel(lo as real, hi as real, w));
      Min(lo, hi) <= v <= Max(lo, hi)
  {
    var f := MixChannel(lo as real, hi as real, w);
    RoundToBitsMonotone(Min(lo, hi) as real, f);
    RoundToBitsMonotone(f, Max(lo, hi) as real);
  }

  /** Whether an 8-bit channel lies between the channels of the two picked entries. */
  predicate Between(v: int, a: byte, b: byte) { Min(a, b) <= v <= Max(a, b) }

  /**
   `Render8`: the inside colour for inside pixels; otherwise each channel mixes the two picked
   palette entries and lies between their values, and the pixel is opaque.
   */
  function Render8(c: Colouring, iCount: real): (p: Pixel)
    requires c.Valid()
    ensures Inside(c, iCount) ==> p == SetInsideColour8(c.insideColour)
    ensures !Inside(c, iCount) ==>
      var k := Pick(c, iCount);
      && p.alpha == White8
      && Between(p.red, k.low.red, k.high.red) && Between(p.green, k.low.green, k.high.green)
      && Between(p.blue, k.low.blue, k.high.blue)
  {
    if Inside(c, iCount) then SetInsideColour8(c.insideColour)
    else
      var k := Pick(c, iCount);
      RoundedMixBetween(k.low.red, k.high.red, k.weight);
      RoundedMixBetween(k.low.green, k.high.green, k.weight);
      RoundedMixBetween(k.low.blue, k.high.blue, k.weight);
      Pixel(White8, RoundTo8Bit(MixChannel(k.low.red as real, k.high.red as real, k.weight)),
            RoundTo8Bit(MixChannel(k.low.green as real, k.high.green as real, k.weight)),
            RoundTo8Bit(MixChannel(k.low.blue as real, k.high.blue as real, k.weight)))
  }

  /** The pixel of a palette entry at 8 bits, opaque. */
  function EntryPixel8(e: Rgb): Pixel { Pixel(White8, e.red, e.green, e.blue) }

  /**
   A colour index that falls exactly on a palette entry (an integral index, weight 0) shows
   that entry unmixed.
   */
  lemma Render8OnEntry(c: Colouring, iCount: real)
    requires c.Valid() && !Inside(c, iCount) && IsIntegral(ColourIndex(c, iCount))
    ensures Render8(c, iCount) == EntryPixel8(Pick(c, iCount).low)
  {
    GetColoursOfCount(c.count, c.colours, ColourIndex(c, iCount));
    var k := Pick(c, iCount);
    assert k.weight == 0.0;
  }

  /** A 16-bit channel: the mix of the scaled entries, rounded and clamped. */
  function Mix16(lo: byte, hi: byte, w: real): int
    requires 0.0 <= w < 1.0
  {
    RoundTo16Bit(MixChannel(lo as real * ColourScale16(), hi as real * ColourScale16(), w))
  }

  /**
   `Render16`: as `Render8`, with the entries scaled by white16 / white8 before mixing; each
   channel lies between the two entries scaled to 16 bits, hence in [0, 0x8000].
   */
  function Render16(c: Colouring, iCount: real): (p: Pixel)
    requires c.Valid()
    ensures Inside(c, iCount) ==> p == SetInsideColour16(c.insideColour)
    ensures !Inside(c, iCount) ==>
      var k := Pick(c, iCount);
      && p.alpha == White16
      && Min(To16(k.low.red), To16(k.high.red)) <= p.red <= Max(To16(k.low.red), To16(k.high.red))
      && Min(To16(k.low.green), To16(k.high.green)) <= p.green <= Max(To16(k.low.green), To16(k.high.green))
      && Min(To16(k.low.blue), To16(k.high.blue)) <= p.blue <= Max(To16(k.low.blue), To16(k.high.blue))
      && 0 <= p.red <= White16 && 0 <= p.green <= White16 && 0 <= p.blue <= White16
  {
    if Inside(c, iCount) then SetInsideColour16(c.insideColour)
    else
      var k := Pick(c, iCount);
      Mix16Between(k.low.red, k.high.red, k.weight);
      Mix16Between(k.low.green, k.high.green, k.weight);
      Mix16Between(k.low.blue, k.high.blue, k.weight);
      Pixel(White16, Mix16(k.low.red, k.high.red, k.weight), Mix16(k.low.green, k.high.green, k.weight),
            Mix16(k.low.blue, k.high.blue, k.weight))
  }

  /** A 16-bit mix lies between the two entries converted to 16 bits. */
  lemma Mix16Between(lo: byte, hi: byte, w: real)
    requires 0.0 <= w < 1.0
    ensures Min(To16(lo), To16(hi)) <= Mix16(lo, hi, w) <= Max(To16(lo), To16(hi))
  {
    var a, b := lo as real * ColourScale16(), hi as real * ColourScale16();
    var f := MixChannel(a, b, w);
    RoundToBitsMonotone(MinR(a, b), f);
    RoundToBitsMonotone(f, MaxR(a, b));
  }

  /** A 32-bit channel lies between the two entries divided by 255. */
  predicate Between32(v: real, lo: byte, hi: byte) {
    MinR(lo as real, hi as real) / 255.0 <= v <= MaxR(lo as real, hi as real) / 255.0
  }

  /** A 32-bit channel: the mix of the entries scaled to [0, 1], without rounding or clamping. */
  function Mix32(lo: byte, hi: byte, w: real): (v: real)
    requires 0.0 <= w < 1.0
    ensures 0.0 <= v <= 1.0
    ensures Between32(v, lo, hi)
  {
    var a, b := lo as real * ColourScale32(), hi as real * ColourScale32();
    assert a == lo as real / 255.0 && b == hi as real / 255.0;
    assert 0.0 <= a <= 1.0 && 0.0 <= b <= 1.0;
    assert MinR(a, b) == MinR(lo as real, hi as real) / 255.0;
    assert MaxR(a, b) == MaxR(lo as real, hi as real) / 255.0;
    MixChannel(a, b, w)
  }

  /**
   `Render32`: as `Render8`, with the entries scaled to [0, 1]; each channel lies between the
   two picked entries over 255, so no rounding or clamping is needed.
   */
  function Render32(c: Colouring, iCount: real): (p: PixelF)
    requires c.Valid()
    ensures Inside(c, iCount) ==> p == SetInsideColour32(c.insideColour)
    ensures !Inside(c, iCount) ==>
      var k := Pick(c, iCount);
      && p.alpha == White32
      && 0.0 <= p.red <= 1.0 && 0.0 <= p.green <= 1.0 && 0.0 <= p.blue <= 1.0
      && Between32(p.red, k.low.red, k.high.red) && Between32(p.green, k.low.green, k.high.green)
      && Between32(p.blue, k.low.blue, k.high.blue)
  {
    if Inside(c, iCount) then SetInsideColour32(c.insideColour)
    else
      var k := Pick(c, iCount);
      PixelF(White32, Mix32(k.low.red, k.high.red, k.weight), Mix32(k.low.green, k.high.green, k.weight),
             Mix32(k.low.blue, k.high.blue, k.weight))
  }

  /** At an integral colour index `Render16` shows the lower entry converted to 16 bits. */
  lemma Render16OnEntry(c: Colouring, iCount: real)
    requires c.Valid() && !Inside(c, iCount) && IsIntegral(ColourIndex(c, iCount))
    ensures var e := Pick(c, iCount).low;
      Render16(c, iCount) == Pixel(White16, To16(e.red), To16(e.green), To16(e.blue))
  {
    GetColoursOfCount(c.count, c.colours, ColourIndex(c, iCount));
    var k := Pick(c, iCount);
    assert k.weight == 0.0;
    ChannelsAgree(k.low.red, k.high.red);
    ChannelsAgree(k.low.green, k.high.green);
    ChannelsAgree(k.low.blue, k.high.blue);
  }

  /** At an integral colour index `Render32` shows the lower entry scaled to [0, 1]. */
  lemma Render32OnEntry(c: Colouring, iCount: real)
    requires c.Valid() && !Inside(c, iCount) && IsIntegral(ColourIndex(c, iCount))
    ensures var e := Pick(c, iCount).low; var p := Render32(c, iCount);
      && p.alpha == White32
      && p.red * 255.0 == e.red as real && p.green * 255.0 == e.green as real && p.blue * 255.0 == e.blue as real
  {
    GetColoursOfCount(c.count, c.colours, ColourIndex(c, iCount));
    var k := Pick(c, iCount);
    assert k.weight == 0.0;
    ChannelsAgree(k.low.red, k.high.red);
    ChannelsAgree(k.low.green, k.high.green);
    ChannelsAgree(k.low.blue, k.high.blue);
  }

  /**
   The three depths show the same colour: at an integral colour index the 16- and 32-bit
   channels are the 8-bit channel scaled to their white.
   */
  lemma DepthsAgreeOnEntry(c: Colouring, iCount: real)
    requires c.Valid() && !Inside(c, iCount) && IsIntegral(ColourIndex(c, iCount))
    ensures var p8, p16, p32 := Render8(c, iCount), Render16(c, iCount), Render32(c, iCount);
      && p16.red == To16(p8.red) && p16.green == To16(p8.green) && p16.blue == To16(p8.blue)
      && p32.red * 255.0 == p8.red as real && p32.green * 255.0 == p8.green as real && p32.blue * 255.0 == p8.blue as real
  {
    Render8OnEntry(c, iCount);
    Render16OnEntry(c, iCount);
    Render32OnEntry(c, iCount);
  }

  /** With weight 0 each depth shows the lower entry's channel, scaled to that depth's white. */
  lemma ChannelsAgree(lo: byte, hi: byte)
    ensures RoundTo8Bit(MixChannel(lo as real, hi as real, 0.0)) == lo
    ensures Mix16(lo, hi, 0.0) == To16(lo)
    ensures Mix32(lo, hi, 0.0) * 255.0 == lo as real
  {
    Channel8Agrees(lo, hi);
    Channel32Agrees(lo, hi);
  }

  lemma Channel8Agrees(lo: byte, hi: byte)
    ensures RoundTo8Bit(MixChannel(lo as real, hi as real, 0.0)) == lo
  {
    assert MixChannel(lo as real, hi as real, 0.0) == lo as real;
    assert IsIntegral(lo as real);
  }

  lemma Channel32Agrees(lo: byte, hi: byte)
    ensures Mix32(lo, hi, 0.0) * 255.0 == lo as real
  {
    var a := lo as real * ColourScale32();
    assert Mix32(lo, hi, 0.0) == a;
    assert a * 255.0 == lo as real;
  }
}
