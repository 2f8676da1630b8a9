/**
 The per-pixel helpers of `Render.cpp` shared by the colour methods: the iteration-count
 modifier, the choice of the two palette entries an iteration count falls between, the
 round-and-clamp conversions to 8- and 16-bit channels, and the inside colour.

 After Effects' 16-bit white is 0x8000, not 0xffff; 32-bit channels are floats with white 1.
 */
module PixelColour {
  import opened Common
  import opened KfbGrid
  import opened Interpolate

  const White8: int := 0xff
  const White16: int := 0x8000
  const White32: real := 1.0

  /** An output pixel at 8 or 16 bits per channel. */
  datatype Pixel = Pixel(alpha: int, red: int, green: int, blue: int)

  /** An output pixel at 32 bits per channel. */
  datatype PixelF = PixelF(alpha: real, red: real, green: real, blue: real)

  // ---------------------------------------------------------------------------------------
  // doModifier

  const Linear: int := 1
  const SquareRoot: int := 2
  const CubicRoot: int := 3
  const Logarithm: int := 4

  /**
   `doModifier`: reshapes an iteration count. The cube root's argument is raised to at least 0
   and the logarithm's to at least 1; linear and every unknown code leave the count alone.
   */
  function DoModifier(m: MathLib, modifier: int, it: real): (r: real)
    ensures modifier !in {SquareRoot, CubicRoot, Logarithm} ==> r == it
    ensures modifier == CubicRoot && it <= 0.0 ==> r == m.cbrt(0.0)
    ensures modifier == Logarithm && it <= 1.0 ==> r == m.ln(1.0)
  {
    match modifier
    case 1 => it
    case 2 => m.sqrt(it)
    case 3 => m.cbrt(MaxR(0.0, it))
    case 4 => m.ln(MaxR(1.0, it))
    case _ => it
  }

  /**
   Given roots that are non-negative on non-negative arguments and a logarithm that is
   non-negative from 1 up, the cube-root and logarithm modifiers never yield a negative count,
   and no modifier turns a non-negative count negative.
   */
  lemma ModifierNonNegative(m: MathLib, modifier: int, it: real)
    requires RootsNonNegative(m) && LnNonNegativeFromOne(m)
    ensures modifier in {CubicRoot, Logarithm} ==> DoModifier(m, modifier, it) >= 0.0
    ensures it >= 0.0 ==> DoModifier(m, modifier, it) >= 0.0
  {
    assert m.cbrt(MaxR(0.0, it)) >= 0.0;
    assert m.ln(MaxR(1.0, it)) >= 0.0;
  }

  /** The library functions are non-decreasing where `doModifier` applies them. */
  ghost predicate Monotone(m: MathLib) {
    && (forall a: real, b: real {:trigger m.sqrt(a), m.sqrt(b)} :: 0.0 <= a <= b ==> m.sqrt(a) <= m.sqrt(b))
    && (forall a: real, b: real {:trigger m.cbrt(a), m.cbrt(b)} :: 0.0 <= a <= b ==> m.cbrt(a) <= m.cbrt(b))
    && (forall a: real, b: real {:trigger m.ln(a), m.ln(b)} :: 1.0 <= a <= b ==> m.ln(a) <= m.ln(b))
  }

  /**
   With non-decreasing library functions every modifier keeps the order of iteration counts
   (for the square root, of non-negative counts), so a modifier never reorders the palette.
   */
  lemma ModifierMonotone(m: MathLib, modifier: int, a: real, b: real)
    requires Monotone(m) && a <= b
    requires modifier == SquareRoot ==> 0.0 <= a
    ensures DoModifier(m, modifier, a) <= DoModifier(m, modifier, b)
  {
    if modifier == CubicRoot {
      assert m.cbrt(MaxR(0.0, a)) <= m.cbrt(MaxR(0.0, b));
    } else if modifier == Logarithm {
      assert m.ln(MaxR(1.0, a)) <= m.ln(MaxR(1.0, b));
    } else if modifier == SquareRoot {
      assert m.sqrt(a) <= m.sqrt(b);
    }
  }

  // ---------------------------------------------------------------------------------------
  // GetColours

  /** The two palette entries an iteration count falls between, and the weight of the upper one. */
  datatype ColourPick = ColourPick(lowIndex: nat, highIndex: nat, low: Rgb, high: Rgb, weight: real)

  /** `numKFRColours`, with an empty palette counted as one entry. */
  function PaletteSize(count: nat): (n: nat)
    ensures n >= 1 && (count >= 1 ==> n == count)
  {
    if count == 0 then 1 else count
  }

  /**
   Converts the floor of the remainder to `unsigned long` (32 bits on the plug-in's platform).
   A negative value has no defined conversion; it is taken to wrap modulo 2^32.
   */
  function ToULong(v: int): (u: nat)
    ensures 0 <= v < Two32 ==> u == v
    ensures -Two32 <= v < 0 ==> u == v + Two32
  {
    v % Two32
  }

  /**
   `GetColours`: the remainder of the count modulo the palette size picks the lower entry
   (clamped to the last one) and the upper entry just after it, wrapping to the first; the
   fractional part of the remainder is the weight of the upper entry.
   */
  function GetColours(count: nat, colours: seq<Rgb>, iCount: real): (r: ColourPick)
    requires count <= MaxKfrColours && |colours| == MaxKfrColours
    ensures var n := PaletteSize(count);
      && r.lowIndex < n && r.highIndex == (r.lowIndex + 1) % n
      && r.low == colours[r.lowIndex] && r.high == colours[r.highIndex]
      && 0.0 <= r.weight < 1.0
  {
    var n := PaletteSize(count);
    var rem := FMod(iCount, n as real);
    var low := Min(ToULong(Floor(rem)), n - 1);
    var high := if low + 1 > n - 1 then 0 else low + 1;
    assert high == (low + 1) % n by {
      if low + 1 == n { DivModUnique(low + 1, n, 1, 0); } else { DivModUnique(low + 1, n, 0, low + 1); }
    }
    ColourPick(low, high, colours[low], colours[high], Frac(rem))
  }

  /** The remainder differs from the count by a whole number of palette lengths. */
  lemma FModShift(a: real, n: nat)
    requires n >= 1
    ensures exists q: int :: FMod(a, n as real) == a - (n * q) as real
  {
    var q := Trunc(a / n as real);
    assert FMod(a, n as real) == a - (n * q) as real;
  }

  /** Shifting by a whole number keeps the fractional part and shifts the floor. */
  lemma ShiftByInt(a: real, k: int)
    ensures Floor(a - k as real) == Floor(a) - k
    ensures Frac(a - k as real) == Frac(a)
  {
    FloorBounds(a);
    var f := Floor(a) - k;
    assert f as real <= a - k as real < f as real + 1.0;
  }

  /**
   The mixing weight is the fractional part of the count itself, whatever its sign; for a
   non-negative count the lower entry is the floor of the count modulo the palette size.
   */
  lemma GetColoursOfCount(count: nat, colours: seq<Rgb>, iCount: real)
    requires count <= MaxKfrColours && |colours| == MaxKfrColours
    ensures GetColours(count, colours, iCount).weight == Frac(iCount)
    ensures iCount >= 0.0 ==> GetColours(count, colours, iCount).lowIndex == Floor(iCount) % PaletteSize(count)
  {
    var n := PaletteSize(count);
    FModShift(iCount, n);
    var q: int :| FMod(iCount, n as real) == iCount - (n * q) as real;
    var rem := FMod(iCount, n as real);
    ShiftByInt(iCount, n * q);
    if iCount >= 0.0 {
      FloorBounds(rem);
      var f := Floor(rem);
      assert 0 <= f < n;
      assert Floor(iCount) == q * n + f;
      DivModUnique(Floor(iCount), n, q, f);
    }
  }

  /**
   A negative count whose remainder is not zero has a negative floor; its wrapped-around
   conversion is huge and the clamp turns it into the last palette entry.
   */
  lemma GetColoursNegative(count: nat, colours: seq<Rgb>, iCount: real)
    requires count <= MaxKfrColours && |colours| == MaxKfrColours
    requires FMod(iCount, PaletteSize(count) as real) < 0.0
    ensures GetColours(count, colours, iCount).lowIndex == PaletteSize(count) - 1
    ensures GetColours(count, colours, iCount).highIndex == 0
  {
    var n := PaletteSize(count);
    var rem := FMod(iCount, n as real);
    FloorBounds(rem);
    assert -(n as real) < rem;
    assert -n <= Floor(rem) < 0;
  }

  // ---------------------------------------------------------------------------------------
  // Channel conversion

  /** `roundTo8Bit`: rounds half away from zero, then clamps into [black8, white8]. */
  function RoundTo8Bit(f: real): (b: int)
    ensures 0 <= b <= White8
    ensures 0 <= Round(f) <= White8 ==> b == Round(f)
  {
    Clamp(Round(f), 0, White8)
  }

  /** `roundTo16Bit`: rounds half away from zero, then clamps into [black16, white16]. */
  function RoundTo16Bit(f: real): (b: int)
    ensures 0 <= b <= White16
    ensures 0 <= Round(f) <= White16 ==> b == Round(f)
  {
    Clamp(Round(f), 0, White16)
  }

  /** A value in the channel's range is converted to a nearest integer. */
  lemma RoundNearest(f: real)
    ensures 0.0 <= f <= White8 as real ==> -0.5 <= RoundTo8Bit(f) as real - f <= 0.5
    ensures 0.0 <= f <= White16 as real ==> -0.5 <= RoundTo16Bit(f) as real - f <= 0.5
  {
    RoundBounds(f);
    if 0.0 <= f {
      assert 0 <= Round(f);
    }
  }

  /** `std::round` never reverses the order of two values. */
  lemma RoundMonotone(a: real, b: real)
    requires a <= b
    ensures Round(a) <= Round(b)
  {
    if a >= 0.0 {
      assert (a + 0.5).Floor <= (b + 0.5).Floor;
    } else if b < 0.0 {
      assert (-b + 0.5).Floor <= (-a + 0.5).Floor;
    } else {
      assert Round(a) <= 0 <= Round(b) by {
        RoundBounds(a);
        FloorBounds(-a + 0.5);
      }
    }
  }

  /** Both conversions keep the order of channel values. */
  lemma RoundToBitsMonotone(a: real, b: real)
    requires a <= b
    ensures RoundTo8Bit(a) <= RoundTo8Bit(b)
    ensures RoundTo16Bit(a) <= RoundTo16Bit(b)
  {
    RoundMonotone(a, b);
  }

  /** The scale from an 8-bit channel to a 16-bit one, computed in floating point. */
  function ColourScale16(): real { White16 as real / White8 as real }

  /** The scale from an 8-bit channel to a 32-bit one. */
  function ColourScale32(): real { White32 / White8 as real }

  // ---------------------------------------------------------------------------------------
  // Inside colour

  /** `SetInsideColour8`: the inside colour, fully opaque. */
  function SetInsideColour8(inside: Rgb): (p: Pixel)
    ensures p.alpha == White8
    ensures p.red == inside.red && p.green == inside.green && p.blue == inside.blue
  {
    Pixel(White8, inside.red, inside.green, inside.blue)
  }

  /** A channel scaled from 8 to 16 bits and rounded. */
  function To16(c: byte): int { RoundTo16Bit(c as real * ColourScale16()) }

  /**
   `SetInsideColour16`: the inside colour scaled to 16 bits, fully opaque. Black stays 0, white
   becomes 16-bit white, and each channel is within half a step of the exact scaling.
   */
  function SetInsideColour16(inside: Rgb): (p: Pixel)
    ensures p.alpha == White16
    ensures 0 <= p.red <= White16 && 0 <= p.green <= White16 && 0 <= p.blue <= White16
    ensures -0.5 <= p.red as real - inside.red as real * ColourScale16() <= 0.5
    ensures -0.5 <= p.green as real - inside.green as real * ColourScale16() <= 0.5
    ensures -0.5 <= p.blue as real - inside.blue as real * ColourScale16() <= 0.5
  {
    To16Near(inside.red);
    To16Near(inside.green);
    To16Near(inside.blue);
    Pixel(White16, To16(inside.red), To16(inside.green), To16(inside.blue))
  }

  /** An 8-bit channel scaled to 16 bits stays in range, so rounding moves it by at most half a step. */
  lemma To16Near(c: byte)
    ensures -0.5 <= To16(c) as real - c as real * ColourScale16() <= 0.5
  {
    assert 0.0 <= c as real * ColourScale16() <= White16 as real;
    RoundNearest(c as real * ColourScale16());
  }

  /** 8-bit black and white become 16-bit black and white. */
  lemma To16Ends()
    ensures To16(0) == 0 && To16(255) == White16
  {
    assert 255.0 * ColourScale16() == 32768.0;
  }

  /** Scaling to 16 bits keeps the order of channel values. */
  lemma To16Monotone(a: byte, b: byte)
    requires a <= b
    ensures To16(a) <= To16(b)
  {
    RoundToBitsMonotone(a as real * ColourScale16(), b as real * ColourScale16());
  }

  /** `SetInsideColour32`: the inside colour scaled to [0, 1], fully opaque. */
  function SetInsideColour32(inside: Rgb): (p: PixelF)
    ensures p.alpha == White32
    ensures 0.0 <= p.red <= 1.0 && 0.0 <= p.green <= 1.0 && 0.0 <= p.blue <= 1.0
    ensures p.red * 255.0 == inside.red as real && p.green * 255.0 == inside.green as real
      && p.blue * 255.0 == inside.blue as real
  {
    PixelF(White32, inside.red as real * ColourScale32(), inside.green as real * ColourScale32(),
           inside.blue as real * ColourScale32())
  }

  // ---------------------------------------------------------------------------------------
  // Mixing

  /** One channel of the palette mix: `low * (1 - w) + high * w`. */
  function MixChannel(low: real, high: real, w: real): (c: real)
    requires 0.0 <= w < 1.0
    ensures MinR(low, high) <= c <= MaxR(low, high)
    ensures w == 0.0 ==> c == low
    ensures low == high ==> c == low
  {
    LerpBetween(low, high, w);
    LerpForm(low, high, w);
    Lerp(low, high, w)
  }
}
