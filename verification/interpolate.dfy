/**
 Sampling a snapshot at real coordinates (`KFBData.cpp`): the Catmull-Rom cubic step, the
 bicubic and bilinear kernels, and the two plane samplers built on them.

 `CalculateBiCubic` and `BiLinearNoPad` follow the source as written. Their clamps leave some
 coordinates reading the wrong cell or a cell outside the padded plane; those reads are the
 preconditions `BiCubicReadsInArray` and `BiLinearReadsInArray`, and the corrected samplers
 `CalculateBiCubicEdge` and `BiLinearEdge` clamp the coordinate itself, as the source's comments
 describe ("returns the nearest edge pixel").
 */
module Interpolate {
  import opened Common
  import opened KfbGrid

  function ClampR(v: real, lo: real, hi: real): (c: real)
    requires lo <= hi
    ensures lo <= c <= hi
    ensures lo <= v <= hi ==> c == v
    ensures v < lo ==> c == lo
    ensures v > hi ==> c == hi
  {
    if v < lo then lo else if v > hi then hi else v
  }

  /** `clampToLong`: truncates toward zero, then clamps into [0, max]. */
  function ClampToLong(v: real, max: int): (c: int)
    requires max >= 0
    ensures 0 <= c <= max
    ensures v < 1.0 ==> c == 0
    ensures v >= max as real ==> c == max
    ensures 0.0 <= v < (max + 1) as real ==> c == Floor(v)
  {
    Clamp(Trunc(v), 0, max)
  }

  /** The fractional part `v - floor(v)`. */
  function Frac(v: real): (f: real)
    ensures 0.0 <= f < 1.0
    ensures f == 0.0 <==> IsIntegral(v)
  {
    FloorBounds(v);
    v - Floor(v) as real
  }

  /** Linear interpolation from `a` (t = 0) to `b` (t = 1). */
  function Lerp(a: real, b: real, t: real): real {
    (1.0 - t) * a + t * b
  }

  lemma LerpForm(a: real, b: real, t: real)
    ensures Lerp(a, b, t) == a + t * (b - a)
  {
    assert (1.0 - t) * a == a - t * a;
    assert t * (b - a) == t * b - t * a;
  }

  /** For t in [0, 1] a linear interpolation stays between its two ends. */
  lemma LerpBetween(a: real, b: real, t: real)
    requires 0.0 <= t <= 1.0
    ensures MinR(a, b) <= Lerp(a, b, t) <= MaxR(a, b)
    ensures Lerp(a, b, 0.0) == a && Lerp(a, b, 1.0) == b
  {
    if a <= b {
      LerpRising(a, b, t);
    } else {
      LerpRising(b, a, 1.0 - t);
      LerpSwap(a, b, t);
    }
    LerpEnds(a, b);
  }

  lemma LerpRising(a: real, b: real, t: real)
    requires 0.0 <= t <= 1.0 && a <= b
    ensures a <= Lerp(a, b, t) <= b
  {
    LerpForm(a, b, t);
    MulBetween(t, b - a);
  }

  lemma LerpSwap(a: real, b: real, t: real)
    ensures Lerp(b, a, 1.0 - t) == Lerp(a, b, t)
  {
  }

  lemma LerpEnds(a: real, b: real)
    ensures Lerp(a, b, 0.0) == a && Lerp(a, b, 1.0) == b
  {
  }

  /** Scaling a non-negative value by a factor in [0, 1] keeps it in [0, value]. */
  lemma MulBetween(t: real, v: real)
    requires 0.0 <= t <= 1.0 && v >= 0.0
    ensures 0.0 <= t * v <= v
  {
    assert v - t * v == (1.0 - t) * v;
  }

  /** `biCubicStep`: the Catmull-Rom cubic through v1 (offset 0) and v2 (offset 1). */
  function BiCubicStep(v0: real, v1: real, v2: real, v3: real, t: real): (r: real)
    ensures t == 0.0 ==> r == v1
    ensures t == 1.0 ==> r == v2
    ensures v0 == v1 == v2 == v3 ==> r == v1
  {
    var a := -v0 / 2.0 + (3.0 * v1) / 2.0 - (3.0 * v2) / 2.0 + v3 / 2.0;
    var b := v0 - (5.0 * v1) / 2.0 + 2.0 * v2 - v3 / 2.0;
    var c := -v0 / 2.0 + v2 / 2.0;
    var d := v1;
    a * (t * t * t) + b * (t * t) + c * t + d
  }

  /** Equally spaced samples of a line are reproduced exactly; in particular constants are. */
  lemma BiCubicStepLinear(p: real, q: real, t: real)
    ensures BiCubicStep(p, p + q, p + 2.0 * q, p + 3.0 * q, t) == p + q + q * t
    ensures BiCubicStep(p, p, p, p, t) == p
  {
    var v0, v1, v2, v3 := p, p + q, p + 2.0 * q, p + 3.0 * q;
    assert -v0 / 2.0 + (3.0 * v1) / 2.0 - (3.0 * v2) / 2.0 + v3 / 2.0 == 0.0;
    assert v0 - (5.0 * v1) / 2.0 + 2.0 * v2 - v3 / 2.0 == 0.0;
    assert -v0 / 2.0 + v2 / 2.0 == q;
  }

  /** Reversing the four samples mirrors the offset. */
  lemma BiCubicStepMirror(v0: real, v1: real, v2: real, v3: real, t: real)
    ensures BiCubicStep(v3, v2, v1, v0, 1.0 - t) == BiCubicStep(v0, v1, v2, v3, t)
  {
    var s := 1.0 - t;
    assert s * s == 1.0 - 2.0 * t + t * t;
    assert s * s * s == 1.0 - 3.0 * t + 3.0 * (t * t) - t * t * t;
  }

  /** A 4 x 4 neighbourhood `v[i][j]`, column i and row j, around cell (1, 1). */
  predicate Is4x4(v: seq<seq<real>>) {
    |v| == 4 && forall i :: 0 <= i < 4 ==> |v[i]| == 4
  }

  /**
   `biCubicIterpolation`: a cubic step down each of the four columns at the y offset, then one
   across the four results at the x offset.
   */
  function BiCubicInterpolation(v: seq<seq<real>>, x: real, y: real): (r: real)
    requires Is4x4(v)
    ensures IsIntegral(x) && IsIntegral(y) ==> r == v[1][1]
    ensures (forall i, j :: 0 <= i < 4 && 0 <= j < 4 ==> v[i][j] == v[0][0]) ==> r == v[0][0]
  {
    var xo, yo := Frac(x), Frac(y);
    var y1 := BiCubicStep(v[0][0], v[0][1], v[0][2], v[0][3], yo);
    var y2 := BiCubicStep(v[1][0], v[1][1], v[1][2], v[1][3], yo);
    var y3 := BiCubicStep(v[2][0], v[2][1], v[2][2], v[2][3], yo);
    var y4 := BiCubicStep(v[3][0], v[3][1], v[3][2], v[3][3], yo);
    BiCubicStep(y1, y2, y3, y4, xo)
  }

  /**
   `BiLinearIterpolation` as written: the x mix is skipped at an integral x, the y mix at an
   integral y; the weights are `ceil - v` and `v - floor`.
   */
  function BiLinearInterpolation(x: real, y: real, ul: real, ur: real, ll: real, lr: real): (r: real)
    ensures r == Lerp(Lerp(ul, ur, Frac(x)), Lerp(ll, lr, Frac(x)), Frac(y))
    ensures MinR(MinR(ul, ur), MinR(ll, lr)) <= r <= MaxR(MaxR(ul, ur), MaxR(ll, lr))
    ensures IsIntegral(x) && IsIntegral(y) ==> r == ul
  {
    var x1 := if IsIntegral(x) then ul else (Ceil(x) as real - x) * ul + (x - Floor(x) as real) * ur;
    var x2 := if IsIntegral(x) then ll else (Ceil(x) as real - x) * ll + (x - Floor(x) as real) * lr;
    AxisMixIsLerp(ul, ur, x);
    AxisMixIsLerp(ll, lr, x);
    AxisMixIsLerp(x1, x2, y);
    LerpBetween(ul, ur, Frac(x));
    LerpBetween(ll, lr, Frac(x));
    LerpBetween(x1, x2, Frac(y));
    if IsIntegral(y) then x1 else (Ceil(y) as real - y) * x1 + (y - Floor(y) as real) * x2
  }

  /** The source's one-axis mix, with its integral shortcut, is a linear interpolation by the fractional part. */
  lemma AxisMixIsLerp(a: real, b: real, v: real)
    ensures (if IsIntegral(v) then a else (Ceil(v) as real - v) * a + (v - Floor(v) as real) * b) == Lerp(a, b, Frac(v))
  {
    if !IsIntegral(v) {
      assert Ceil(v) as real - v == 1.0 - Frac(v);
    }
  }

  /** Index of cell (x, y) of the flat padded plane, with no check that (x, y) is in the plane. */
  predicate FlatInArray(d: Dims, x: int, y: int) {
    0 <= y * d.MemWidth() + x < d.MemCells()
  }

  /** The unchecked read `smoothValue` performs: a column outside the plane wraps into the next or previous row. */
  function FlatSmooth(k: Kfb, x: int, y: int): real
    requires k.Valid() && FlatInArray(k.dims, x, y)
  {
    k.smooth[y * k.dims.MemWidth() + x]
  }

  /** Inside the plane the unchecked read is `smoothValue`. */
  lemma FlatSmoothInPlane(k: Kfb, x: int, y: int)
    requires k.Valid() && k.dims.InPlane(x, y)
    ensures FlatInArray(k.dims, x, y) && FlatSmooth(k, x, y) == SmoothValue(k, x, y)
  {
    IndexBounds(k.dims, x, y);
  }

  /** The base cell (xl, yl) of the bicubic sampler as written, in padded coordinates. */
  function BiCubicBase(d: Dims, x: real, y: real): (b: (int, int))
    requires d.Valid()
    ensures 0 <= b.0 < d.width && 0 <= b.1 < d.height
  {
    (ClampToLong(Floor(x + PaddingSize as real) as real, d.width - 1),
     ClampToLong(Floor(y + PaddingSize as real) as real, d.height - 1))
  }

  /** The 4 x 4 reads of the interpolating branch stay inside the flat plane array. */
  predicate BiCubicReadsInArray(d: Dims, x: real, y: real)
    requires d.Valid()
  {
    var b := BiCubicBase(d, x, y);
    (IsIntegral(x) && IsIntegral(y)) || (b.1 - 1) * d.MemWidth() + b.0 - 1 >= 0
  }

  lemma FlatWindowBounds(d: Dims, xl: int, yl: int, i: int, j: int)
    requires d.Valid() && 0 <= xl < d.width && 0 <= yl < d.height
    requires (yl - 1) * d.MemWidth() + xl - 1 >= 0
    requires 0 <= i < 4 && 0 <= j < 4
    ensures FlatInArray(d, xl + i - 1, yl + j - 1)
  {
    var mw, r := d.MemWidth(), yl + j - 1;
    if r >= 0 {
      MulLeq(0, r, mw);
    }
    MulLeq(r, d.height + 1, mw);
    MulLeq(d.height + 2, d.height + 4, mw);
    assert (d.height + 1) * mw + mw == (d.height + 2) * mw;
  }

  /** The neighbourhood the source gathers: unchecked reads around (xl, yl). */
  function FlatWindow(k: Kfb, xl: int, yl: int): (v: seq<seq<real>>)
    requires k.Valid() && 0 <= xl < k.dims.width && 0 <= yl < k.dims.height
    requires (yl - 1) * k.dims.MemWidth() + xl - 1 >= 0
    ensures Is4x4(v)
  {
    seq(4, i requires 0 <= i < 4 =>
      seq(4, j requires 0 <= j < 4 =>
        FlatWindowBounds(k.dims, xl, yl, i, j);
        FlatSmooth(k, xl + i - 1, yl + j - 1)))
  }

  /**
   `calculateIterationCountBiCubic` as written. Coordinates are pixel coordinates; the base
   cell is clamped to [0, width-1] x [0, height-1] although it is a padded coordinate. At an
   integral point (the padded coordinate is integral exactly when the pixel coordinate is) the iteration or smooth plane is read through `CalcIndexAndClamp`; otherwise
   both branches read the smooth plane.
   */
  function CalculateBiCubic(k: Kfb, x: real, y: real, smooth: bool): (r: real)
    requires k.Valid() && BiCubicReadsInArray(k.dims, x, y)
    ensures && IsIntegral(x) && IsIntegral(y)
            && -2.0 <= x <= (k.dims.width - 3) as real && -2.0 <= y <= (k.dims.height - 3) as real
      ==>
      r == if smooth then SmoothValue(k, Floor(x) + PaddingSize, Floor(y) + PaddingSize)
           else IterationValue(k, Floor(x) + PaddingSize, Floor(y) + PaddingSize) as real
    ensures var b := BiCubicBase(k.dims, x, y);
      !(IsIntegral(x) && IsIntegral(y)) && 1 <= b.0 && 1 <= b.1 ==>
      r == BiCubicInterpolation(Window(k, b.0, b.1), x + PaddingSize as real, y + PaddingSize as real)
  {
    var px, py := x + PaddingSize as real, y + PaddingSize as real;
    var b := BiCubicBase(k.dims, x, y);
    if IsIntegral(x) && IsIntegral(y) then
      BiCubicReadsCell(k.dims, x, y);
      var i := CalcIndexAndClamp(k.dims, b.0, b.1);
      if smooth then k.smooth[i] else k.iter[i] as real
    else
      FlatWindowInside(k, b.0, b.1);
      BiCubicInterpolation(FlatWindow(k, b.0, b.1), px, py)
  }

  /** At a pixel in [-2,width-3] x [-2,height-3] the integral read is the pixel's padded cell. */
  lemma BiCubicReadsCell(d: Dims, x: real, y: real)
    requires d.Valid()
    ensures var b := BiCubicBase(d, x, y);
      -2.0 <= x <= (d.width - 3) as real && -2.0 <= y <= (d.height - 3) as real ==>
      CalcIndexAndClamp(d, b.0, b.1) == MakeIndex(d, Floor(x) + PaddingSize, Floor(y) + PaddingSize)
  {
    BiCubicBaseAxis(x, d.width);
    BiCubicBaseAxis(y, d.height);
  }

  /** On one axis of size n, a pixel coordinate in [-2, n-2) keeps its padded floor as the base. */
  lemma BiCubicBaseAxis(v: real, n: int)
    requires n >= 1
    ensures -2.0 <= v < (n - 2) as real ==> ClampToLong(Floor(v + PaddingSize as real) as real, n - 1) == Floor(v) + PaddingSize
  {
    if -2.0 <= v < (n - 2) as real {
      assert Floor(v + 2.0) == Floor(v) + 2;
      FloorOfInt(Floor(v) + 2);
    }
  }

  /** Away from the first row and column the source's window is the neighbourhood of the base cell. */
  lemma FlatWindowInside(k: Kfb, xl: int, yl: int)
    requires k.Valid() && 0 <= xl < k.dims.width && 0 <= yl < k.dims.height
    requires (yl - 1) * k.dims.MemWidth() + xl - 1 >= 0
    ensures 1 <= xl && 1 <= yl ==> FlatWindow(k, xl, yl) == Window(k, xl, yl)
  {
    if 1 <= xl && 1 <= yl {
      FlatWindowIsWindow(k, xl, yl);
    }
  }

  /** The `smooth` flag only matters at integral points. */
  lemma BiCubicSmoothFlag(k: Kfb, x: real, y: real)
    requires k.Valid() && BiCubicReadsInArray(k.dims, x, y)
    requires !(IsIntegral(x) && IsIntegral(y))
    ensures CalculateBiCubic(k, x, y, true) == CalculateBiCubic(k, x, y, false)
  {
  }

  /** On a one-pixel-high snapshot the base row is 0, so the window starts a row above the plane. */
  lemma BiCubicWindowAbovePlane(d: Dims, x: real, y: real)
    requires d.Valid() && d.height == 1
    ensures BiCubicBase(d, x, y).1 == 0
    ensures (BiCubicBase(d, x, y).1 - 1) * d.MemWidth() + BiCubicBase(d, x, y).0 - 1 < 0
  {
  }

  /** At pixel (2, 0) of the 3 x 3 counterexample the integral lookup returns the cell of pixel (0, 0). */
  lemma BiCubicMissesRightEdge()
    ensures var k := CounterexampleKfb();
      && BiCubicReadsInArray(k.dims, 2.0, 0.0)
      && SmoothValue(k, 2 + PaddingSize, 0 + PaddingSize) == 18.0
      && CalculateBiCubic(k, 2.0, 0.0, true) == 16.0
  {
    var k := CounterexampleKfb();
    assert IsIntegral(2.0) && IsIntegral(0.0) && IsIntegral(4.0) && IsIntegral(2.0);
    assert BiCubicBase(k.dims, 2.0, 0.0) == (2, 2);
  }

  /** The corrected neighbourhood: checked reads around a base cell whose window lies in the plane. */
  function Window(k: Kfb, xl: int, yl: int): (v: seq<seq<real>>)
    requires k.Valid() && 1 <= xl <= k.dims.MemWidth() - 3 && 1 <= yl <= k.dims.MemHeight() - 3
    ensures Is4x4(v)
    ensures forall i, j :: 0 <= i < 4 && 0 <= j < 4 ==> v[i][j] == SmoothValue(k, xl + i - 1, yl + j - 1)
  {
    seq(4, i requires 0 <= i < 4 => seq(4, j requires 0 <= j < 4 => SmoothValue(k, xl + i - 1, yl + j - 1)))
  }

  /**
   The bicubic sampler the comment describes: the pixel coordinate is clamped to the loaded
   rectangle first, so points outside it take the value of the nearest edge point and every
   read lies in the padded plane.
   */
  function CalculateBiCubicEdge(k: Kfb, x: real, y: real, smooth: bool): (r: real)
    requires k.Valid()
    ensures IsIntegral(x) && IsIntegral(y) && k.dims.Loaded(Floor(x) + PaddingSize, Floor(y) + PaddingSize) ==>
      r == if smooth then SmoothValue(k, Floor(x) + PaddingSize, Floor(y) + PaddingSize)
           else IterationValue(k, Floor(x) + PaddingSize, Floor(y) + PaddingSize) as real
  {
    var d := k.dims;
    BiCubicClamped(k, ClampR(x, 0.0, (d.width - 1) as real), ClampR(y, 0.0, (d.height - 1) as real), smooth)
  }

  /** The bicubic sampler at a point (cx, cy) already inside the loaded rectangle. */
  function BiCubicClamped(k: Kfb, cx: real, cy: real, smooth: bool): real
    requires k.Valid() && 0.0 <= cx <= (k.dims.width - 1) as real && 0.0 <= cy <= (k.dims.height - 1) as real
  {
    var xl, yl := Floor(cx) + PaddingSize, Floor(cy) + PaddingSize;
    FloorBounds(cx);
    FloorBounds(cy);
    if IsIntegral(cx) && IsIntegral(cy) then
      if smooth then SmoothValue(k, xl, yl) else IterationValue(k, xl, yl) as real
    else
      BiCubicInterpolation(Window(k, xl, yl), cx + PaddingSize as real, cy + PaddingSize as real)
  }

  /** Points beyond an edge take the value at the nearest point of the loaded rectangle. */
  lemma BiCubicEdgeNearest(k: Kfb, x: real, y: real, smooth: bool)
    requires k.Valid()
    ensures x < 0.0 ==> CalculateBiCubicEdge(k, x, y, smooth) == CalculateBiCubicEdge(k, 0.0, y, smooth)
    ensures x > (k.dims.width - 1) as real ==>
      CalculateBiCubicEdge(k, x, y, smooth) == CalculateBiCubicEdge(k, (k.dims.width - 1) as real, y, smooth)
    ensures y < 0.0 ==> CalculateBiCubicEdge(k, x, y, smooth) == CalculateBiCubicEdge(k, x, 0.0, smooth)
    ensures y > (k.dims.height - 1) as real ==>
      CalculateBiCubicEdge(k, x, y, smooth) == CalculateBiCubicEdge(k, x, (k.dims.height - 1) as real, smooth)
  {
  }

  /** A constant smooth plane samples to that constant everywhere. */
  lemma BiCubicEdgeConstant(k: Kfb, c: real, x: real, y: real)
    requires k.Valid() && forall i :: 0 <= i < |k.smooth| ==> k.smooth[i] == c
    ensures CalculateBiCubicEdge(k, x, y, true) == c
  {
    var d := k.dims;
    BiCubicClampedConstant(k, c, ClampR(x, 0.0, (d.width - 1) as real), ClampR(y, 0.0, (d.height - 1) as real));
  }

  lemma BiCubicClampedConstant(k: Kfb, c: real, cx: real, cy: real)
    requires k.Valid() && forall i :: 0 <= i < |k.smooth| ==> k.smooth[i] == c
    requires 0.0 <= cx <= (k.dims.width - 1) as real && 0.0 <= cy <= (k.dims.height - 1) as real
    ensures BiCubicClamped(k, cx, cy, true) == c
  {
    if !(IsIntegral(cx) && IsIntegral(cy)) {
      BiCubicBetweenConstant(k, c, cx, cy);
    } else {
      FloorBounds(cx);
      FloorBounds(cy);
    }
  }

  lemma BiCubicBetweenConstant(k: Kfb, c: real, cx: real, cy: real)
    requires k.Valid() && forall i :: 0 <= i < |k.smooth| ==> k.smooth[i] == c
    requires 0.0 <= cx <= (k.dims.width - 1) as real && 0.0 <= cy <= (k.dims.height - 1) as real
    requires !(IsIntegral(cx) && IsIntegral(cy))
    ensures BiCubicClamped(k, cx, cy, true) == c
  {
    var xl, yl := Floor(cx) + PaddingSize, Floor(cy) + PaddingSize;
    FloorBounds(cx);
    FloorBounds(cy);
    WindowConstant(k, c, xl, yl);
  }

  lemma WindowConstant(k: Kfb, c: real, xl: int, yl: int)
    requires k.Valid() && forall i :: 0 <= i < |k.smooth| ==> k.smooth[i] == c
    requires 1 <= xl <= k.dims.MemWidth() - 3 && 1 <= yl <= k.dims.MemHeight() - 3
    ensures forall i, j :: 0 <= i < 4 && 0 <= j < 4 ==> Window(k, xl, yl)[i][j] == c
  {
  }

  /**
   Away from the right and bottom edges (0 <= x < width-2, 0 <= y < height-2) the sampler as
   written agrees with the corrected one.
   */
  lemma BiCubicAgreesInside(k: Kfb, x: real, y: real, smooth: bool)
    requires k.Valid()
    requires 0.0 <= x < (k.dims.width - 2) as real && 0.0 <= y < (k.dims.height - 2) as real
    ensures BiCubicReadsInArray(k.dims, x, y)
    ensures CalculateBiCubic(k, x, y, smooth) == CalculateBiCubicEdge(k, x, y, smooth)
  {
    var d := k.dims;
    BiCubicBaseInside(d, x, y);
    FloorBounds(x);
    FloorBounds(y);
    var xl, yl := Floor(x) + PaddingSize, Floor(y) + PaddingSize;
    MulLeq(1, yl - 1, d.MemWidth());
    if IsIntegral(x) && IsIntegral(y) {
      BiCubicAgreesAtPoint(k, x, y, smooth);
    } else {
      BiCubicAgreesBetween(k, x, y, smooth);
    }
  }

  lemma BiCubicAgreesAtPoint(k: Kfb, x: real, y: real, smooth: bool)
    requires k.Valid()
    requires 0.0 <= x < (k.dims.width - 2) as real && 0.0 <= y < (k.dims.height - 2) as real
    requires IsIntegral(x) && IsIntegral(y)
    ensures BiCubicReadsInArray(k.dims, x, y)
    ensures CalculateBiCubic(k, x, y, smooth) == CalculateBiCubicEdge(k, x, y, smooth)
  {
    var d := k.dims;
    BiCubicBaseInside(d, x, y);
    var xl, yl := Floor(x) + PaddingSize, Floor(y) + PaddingSize;
    assert CalcIndexAndClamp(d, xl, yl) == MakeIndex(d, xl, yl);
  }

  lemma BiCubicAgreesBetween(k: Kfb, x: real, y: real, smooth: bool)
    requires k.Valid()
    requires 0.0 <= x < (k.dims.width - 2) as real && 0.0 <= y < (k.dims.height - 2) as real
    requires (Floor(y) + 1) * k.dims.MemWidth() + Floor(x) + 1 >= 0
    requires !(IsIntegral(x) && IsIntegral(y))
    ensures BiCubicReadsInArray(k.dims, x, y)
    ensures CalculateBiCubic(k, x, y, smooth) == CalculateBiCubicEdge(k, x, y, smooth)
  {
    BiCubicBaseInside(k.dims, x, y);
    BiCubicEdgeBetween(k, x, y, smooth);
  }

  /** Inside the loaded rectangle, between grid points, the corrected sampler interpolates the point's neighbourhood. */
  lemma BiCubicEdgeBetween(k: Kfb, x: real, y: real, smooth: bool)
    requires k.Valid()
    requires 0.0 <= x <= (k.dims.width - 1) as real && 0.0 <= y <= (k.dims.height - 1) as real
    requires !(IsIntegral(x) && IsIntegral(y))
    ensures CalculateBiCubicEdge(k, x, y, smooth)
         == BiCubicInterpolation(Window(k, Floor(x) + PaddingSize, Floor(y) + PaddingSize), x + PaddingSize as real, y + PaddingSize as real)
  {
    BiCubicEdgeInside(k, x, y, smooth);
    BiCubicClampedBetween(k, x, y, smooth);
  }

  /** Inside the loaded rectangle the corrected sampler does not move the point. */
  lemma BiCubicEdgeInside(k: Kfb, x: real, y: real, smooth: bool)
    requires k.Valid()
    requires 0.0 <= x <= (k.dims.width - 1) as real && 0.0 <= y <= (k.dims.height - 1) as real
    ensures CalculateBiCubicEdge(k, x, y, smooth) == BiCubicClamped(k, x, y, smooth)
  {
    assert ClampR(x, 0.0, (k.dims.width - 1) as real) == x;
    assert ClampR(y, 0.0, (k.dims.height - 1) as real) == y;
  }

  lemma BiCubicClampedBetween(k: Kfb, x: real, y: real, smooth: bool)
    requires k.Valid()
    requires 0.0 <= x <= (k.dims.width - 1) as real && 0.0 <= y <= (k.dims.height - 1) as real
    requires !(IsIntegral(x) && IsIntegral(y))
    ensures BiCubicClamped(k, x, y, smooth)
         == BiCubicInterpolation(Window(k, Floor(x) + PaddingSize, Floor(y) + PaddingSize), x + PaddingSize as real, y + PaddingSize as real)
  {
  }

  /** Away from the right and bottom edges the base cell is the padded cell of the pixel's floor. */
  lemma BiCubicBaseInside(d: Dims, x: real, y: real)
    requires d.Valid()
    requires 0.0 <= x < (d.width - 2) as real && 0.0 <= y < (d.height - 2) as real
    ensures BiCubicBase(d, x, y) == (Floor(x) + PaddingSize, Floor(y) + PaddingSize)
  {
    FloorBounds(x);
    FloorBounds(y);
    assert Floor(x + 2.0) == Floor(x) + 2;
    assert Floor(y + 2.0) == Floor(y) + 2;
    FloorOfInt(Floor(x) + 2);
    FloorOfInt(Floor(y) + 2);
  }

  /** Where both are defined, the unchecked and the checked neighbourhoods coincide. */
  lemma FlatWindowIsWindow(k: Kfb, xl: int, yl: int)
    requires k.Valid() && 1 <= xl < k.dims.width && 1 <= yl < k.dims.height
    ensures FlatWindow(k, xl, yl) == Window(k, xl, yl)
  {
    var w, v := FlatWindow(k, xl, yl), Window(k, xl, yl);
    forall i | 0 <= i < 4
      ensures w[i] == v[i]
    {
      forall j | 0 <= j < 4
        ensures w[i][j] == v[i][j]
      {
        FlatSmoothInPlane(k, xl + i - 1, yl + j - 1);
      }
    }
  }

  /** The base cell (xl, yl) of the bilinear sampler as written, in padded coordinates. */
  function BiLinearBase(d: Dims, x: real, y: real): (b: (int, int))
    requires d.Valid()
    ensures d.InPlane(b.0, b.1)
  {
    (ClampToLong(Floor(x) as real, d.MemWidth() - 1), ClampToLong(Floor(y) as real, d.MemHeight() - 1))
  }

  /**
   The four reads of the interpolating branch stay inside the flat plane array: the last read,
   one column right of and one row below the base cell, is the one that can fall off its end.
   */
  predicate BiLinearReadsInArray(d: Dims, x: real, y: real)
    requires d.Valid()
  {
    var b := BiLinearBase(d, x, y);
    (IsIntegral(x) && IsIntegral(y)) || (b.1 + 1) * d.MemWidth() + b.0 + 1 < d.MemCells()
  }

  /**
   `calculateIterationCountBiLinearNoPad` as written, on padded coordinates: the base cell is
   clamped to the plane, and the right and lower neighbours are read unchecked beside it.
   */
  function BiLinearNoPad(k: Kfb, x: real, y: real): (r: real)
    requires k.Valid() && BiLinearReadsInArray(k.dims, x, y)
    ensures IsIntegral(x) && IsIntegral(y) && k.dims.InPlane(Floor(x), Floor(y)) ==> r == SmoothValue(k, Floor(x), Floor(y))
    ensures 0.0 <= x < (k.dims.MemWidth() - 1) as real && 0.0 <= y < (k.dims.MemHeight() - 1) as real ==>
      var ul, ur := SmoothValue(k, Floor(x), Floor(y)), SmoothValue(k, Floor(x) + 1, Floor(y));
      var ll, lr := SmoothValue(k, Floor(x), Floor(y) + 1), SmoothValue(k, Floor(x) + 1, Floor(y) + 1);
      && r == Lerp(Lerp(ul, ur, Frac(x)), Lerp(ll, lr, Frac(x)), Frac(y))
      && MinR(MinR(ul, ur), MinR(ll, lr)) <= r <= MaxR(MaxR(ul, ur), MaxR(ll, lr))
  {
    var d := k.dims;
    var b := BiLinearBase(d, x, y);
    var xl, yl := b.0, b.1;
    BiLinearBaseInside(d, x, y);
    if IsIntegral(x) && IsIntegral(y) then SmoothValue(k, xl, yl)
    else
      BiLinearReads(d, xl, yl);
      BiLinearCellsInPlane(k, xl, yl);
      BiLinearInterpolation(x, y, FlatSmooth(k, xl, yl), FlatSmooth(k, xl + 1, yl),
                            FlatSmooth(k, xl, yl + 1), FlatSmooth(k, xl + 1, yl + 1))
  }

  /** A point of the plane keeps its floor as the bilinear base cell. */
  lemma BiLinearBaseInside(d: Dims, x: real, y: real)
    requires d.Valid()
    ensures 0.0 <= x < d.MemWidth() as real ==> BiLinearBase(d, x, y).0 == Floor(x)
    ensures 0.0 <= y < d.MemHeight() as real ==> BiLinearBase(d, x, y).1 == Floor(y)
  {
    FloorOfInt(Floor(x));
    FloorOfInt(Floor(y));
  }

  /** Short of the last column and row, the four unchecked reads are the four neighbouring cells. */
  lemma BiLinearCellsInPlane(k: Kfb, xl: int, yl: int)
    requires k.Valid() && k.dims.InPlane(xl, yl)
    ensures xl + 1 < k.dims.MemWidth() && yl + 1 < k.dims.MemHeight() ==>
      && FlatInArray(k.dims, xl + 1, yl + 1)
      && FlatSmooth(k, xl, yl) == SmoothValue(k, xl, yl)
      && FlatSmooth(k, xl + 1, yl) == SmoothValue(k, xl + 1, yl)
      && FlatSmooth(k, xl, yl + 1) == SmoothValue(k, xl, yl + 1)
      && FlatSmooth(k, xl + 1, yl + 1) == SmoothValue(k, xl + 1, yl + 1)
  {
    if xl + 1 < k.dims.MemWidth() && yl + 1 < k.dims.MemHeight() {
      FlatSmoothInPlane(k, xl, yl);
      FlatSmoothInPlane(k, xl + 1, yl);
      FlatSmoothInPlane(k, xl, yl + 1);
      FlatSmoothInPlane(k, xl + 1, yl + 1);
    }
  }

  /** When the read right of and below (xl, yl) stays in the array, so do the three before it. */
  lemma BiLinearReads(d: Dims, xl: int, yl: int)
    requires d.Valid() && d.InPlane(xl, yl) && (yl + 1) * d.MemWidth() + xl + 1 < d.MemCells()
    ensures FlatInArray(d, xl, yl) && FlatInArray(d, xl + 1, yl)
    ensures FlatInArray(d, xl, yl + 1) && FlatInArray(d, xl + 1, yl + 1)
  {
    var mw := d.MemWidth();
    assert (yl + 1) * mw == yl * mw + mw;
    MulLeq(0, yl, mw);
  }

  /** A 1 x 1 snapshot whose smooth plane holds each cell's own index. */
  function CounterexampleTiny(): (k: Kfb)
    ensures k.Valid() && k.dims == Dims(1, 1)
  {
    Kfb(Dims(1, 1), seq(25, i => i), seq(25, i => i as real), 1, [], 100)
  }

  /**
   Half a cell beyond the last column of row 2 the sampler mixes the edge cell (14) with the
   first cell of row 3 (15), instead of returning the edge value.
   */
  lemma BiLinearWrapsRow()
    ensures var k := CounterexampleTiny();
      && BiLinearReadsInArray(k.dims, 4.5, 2.0)
      && SmoothValue(k, 4, 2) == 14.0
      && BiLinearNoPad(k, 4.5, 2.0) == 14.5
      && BiLinearEdge(k, 4.5, 2.0) == 14.0
  {
    var k := CounterexampleTiny();
    assert Floor(4.5) == 4 && !IsIntegral(4.5) && Ceil(4.5) == 5;
    assert IsIntegral(2.0) && Floor(2.0) == 2;
    assert BiLinearBase(k.dims, 4.5, 2.0) == (4, 2);
    BiLinearEdgeIntegral(k, 4, 2);
    BiLinearEdgeNearest(k, 4.5, 2.0);
  }

  /**
   The bilinear sampler the comment describes: the padded coordinate is clamped to the plane,
   and the base cell is kept one column and one row inside it so that all four reads are checked.
   */
  function BiLinearEdge(k: Kfb, x: real, y: real): (r: real)
    requires k.Valid()
  {
    var d := k.dims;
    var cx, cy := ClampR(x, 0.0, (d.MemWidth() - 1) as real), ClampR(y, 0.0, (d.MemHeight() - 1) as real);
    FloorBounds(cx);
    FloorBounds(cy);
    var xl, yl := Min(Floor(cx), d.MemWidth() - 2), Min(Floor(cy), d.MemHeight() - 2);
    var fx, fy := cx - xl as real, cy - yl as real;
    Lerp(Lerp(SmoothValue(k, xl, yl), SmoothValue(k, xl + 1, yl), fx),
         Lerp(SmoothValue(k, xl, yl + 1), SmoothValue(k, xl + 1, yl + 1), fx), fy)
  }

  /** At an integral cell of the plane the corrected sampler returns that cell. */
  lemma BiLinearEdgeIntegral(k: Kfb, x: int, y: int)
    requires k.Valid() && k.dims.InPlane(x, y)
    ensures BiLinearEdge(k, x as real, y as real) == SmoothValue(k, x, y)
  {
    var d := k.dims;
    FloorOfInt(x);
    FloorOfInt(y);
    var xl, yl := Min(x, d.MemWidth() - 2), Min(y, d.MemHeight() - 2);
    LerpBetween(SmoothValue(k, xl, yl), SmoothValue(k, xl + 1, yl), (x - xl) as real);
    LerpBetween(SmoothValue(k, xl, yl + 1), SmoothValue(k, xl + 1, yl + 1), (x - xl) as real);
    LerpBetween(Lerp(SmoothValue(k, xl, yl), SmoothValue(k, xl + 1, yl), (x - xl) as real),
                Lerp(SmoothValue(k, xl, yl + 1), SmoothValue(k, xl + 1, yl + 1), (x - xl) as real), (y - yl) as real);
  }

  /** Points beyond an edge of the plane take the value at the nearest point on it. */
  lemma BiLinearEdgeNearest(k: Kfb, x: real, y: real)
    requires k.Valid()
    ensures x < 0.0 ==> BiLinearEdge(k, x, y) == BiLinearEdge(k, 0.0, y)
    ensures x > (k.dims.MemWidth() - 1) as real ==> BiLinearEdge(k, x, y) == BiLinearEdge(k, (k.dims.MemWidth() - 1) as real, y)
    ensures y < 0.0 ==> BiLinearEdge(k, x, y) == BiLinearEdge(k, x, 0.0)
    ensures y > (k.dims.MemHeight() - 1) as real ==> BiLinearEdge(k, x, y) == BiLinearEdge(k, x, (k.dims.MemHeight() - 1) as real)
  {
  }

  /**
   Inside the plane, short of the last column and row, the sampler as written agrees with the
   corrected one.
   */
  lemma BiLinearAgreesInside(k: Kfb, x: real, y: real)
    requires k.Valid()
    requires 0.0 <= x < (k.dims.MemWidth() - 1) as real && 0.0 <= y < (k.dims.MemHeight() - 1) as real
    ensures BiLinearReadsInArray(k.dims, x, y)
    ensures BiLinearNoPad(k, x, y) == BiLinearEdge(k, x, y)
  {
    var d := k.dims;
    var xl, yl := Floor(x), Floor(y);
    BiLinearBaseInside(d, x, y);
    MulLeq(yl + 1, d.MemHeight() - 1, d.MemWidth());
    assert (d.MemHeight() - 1) * d.MemWidth() + d.MemWidth() == d.MemCells();
  }

  /** The corrected sampler stays between the least and greatest of the four cells it mixes. */
  lemma BiLinearEdgeConvex(k: Kfb, x: real, y: real)
    requires k.Valid()
    ensures var d := k.dims;
      var cx, cy := ClampR(x, 0.0, (d.MemWidth() - 1) as real), ClampR(y, 0.0, (d.MemHeight() - 1) as real);
      var xl, yl := Min(Floor(cx), d.MemWidth() - 2), Min(Floor(cy), d.MemHeight() - 2);
      && d.InPlane(xl, yl) && d.InPlane(xl + 1, yl + 1)
      && MinR(MinR(SmoothValue(k, xl, yl), SmoothValue(k, xl + 1, yl)), MinR(SmoothValue(k, xl, yl + 1), SmoothValue(k, xl + 1, yl + 1)))
         <= BiLinearEdge(k, x, y)
         <= MaxR(MaxR(SmoothValue(k, xl, yl), SmoothValue(k, xl + 1, yl)), MaxR(SmoothValue(k, xl, yl + 1), SmoothValue(k, xl + 1, yl + 1)))
  {
    var d := k.dims;
    var cx, cy := ClampR(x, 0.0, (d.MemWidth() - 1) as real), ClampR(y, 0.0, (d.MemHeight() - 1) as real);
    FloorBounds(cx);
    FloorBounds(cy);
    var xl, yl := Min(Floor(cx), d.MemWidth() - 2), Min(Floor(cy), d.MemHeight() - 2);
    var fx, fy := cx - xl as real, cy - yl as real;
    var ul, ur, ll, lr := SmoothValue(k, xl, yl), SmoothValue(k, xl + 1, yl), SmoothValue(k, xl, yl + 1), SmoothValue(k, xl + 1, yl + 1);
    LerpBetween(ul, ur, fx);
    LerpBetween(ll, lr, fx);
    LerpBetween(Lerp(ul, ur, fx), Lerp(ll, lr, fx), fy);
  }
}
