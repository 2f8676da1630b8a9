/**
 The padded iteration grid of a `.kfb` snapshot (`KFBData`).

 A snapshot of `width` x `height` pixels is stored in two planes, the integer iteration counts
 and the real "smooth" counts. Each plane carries a border of `PaddingSize` extrapolated cells
 on every side, so a plane is `MemWidth()` x `MemHeight()` cells, stored row-major.
 Coordinates written (x, y) with 0 <= x < MemWidth() are *padded* coordinates; the loaded
 pixel (x, y) of the snapshot lives at padded cell (x + 2, y + 2).
 */
module KfbGrid {
  import opened Common

  /** Width of the extrapolated border on each side of a plane. */
  const PaddingSize: int := 2

  /** Size in bytes of a C++ `int`. */
  const IntBytes: int := 4

  datatype Dims = Dims(width: int, height: int) {
    predicate Valid() { width >= 1 && height >= 1 }
    function MemWidth(): int { width + 2 * PaddingSize }
    function MemHeight(): int { height + 2 * PaddingSize }
    function MemCells(): int { MemWidth() * MemHeight() }

    /** Is (x, y) a cell of the padded plane? */
    predicate InPlane(x: int, y: int) { 0 <= x < MemWidth() && 0 <= y < MemHeight() }

    /** Is padded cell (x, y) one of the loaded pixels (not a border cell)? */
    predicate Loaded(x: int, y: int) {
      PaddingSize <= x < width + PaddingSize && PaddingSize <= y < height + PaddingSize
    }
  }

  /** Number of bytes of iteration data in the snapshot (`dataSize`). */
  function DataSize(d: Dims): (n: int)
    requires d.Valid()
    ensures n > 0 && n % IntBytes == 0 && n / IntBytes == d.width * d.height
  {
    d.width * d.height * IntBytes
  }

  /** Row-major index of padded cell (x, y) (`makeIndex`). */
  function MakeIndex(d: Dims, x: int, y: int): (i: int)
    requires d.Valid() && d.InPlane(x, y)
    ensures 0 <= i < d.MemCells()
  {
    IndexBounds(d, x, y);
    y * d.MemWidth() + x
  }

  lemma IndexBounds(d: Dims, x: int, y: int)
    requires d.Valid() && d.InPlane(x, y)
    ensures 0 <= y * d.MemWidth() + x < d.MemCells()
    ensures (y * d.MemWidth() + x) % d.MemWidth() == x
    ensures (y * d.MemWidth() + x) / d.MemWidth() == y
  {
    var mw, mh := d.MemWidth(), d.MemHeight();
    assert y * mw <= (mh - 1) * mw by {
      MulLeq(y, mh - 1, mw);
    }
    assert (mh - 1) * mw + mw == mh * mw;
    DivModUnique(y * mw + x, mw, y, x);
  }

  lemma MulLeq(a: int, b: int, c: int)
    requires a <= b && c >= 0
    ensures a * c <= b * c
  {
  }

  /** The quotient and remainder of a division by a positive number are unique. */
  lemma DivModUnique(n: int, m: int, q: int, r: int)
    requires m > 0 && 0 <= r < m && n == q * m + r
    ensures n / m == q && n % m == r
  {
    var q', r' := n / m, n % m;
    assert n == q' * m + r';
    if q' > q {
      MulLeq(q + 1, q', m);
    } else if q' < q {
      MulLeq(q' + 1, q, m);
    }
  }

  /** The cell's coordinates are recovered from its index by division and remainder. */
  lemma MakeIndexRoundTrip(d: Dims, x: int, y: int)
    requires d.Valid() && d.InPlane(x, y)
    ensures MakeIndex(d, x, y) % d.MemWidth() == x && MakeIndex(d, x, y) / d.MemWidth() == y
  {
    IndexBounds(d, x, y);
  }

  /** Distinct padded cells have distinct indices. */
  lemma MakeIndexInjective(d: Dims, x1: int, y1: int, x2: int, y2: int)
    requires d.Valid() && d.InPlane(x1, y1) && d.InPlane(x2, y2)
    ensures MakeIndex(d, x1, y1) == MakeIndex(d, x2, y2) <==> x1 == x2 && y1 == y2
  {
    MakeIndexRoundTrip(d, x1, y1);
    MakeIndexRoundTrip(d, x2, y2);
  }

  /** Every index of the plane is the index of some cell. */
  lemma MakeIndexSurjective(d: Dims, i: int)
    requires d.Valid() && 0 <= i < d.MemCells()
    ensures d.InPlane(i % d.MemWidth(), i / d.MemWidth())
    ensures MakeIndex(d, i % d.MemWidth(), i / d.MemWidth()) == i
  {
    assert i == (i / d.MemWidth()) * d.MemWidth() + i % d.MemWidth();
    var mw, mh := d.MemWidth(), d.MemHeight();
    var y := i / mw;
    if y >= mh {
      MulLeq(mh, y, mw);
    }
  }

  function Clamp(v: int, lo: int, hi: int): (c: int)
    requires lo <= hi
    ensures lo <= c <= hi
    ensures lo <= v <= hi ==> c == v
    ensures v < lo ==> c == lo
    ensures v > hi ==> c == hi
  {
    if v < lo then lo else if v > hi then hi else v
  }

  /**
   `calcIndexAndClamp`: clamps (x, y) to the rectangle [0, width-1] x [0, height-1] and returns
   its index. The clamp bounds are the *logical* size, although callers pass padded coordinates,
   so the result always lies in the upper-left width x height cells of the padded plane.
   */
  function CalcIndexAndClamp(d: Dims, x: int, y: int): (i: int)
    requires d.Valid()
    ensures 0 <= i < d.MemCells()
    ensures 0 <= i % d.MemWidth() < d.width && 0 <= i / d.MemWidth() < d.height
    ensures 0 <= x < d.width && 0 <= y < d.height ==> i == MakeIndex(d, x, y)
    ensures 0 <= x < d.width ==> i % d.MemWidth() == x
    ensures 0 <= y < d.height ==> i / d.MemWidth() == y
    ensures x >= d.width ==> i % d.MemWidth() == d.width - 1
    ensures x < 0 ==> i % d.MemWidth() == 0
    ensures y >= d.height ==> i / d.MemWidth() == d.height - 1
    ensures y < 0 ==> i / d.MemWidth() == 0
  {
    var cx, cy := Clamp(x, 0, d.width - 1), Clamp(y, 0, d.height - 1);
    MakeIndexRoundTrip(d, cx, cy);
    MakeIndex(d, cx, cy)
  }

  /**
   A decoded snapshot: its dimensions, the two padded planes, and the header values.
   `colours` holds the `numColours` palette entries read from the file.
   */
  datatype Kfb = Kfb(
    dims: Dims,
    iter: seq<int>,
    smooth: seq<real>,
    colourDiv: int,
    colours: seq<Rgb>,
    maxIterations: int)
  {
    predicate Valid() {
      && dims.Valid()
      && |iter| == dims.MemCells()
      && |smooth| == dims.MemCells()
      && |colours| <= MaxKfrColours
    }
  }

  /** `smoothValue`: an unclamped read, defined only on cells of the padded plane. */
  function SmoothValue(k: Kfb, x: int, y: int): real
    requires k.Valid() && k.dims.InPlane(x, y)
  {
    k.smooth[MakeIndex(k.dims, x, y)]
  }

  /** `iterationValue`: an unclamped read, defined only on cells of the padded plane. */
  function IterationValue(k: Kfb, x: int, y: int): int
    requires k.Valid() && k.dims.InPlane(x, y)
  {
    k.iter[MakeIndex(k.dims, x, y)]
  }

  /**
   `getIterationCount` as written: shifts the pixel coordinate by the padding and then clamps
   with `CalcIndexAndClamp`, whose bounds are the logical size.
   */
  function GetIterationCount(k: Kfb, x: int, y: int): (r: int)
    requires k.Valid()
    ensures var cx, cy := Clamp(x, -PaddingSize, k.dims.width - 1 - PaddingSize), Clamp(y, -PaddingSize, k.dims.height - 1 - PaddingSize);
      r == IterationValue(k, cx + PaddingSize, cy + PaddingSize)
  {
    ClampedIndex(k.dims, x + PaddingSize, y + PaddingSize);
    k.iter[CalcIndexAndClamp(k.dims, x + PaddingSize, y + PaddingSize)]
  }

  /** `getIterationCountSmooth`, with the same clamp as `GetIterationCount`. */
  function GetIterationCountSmooth(k: Kfb, x: int, y: int): (r: real)
    requires k.Valid()
    ensures var cx, cy := Clamp(x, -PaddingSize, k.dims.width - 1 - PaddingSize), Clamp(y, -PaddingSize, k.dims.height - 1 - PaddingSize);
      r == SmoothValue(k, cx + PaddingSize, cy + PaddingSize)
  {
    ClampedIndex(k.dims, x + PaddingSize, y + PaddingSize);
    k.smooth[CalcIndexAndClamp(k.dims, x + PaddingSize, y + PaddingSize)]
  }

  /** The clamped index is the index of the padded cell nearest (x, y) within the logical size. */
  lemma ClampedIndex(d: Dims, x: int, y: int)
    requires d.Valid()
    ensures CalcIndexAndClamp(d, x, y) == MakeIndex(d, Clamp(x, 0, d.width - 1), Clamp(y, 0, d.height - 1))
  {
    var i, mw := CalcIndexAndClamp(d, x, y), d.MemWidth();
    assert i == (i / mw) * mw + i % mw;
  }

  /** For pixels with -2 <= x <= width-3 (likewise y) the lookup reads padded cell (x+2, y+2). */
  lemma GetIterationCountInRange(k: Kfb, x: int, y: int)
    requires k.Valid()
    requires -PaddingSize <= x <= k.dims.width - 1 - PaddingSize
    requires -PaddingSize <= y <= k.dims.height - 1 - PaddingSize
    ensures GetIterationCount(k, x, y) == IterationValue(k, x + PaddingSize, y + PaddingSize)
    ensures GetIterationCountSmooth(k, x, y) == SmoothValue(k, x + PaddingSize, y + PaddingSize)
  {
  }

  /**
   The last two loaded columns are never returned: for a snapshot at least three pixels wide,
   pixel x = width-1 reads the same cell as pixel x = width-3.
   */
  lemma GetIterationCountRightEdge(k: Kfb, y: int)
    requires k.Valid() && k.dims.width >= 3
    ensures GetIterationCount(k, k.dims.width - 1, y) == GetIterationCount(k, k.dims.width - 3, y)
  {
  }

  /** A concrete 3 x 3 snapshot whose iteration plane holds each cell's own index. */
  function CounterexampleKfb(): (k: Kfb)
    ensures k.Valid() && k.dims == Dims(3, 3)
  {
    Kfb(Dims(3, 3), seq(49, i => i), seq(49, i => i as real), 1, [], 100)
  }

  /** In that snapshot, pixel (2, 0) holds 18 but `getIterationCount(2, 0)` yields 16. */
  lemma GetIterationCountMissesLoadedCell()
    ensures var k := CounterexampleKfb();
      && IterationValue(k, 2 + PaddingSize, 0 + PaddingSize) == 18
      && GetIterationCount(k, 2, 0) == 16
  {
  }

  /**
   The lookup the comment "returns boundary pixel if out of bounds" describes: clamp the pixel
   to the loaded rectangle first, then shift by the padding.
   */
  function GetIterationCountEdge(k: Kfb, x: int, y: int): (v: int)
    requires k.Valid()
    ensures k.dims.Loaded(x + PaddingSize, y + PaddingSize) ==>
      v == IterationValue(k, x + PaddingSize, y + PaddingSize)
  {
    var d := k.dims;
    IterationValue(k, Clamp(x, 0, d.width - 1) + PaddingSize, Clamp(y, 0, d.height - 1) + PaddingSize)
  }

  /** Out-of-range pixels read the nearest loaded pixel, and every loaded pixel is reachable. */
  lemma GetIterationCountEdgeNearest(k: Kfb, x: int, y: int)
    requires k.Valid()
    ensures x < 0 ==> GetIterationCountEdge(k, x, y) == GetIterationCountEdge(k, 0, y)
    ensures x >= k.dims.width ==> GetIterationCountEdge(k, x, y) == GetIterationCountEdge(k, k.dims.width - 1, y)
    ensures y < 0 ==> GetIterationCountEdge(k, x, y) == GetIterationCountEdge(k, x, 0)
    ensures y >= k.dims.height ==> GetIterationCountEdge(k, x, y) == GetIterationCountEdge(k, x, k.dims.height - 1)
  {
  }
}
