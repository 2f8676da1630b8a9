/**
 Edge extrapolation into the two-cell border of a padded plane (the padding loops of
 `KFBData::ReadKFBFile`).

 Both planes use the same scheme. First a pass over every column x fills the top and the
 bottom border rows of that column. Then a pass over every row y fills the left and the right
 border columns of that row. The second pass reads cells the first pass wrote, so the four
 corner blocks are extrapolated from already extrapolated rows. The extrapolation step is a
 parameter `ext(edge, inner, k)`, the value k cells beyond `edge` on the line through `inner`
 and `edge`; the two planes instantiate it with `IntExtrapolate` and `RealExtrapolate`.
 */
module Padding {
  import opened Common
  import opened KfbGrid

  /** `std::max(edge + diff * k, 0)` with `diff = edge - inner`. */
  function IntExtrapolate(edge: int, inner: int, k: int): (v: int)
    ensures v >= 0
    ensures edge + (edge - inner) * k >= 0 ==> v == edge + (edge - inner) * k
  {
    Max(edge + (edge - inner) * k, 0)
  }

  /** `std::fmax(edge + diff * k, 0.0f)` with `diff = edge - inner`. */
  function RealExtrapolate(edge: real, inner: real, k: int): (v: real)
    ensures v >= 0.0
    ensures edge + (edge - inner) * k as real >= 0.0 ==> v == edge + (edge - inner) * k as real
  {
    MaxR(edge + (edge - inner) * k as real, 0.0)
  }

  function Cell<T>(d: Dims, p: seq<T>, x: int, y: int): T
    requires d.Valid() && |p| == d.MemCells() && d.InPlane(x, y)
  {
    p[MakeIndex(d, x, y)]
  }

  /** Pads the top and then the bottom of column x (one iteration of the first loop). */
  function PadColumn<T>(d: Dims, ext: (T, T, int) -> T, p: seq<T>, x: int): (q: seq<T>)
    requires d.Valid() && |p| == d.MemCells() && 0 <= x < d.MemWidth()
    ensures |q| == |p|
  {
    var mh := d.MemHeight();
    var edge := Cell(d, p, x, 2);
    var inner := Cell(d, p, x, 3);
    var p1 := p[MakeIndex(d, x, 1) := ext(edge, inner, 1)][MakeIndex(d, x, 0) := ext(edge, inner, 2)];
    var edge' := Cell(d, p1, x, mh - 3);
    var inner' := Cell(d, p1, x, mh - 4);
    p1[MakeIndex(d, x, mh - 2) := ext(edge', inner', 1)][MakeIndex(d, x, mh - 1) := ext(edge', inner', 2)]
  }

  /** The first loop from column x to the last column. */
  function PadColumnsFrom<T>(d: Dims, ext: (T, T, int) -> T, p: seq<T>, x: int): (q: seq<T>)
    requires d.Valid() && |p| == d.MemCells() && 0 <= x <= d.MemWidth()
    ensures |q| == |p|
    decreases d.MemWidth() - x
  {
    if x == d.MemWidth() then p else PadColumnsFrom(d, ext, PadColumn(d, ext, p, x), x + 1)
  }

  /** Pads the left and then the right end of row y (one iteration of the second loop). */
  function PadRow<T>(d: Dims, ext: (T, T, int) -> T, p: seq<T>, y: int): (q: seq<T>)
    requires d.Valid() && |p| == d.MemCells() && 0 <= y < d.MemHeight()
    ensures |q| == |p|
  {
    var mw := d.MemWidth();
    var edge := Cell(d, p, 2, y);
    var inner := Cell(d, p, 3, y);
    var p1 := p[MakeIndex(d, 1, y) := ext(edge, inner, 1)][MakeIndex(d, 0, y) := ext(edge, inner, 2)];
    var edge' := Cell(d, p1, mw - 3, y);
    var inner' := Cell(d, p1, mw - 4, y);
    p1[MakeIndex(d, mw - 2, y) := ext(edge', inner', 1)][MakeIndex(d, mw - 1, y) := ext(edge', inner', 2)]
  }

  /** The second loop from row y to the last row. */
  function PadRowsFrom<T>(d: Dims, ext: (T, T, int) -> T, p: seq<T>, y: int): (q: seq<T>)
    requires d.Valid() && |p| == d.MemCells() && 0 <= y <= d.MemHeight()
    ensures |q| == |p|
    decreases d.MemHeight() - y
  {
    if y == d.MemHeight() then p else PadRowsFrom(d, ext, PadRow(d, ext, p, y), y + 1)
  }

  /** Both padding passes, in the source's order. */
  function Pad<T>(d: Dims, ext: (T, T, int) -> T, p: seq<T>): (q: seq<T>)
    requires d.Valid() && |p| == d.MemCells()
    ensures |q| == |p|
    ensures forall x, y :: d.InPlane(x, y) && d.Loaded(x, y) ==> Cell(d, q, x, y) == Cell(d, p, x, y)
  {
    PassesKeepLoaded(d, ext, p);
    PadRowsFrom(d, ext, PadColumnsFrom(d, ext, p, 0), 0)
  }

  /** Neither pass changes a loaded cell. */
  lemma PassesKeepLoaded<T>(d: Dims, ext: (T, T, int) -> T, p: seq<T>)
    requires d.Valid() && |p| == d.MemCells()
    ensures var q := PadRowsFrom(d, ext, PadColumnsFrom(d, ext, p, 0), 0);
      forall x, y :: d.InPlane(x, y) && d.Loaded(x, y) ==> Cell(d, q, x, y) == Cell(d, p, x, y)
  {
    var c := PadColumnsFrom(d, ext, p, 0);
    forall x, y | d.InPlane(x, y) && d.Loaded(x, y)
      ensures Cell(d, PadRowsFrom(d, ext, c, 0), x, y) == Cell(d, p, x, y)
    {
      PadRowsFromCell(d, ext, c, 0, x, y);
      PadColumnsFromCell(d, ext, p, 0, x, y);
    }
  }

  /**
   What the first pass leaves in cell (x, y), as a function of the plane before it. Only
   column x is read. For a one-pixel-high plane the bottom step reads the row the top step
   has just written.
   */
  function ColumnCell<T>(d: Dims, ext: (T, T, int) -> T, p: seq<T>, x: int, y: int): T
    requires d.Valid() && |p| == d.MemCells() && d.InPlane(x, y)
  {
    var mh := d.MemHeight();
    var top1 := ext(Cell(d, p, x, 2), Cell(d, p, x, 3), 1);
    var bottomInner := if mh - 4 == 1 then top1 else Cell(d, p, x, mh - 4);
    if y == 0 then ext(Cell(d, p, x, 2), Cell(d, p, x, 3), 2)
    else if y == 1 then top1
    else if y == mh - 2 then ext(Cell(d, p, x, mh - 3), bottomInner, 1)
    else if y == mh - 1 then ext(Cell(d, p, x, mh - 3), bottomInner, 2)
    else Cell(d, p, x, y)
  }

  /** What the second pass leaves in cell (x, y); only row y is read. */
  function RowCell<T>(d: Dims, ext: (T, T, int) -> T, p: seq<T>, x: int, y: int): T
    requires d.Valid() && |p| == d.MemCells() && d.InPlane(x, y)
  {
    var mw := d.MemWidth();
    var left1 := ext(Cell(d, p, 2, y), Cell(d, p, 3, y), 1);
    var rightInner := if mw - 4 == 1 then left1 else Cell(d, p, mw - 4, y);
    if x == 0 then ext(Cell(d, p, 2, y), Cell(d, p, 3, y), 2)
    else if x == 1 then left1
    else if x == mw - 2 then ext(Cell(d, p, mw - 3, y), rightInner, 1)
    else if x == mw - 1 then ext(Cell(d, p, mw - 3, y), rightInner, 2)
    else Cell(d, p, x, y)
  }

  /** One column step rewrites column x as `ColumnCell` says and no other cell. */
  lemma PadColumnCell<T>(d: Dims, ext: (T, T, int) -> T, p: seq<T>, x: int, c: int, y: int)
    requires d.Valid() && |p| == d.MemCells() && 0 <= x < d.MemWidth() && d.InPlane(c, y)
    ensures Cell(d, PadColumn(d, ext, p, x), c, y) ==
      if c == x then ColumnCell(d, ext, p, x, y) else Cell(d, p, c, y)
  {
    var mh := d.MemHeight();
    var i0, i1, i2, i3 := MakeIndex(d, x, 0), MakeIndex(d, x, 1), MakeIndex(d, x, mh - 2), MakeIndex(d, x, mh - 1);
    var j := MakeIndex(d, c, y);
    var edge, inner := Cell(d, p, x, 2), Cell(d, p, x, 3);
    var p1 := p[i1 := ext(edge, inner, 1)][i0 := ext(edge, inner, 2)];
    MakeIndexInjective(d, x, mh - 3, x, 0);
    MakeIndexInjective(d, x, mh - 3, x, 1);
    MakeIndexInjective(d, x, mh - 4, x, 0);
    MakeIndexInjective(d, x, mh - 4, x, 1);
    assert Cell(d, p1, x, mh - 3) == Cell(d, p, x, mh - 3);
    assert Cell(d, p1, x, mh - 4) == if mh - 4 == 1 then ext(edge, inner, 1) else Cell(d, p, x, mh - 4);
    MakeIndexInjective(d, c, y, x, 0);
    MakeIndexInjective(d, c, y, x, 1);
    MakeIndexInjective(d, c, y, x, mh - 2);
    MakeIndexInjective(d, c, y, x, mh - 1);
  }

  /** One row step rewrites row y as `RowCell` says and no other cell. */
  lemma PadRowCell<T>(d: Dims, ext: (T, T, int) -> T, p: seq<T>, y: int, x: int, r: int)
    requires d.Valid() && |p| == d.MemCells() && 0 <= y < d.MemHeight() && d.InPlane(x, r)
    ensures Cell(d, PadRow(d, ext, p, y), x, r) ==
      if r == y then RowCell(d, ext, p, x, y) else Cell(d, p, x, r)
  {
    var mw := d.MemWidth();
    MakeIndexInjective(d, x, r, 0, y);
    MakeIndexInjective(d, x, r, 1, y);
    MakeIndexInjective(d, x, r, mw - 2, y);
    MakeIndexInjective(d, x, r, mw - 1, y);
    MakeIndexInjective(d, mw - 3, y, 0, y);
    MakeIndexInjective(d, mw - 3, y, 1, y);
    MakeIndexInjective(d, mw - 4, y, 0, y);
  }

  /** `ColumnCell` of column c depends on column c alone. */
  lemma ColumnCellLocal<T>(d: Dims, ext: (T, T, int) -> T, p: seq<T>, q: seq<T>, c: int, y: int)
    requires d.Valid() && |p| == d.MemCells() && |q| == d.MemCells() && d.InPlane(c, y)
    requires forall r :: 0 <= r < d.MemHeight() ==> Cell(d, p, c, r) == Cell(d, q, c, r)
    ensures ColumnCell(d, ext, p, c, y) == ColumnCell(d, ext, q, c, y)
  {
  }

  /** `RowCell` of row r depends on row r alone. */
  lemma RowCellLocal<T>(d: Dims, ext: (T, T, int) -> T, p: seq<T>, q: seq<T>, x: int, r: int)
    requires d.Valid() && |p| == d.MemCells() && |q| == d.MemCells() && d.InPlane(x, r)
    requires forall c :: 0 <= c < d.MemWidth() ==> Cell(d, p, c, r) == Cell(d, q, c, r)
    ensures RowCell(d, ext, p, x, r) == RowCell(d, ext, q, x, r)
  {
  }

  /** The first pass from column x on: columns before x are untouched, the rest are padded. */
  lemma {:induction false} PadColumnsFromCell<T>(d: Dims, ext: (T, T, int) -> T, p: seq<T>, x: int, c: int, y: int)
    requires d.Valid() && |p| == d.MemCells() && 0 <= x <= d.MemWidth() && d.InPlane(c, y)
    ensures Cell(d, PadColumnsFrom(d, ext, p, x), c, y) ==
      if c >= x then ColumnCell(d, ext, p, c, y) else Cell(d, p, c, y)
    decreases d.MemWidth() - x
  {
    if x < d.MemWidth() {
      var p' := PadColumn(d, ext, p, x);
      PadColumnsFromCell(d, ext, p', x + 1, c, y);
      PadColumnCell(d, ext, p, x, c, y);
      if c >= x + 1 {
        forall r | 0 <= r < d.MemHeight()
          ensures Cell(d, p', c, r) == Cell(d, p, c, r)
        {
          PadColumnCell(d, ext, p, x, c, r);
        }
        ColumnCellLocal(d, ext, p', p, c, y);
      }
    }
  }

  /** The second pass from row y on: rows before y are untouched, the rest are padded. */
  lemma {:induction false} PadRowsFromCell<T>(d: Dims, ext: (T, T, int) -> T, p: seq<T>, y: int, x: int, r: int)
    requires d.Valid() && |p| == d.MemCells() && 0 <= y <= d.MemHeight() && d.InPlane(x, r)
    ensures Cell(d, PadRowsFrom(d, ext, p, y), x, r) ==
      if r >= y then RowCell(d, ext, p, x, r) else Cell(d, p, x, r)
    decreases d.MemHeight() - y
  {
    if y < d.MemHeight() {
      var p' := PadRow(d, ext, p, y);
      PadRowsFromCell(d, ext, p', y + 1, x, r);
      PadRowCell(d, ext, p, y, x, r);
      if r >= y + 1 {
        forall c | 0 <= c < d.MemWidth()
          ensures Cell(d, p', c, r) == Cell(d, p, c, r)
        {
          PadRowCell(d, ext, p, y, c, r);
        }
        RowCellLocal(d, ext, p', p, x, r);
      }
    }
  }

  /** Every cell of the padded plane, in terms of the plane after the first pass. */
  lemma PadCell<T>(d: Dims, ext: (T, T, int) -> T, p: seq<T>, x: int, y: int)
    requires d.Valid() && |p| == d.MemCells() && d.InPlane(x, y)
    ensures Cell(d, Pad(d, ext, p), x, y) == RowCell(d, ext, PadColumnsFrom(d, ext, p, 0), x, y)
  {
    PadRowsFromCell(d, ext, PadColumnsFrom(d, ext, p, 0), 0, x, y);
  }

  /**
   Every border cell is a value `ext` produced, so any property `ok` that every output of
   `ext` has holds of every border cell.
   */
  lemma PadBorderExtrapolated<T>(d: Dims, ext: (T, T, int) -> T, ok: T -> bool, p: seq<T>, x: int, y: int)
    requires d.Valid() && |p| == d.MemCells() && d.InPlane(x, y) && !d.Loaded(x, y)
    requires forall a, b, k :: ok(ext(a, b, k))
    ensures ok(Cell(d, Pad(d, ext, p), x, y))
  {
    var c := PadColumnsFrom(d, ext, p, 0);
    PadCell(d, ext, p, x, y);
    if 2 <= x < d.MemWidth() - 2 {
      assert RowCell(d, ext, c, x, y) == Cell(d, c, x, y);
      PadColumnsFromCell(d, ext, p, 0, x, y);
      ColumnCellBorder(d, ext, ok, p, x, y);
    } else {
      RowCellBorder(d, ext, ok, c, x, y);
    }
  }

  lemma ExtOk<T>(ext: (T, T, int) -> T, ok: T -> bool, a: T, b: T, k: int)
    requires forall a, b, k :: ok(ext(a, b, k))
    ensures ok(ext(a, b, k))
  {
  }

  lemma ColumnCellBorder<T>(d: Dims, ext: (T, T, int) -> T, ok: T -> bool, p: seq<T>, x: int, y: int)
    requires d.Valid() && |p| == d.MemCells() && d.InPlane(x, y)
    requires y < 2 || y >= d.MemHeight() - 2
    requires forall a, b, k :: ok(ext(a, b, k))
    ensures ok(ColumnCell(d, ext, p, x, y))
  {
    var mh := d.MemHeight();
    var e0, i0 := Cell(d, p, x, 2), Cell(d, p, x, 3);
    var top1 := ext(e0, i0, 1);
    var bottomInner := if mh - 4 == 1 then top1 else Cell(d, p, x, mh - 4);
    var e1 := Cell(d, p, x, mh - 3);
    var bi: T := bottomInner;
    if y == 0 {
      assert ok(ext(e0, i0, 2));
    } else if y == 1 {
      assert ok(top1);
    } else if y == mh - 2 {
      ExtOk(ext, ok, e1, bi, 1);
    } else {
      ExtOk(ext, ok, e1, bi, 2);
    }
  }

  lemma RowCellBorder<T>(d: Dims, ext: (T, T, int) -> T, ok: T -> bool, p: seq<T>, x: int, y: int)
    requires d.Valid() && |p| == d.MemCells() && d.InPlane(x, y)
    requires x < 2 || x >= d.MemWidth() - 2
    requires forall a, b, k :: ok(ext(a, b, k))
    ensures ok(RowCell(d, ext, p, x, y))
  {
    var mw := d.MemWidth();
    var e0, i0 := Cell(d, p, 2, y), Cell(d, p, 3, y);
    var left1 := ext(e0, i0, 1);
    var rightInner := if mw - 4 == 1 then left1 else Cell(d, p, mw - 4, y);
    var e1 := Cell(d, p, mw - 3, y);
    var bi: T := rightInner;
    if x == 0 {
      assert ok(ext(e0, i0, 2));
    } else if x == 1 {
      assert ok(left1);
    } else if x == mw - 2 {
      ExtOk(ext, ok, e1, bi, 1);
    } else {
      ExtOk(ext, ok, e1, bi, 2);
    }
  }

  /** The padded integer plane: loaded cells unchanged, every border cell at least 0. */
  function PadIntPlane(d: Dims, p: seq<int>): (q: seq<int>)
    requires d.Valid() && |p| == d.MemCells()
    ensures |q| == |p|
    ensures forall x, y :: d.InPlane(x, y) && d.Loaded(x, y) ==> Cell(d, q, x, y) == Cell(d, p, x, y)
    ensures forall x, y :: d.InPlane(x, y) && !d.Loaded(x, y) ==> Cell(d, q, x, y) >= 0
  {
    var q := Pad(d, IntExtrapolate, p);
    forall x, y | d.InPlane(x, y)
      ensures d.Loaded(x, y) ==> Cell(d, q, x, y) == Cell(d, p, x, y)
      ensures !d.Loaded(x, y) ==> Cell(d, q, x, y) >= 0
    {
      if !d.Loaded(x, y) {
        PadBorderExtrapolated(d, IntExtrapolate, v => v >= 0, p, x, y);
      }
    }
    q
  }

  /** The padded smooth plane: loaded cells unchanged, every border cell at least 0. */
  function PadRealPlane(d: Dims, p: seq<real>): (q: seq<real>)
    requires d.Valid() && |p| == d.MemCells()
    ensures |q| == |p|
    ensures forall x, y :: d.InPlane(x, y) && d.Loaded(x, y) ==> Cell(d, q, x, y) == Cell(d, p, x, y)
    ensures forall x, y :: d.InPlane(x, y) && !d.Loaded(x, y) ==> Cell(d, q, x, y) >= 0.0
  {
    var q := Pad(d, RealExtrapolate, p);
    forall x, y | d.InPlane(x, y)
      ensures d.Loaded(x, y) ==> Cell(d, q, x, y) == Cell(d, p, x, y)
      ensures !d.Loaded(x, y) ==> Cell(d, q, x, y) >= 0.0
    {
      if !d.Loaded(x, y) {
        PadBorderExtrapolated(d, RealExtrapolate, v => v >= 0.0, p, x, y);
      }
    }
    q
  }

  /**
   For planes at least two pixels wide and high, the top border cells of a loaded column are
   extrapolated from the first two loaded cells of that column, and the bottom ones from the
   last two.
   */
  lemma PadClosedForm<T>(d: Dims, ext: (T, T, int) -> T, p: seq<T>, x: int)
    requires d.Valid() && d.width >= 2 && d.height >= 2 && |p| == d.MemCells()
    requires 2 <= x < d.MemWidth() - 2
    ensures Cell(d, Pad(d, ext, p), x, 1) == ext(Cell(d, p, x, 2), Cell(d, p, x, 3), 1)
    ensures Cell(d, Pad(d, ext, p), x, 0) == ext(Cell(d, p, x, 2), Cell(d, p, x, 3), 2)
    ensures var mh := d.MemHeight();
      Cell(d, Pad(d, ext, p), x, mh - 2) == ext(Cell(d, p, x, mh - 3), Cell(d, p, x, mh - 4), 1)
    ensures var mh := d.MemHeight();
      Cell(d, Pad(d, ext, p), x, mh - 1) == ext(Cell(d, p, x, mh - 3), Cell(d, p, x, mh - 4), 2)
  {
    var mh := d.MemHeight();
    PadCell(d, ext, p, x, 1);
    PadCell(d, ext, p, x, 0);
    PadCell(d, ext, p, x, mh - 2);
    PadCell(d, ext, p, x, mh - 1);
    PadColumnsFromCell(d, ext, p, 0, x, 1);
    PadColumnsFromCell(d, ext, p, 0, x, 0);
    PadColumnsFromCell(d, ext, p, 0, x, mh - 2);
    PadColumnsFromCell(d, ext, p, 0, x, mh - 1);
  }

  /** The corner cell (1, 1) is extrapolated from row 1, itself extrapolated in the first pass. */
  lemma PadCornerFromPaddedRow<T>(d: Dims, ext: (T, T, int) -> T, p: seq<T>)
    requires d.Valid() && d.width >= 2 && d.height >= 2 && |p| == d.MemCells()
    ensures Cell(d, Pad(d, ext, p), 1, 1) ==
      ext(ext(Cell(d, p, 2, 2), Cell(d, p, 2, 3), 1), ext(Cell(d, p, 3, 2), Cell(d, p, 3, 3), 1), 1)
  {
    PadCell(d, ext, p, 1, 1);
    PadColumnsFromCell(d, ext, p, 0, 2, 1);
    PadColumnsFromCell(d, ext, p, 0, 3, 1);
  }

  /**
   For planes at least two pixels wide and high, the padded plane depends on the loaded
   cells only: whatever the border held before padding (the host memory is not zeroed) does
   not show in the result.
   */
  lemma PadIgnoresOldBorder<T>(d: Dims, ext: (T, T, int) -> T, p: seq<T>, q: seq<T>, x: int, y: int)
    requires d.Valid() && d.width >= 2 && d.height >= 2 && |p| == d.MemCells() && |q| == d.MemCells()
    requires forall a, b :: d.InPlane(a, b) && d.Loaded(a, b) ==> Cell(d, p, a, b) == Cell(d, q, a, b)
    requires d.InPlane(x, y)
    ensures Cell(d, Pad(d, ext, p), x, y) == Cell(d, Pad(d, ext, q), x, y)
  {
    var cp := PadColumnsFrom(d, ext, p, 0);
    var cq := PadColumnsFrom(d, ext, q, 0);
    PadCell(d, ext, p, x, y);
    PadCell(d, ext, q, x, y);
    forall c | 2 <= c < d.MemWidth() - 2
      ensures Cell(d, cp, c, y) == Cell(d, cq, c, y)
    {
      PadColumnsFromCell(d, ext, p, 0, c, y);
      PadColumnsFromCell(d, ext, q, 0, c, y);
    }
  }

  /** A worked example: a column rising 7, 10 towards the edge continues 13, 16 into the border. */
  lemma IntExtrapolateExample()
    ensures IntExtrapolate(10, 7, 1) == 13 && IntExtrapolate(10, 7, 2) == 16
    ensures IntExtrapolate(7, 10, 1) == 4 && IntExtrapolate(7, 10, 2) == 1
    ensures IntExtrapolate(2, 5, 1) == 0 && IntExtrapolate(2, 5, 2) == 0
  {
  }
}
