/**
 The 3 x 3 neighbourhood `KFBData::getDistanceMatrix` samples around a point, with the
 mirroring it applies at the edges of the padded plane.

 Entry p[i][j] of the source is field `pIJ`: i is the column (x - step, x, x + step) and j the
 row (y - step, y, y + step). Samples are taken with the corrected bilinear sampler
 `Interpolate.BiLinearEdge`. In minimal mode the four corners are not written, so they keep
 whatever the caller's array held; that array is the parameter `prev`.
 */
module DistanceMatrix {
  import opened Common
  import opened KfbGrid
  import opened Interpolate

  datatype Matrix3 = Matrix3(p00: real, p01: real, p02: real, p10: real, p11: real, p12: real, p20: real, p21: real, p22: real)

  /** The five (or nine) samples before any mirroring; coordinates are padded. */
  function Sampled(k: Kfb, px: real, py: real, step: real, minimal: bool, prev: Matrix3): (m: Matrix3)
    requires k.Valid()
  {
    var d := k.dims;
    var xm, xp := MaxR(0.0, px - step), MinR((d.MemWidth() - 1) as real, px + step);
    var ym, yp := MaxR(0.0, py - step), MinR((d.MemHeight() - 1) as real, py + step);
    var cross := prev.(p10 := BiLinearEdge(k, px, ym), p01 := BiLinearEdge(k, xm, py), p11 := BiLinearEdge(k, px, py),
                       p21 := BiLinearEdge(k, xp, py), p12 := BiLinearEdge(k, px, yp));
    if minimal then cross
    else cross.(p00 := BiLinearEdge(k, xm, ym), p20 := BiLinearEdge(k, xp, ym),
                p02 := BiLinearEdge(k, xm, yp), p22 := BiLinearEdge(k, xp, yp))
  }

  /** The left column is copied from the right one (corners only outside minimal mode). */
  function MirrorLeft(m: Matrix3, minimal: bool): Matrix3 {
    if minimal then m.(p01 := m.p21) else m.(p01 := m.p21, p00 := m.p20, p02 := m.p22)
  }

  function MirrorRight(m: Matrix3, minimal: bool): Matrix3 {
    if minimal then m.(p21 := m.p01) else m.(p21 := m.p01, p20 := m.p00, p22 := m.p02)
  }

  function MirrorTop(m: Matrix3, minimal: bool): Matrix3 {
    if minimal then m.(p10 := m.p12) else m.(p10 := m.p12, p00 := m.p02, p20 := m.p22)
  }

  function MirrorBottom(m: Matrix3, minimal: bool): Matrix3 {
    if minimal then m.(p12 := m.p10) else m.(p12 := m.p10, p02 := m.p00, p22 := m.p20)
  }

  /** The four mirror steps in the source's order, each applied when the step leaves the plane. */
  function Mirror(d: Dims, m: Matrix3, px: real, py: real, step: real, minimal: bool): Matrix3 {
    if step <= 1.0 then m
    else
      var m1 := if px - step < 0.0 then MirrorLeft(m, minimal) else m;
      var m2 := if px + step > (d.MemWidth() - 1) as real then MirrorRight(m1, minimal) else m1;
      var m3 := if py - step < 0.0 then MirrorTop(m2, minimal) else m2;
      if py + step > (d.MemHeight() - 1) as real then MirrorBottom(m3, minimal) else m3
  }

  /**
   `getDistanceMatrix` at pixel (x, y): the centre is the sample at the point, and minimal
   mode never writes a corner. `MirroredEdges` states what the mirroring does at the edges.
   */
  function GetDistanceMatrix(k: Kfb, x: real, y: real, step: real, minimal: bool, prev: Matrix3): (r: Matrix3)
    requires k.Valid()
    ensures r.p11 == BiLinearEdge(k, x + PaddingSize as real, y + PaddingSize as real)
    ensures minimal ==> r.p00 == prev.p00 && r.p02 == prev.p02 && r.p20 == prev.p20 && r.p22 == prev.p22
  {
    var px, py := x + PaddingSize as real, y + PaddingSize as real;
    Mirror(k.dims, Sampled(k, px, py, step, minimal, prev), px, py, step, minimal)
  }

  /**
   When a step larger than one cell leaves the plane on one side, the two outer columns (or
   rows) of the matrix end equal, corners included outside minimal mode.
   */
  lemma MirroredEdges(k: Kfb, x: real, y: real, step: real, minimal: bool, prev: Matrix3)
    requires k.Valid()
    ensures var r, px := GetDistanceMatrix(k, x, y, step, minimal, prev), x + PaddingSize as real;
      step > 1.0 && (px - step < 0.0 || px + step > (k.dims.MemWidth() - 1) as real) ==>
        r.p01 == r.p21 && (!minimal ==> r.p00 == r.p20 && r.p02 == r.p22)
    ensures var r, py := GetDistanceMatrix(k, x, y, step, minimal, prev), y + PaddingSize as real;
      step > 1.0 && (py - step < 0.0 || py + step > (k.dims.MemHeight() - 1) as real) ==>
        r.p10 == r.p12 && (!minimal ==> r.p00 == r.p02 && r.p20 == r.p22)
  {
    var px, py := x + PaddingSize as real, y + PaddingSize as real;
    MirrorEqualises(k.dims, Sampled(k, px, py, step, minimal, prev), px, py, step, minimal);
  }

  /** The mirror steps on any matrix: a side the step leaves is copied from the opposite one. */
  lemma MirrorEqualises(d: Dims, m: Matrix3, px: real, py: real, step: real, minimal: bool)
    ensures var r := Mirror(d, m, px, py, step, minimal);
      step > 1.0 && (px - step < 0.0 || px + step > (d.MemWidth() - 1) as real) ==>
        r.p01 == r.p21 && (!minimal ==> r.p00 == r.p20 && r.p02 == r.p22)
    ensures var r := Mirror(d, m, px, py, step, minimal);
      step > 1.0 && (py - step < 0.0 || py + step > (d.MemHeight() - 1) as real) ==>
        r.p10 == r.p12 && (!minimal ==> r.p00 == r.p02 && r.p20 == r.p22)
  {
  }

  /**
   Mirroring never touches the centre, so it depends only on the point: neither the step, the
   mode nor the previous matrix changes it.
   */
  lemma CentreSample(k: Kfb, x: real, y: real, step1: real, minimal1: bool, prev1: Matrix3,
                     step2: real, minimal2: bool, prev2: Matrix3)
    requires k.Valid()
    ensures GetDistanceMatrix(k, x, y, step1, minimal1, prev1).p11 == GetDistanceMatrix(k, x, y, step2, minimal2, prev2).p11
  {
  }

  /**
   Without mirroring (a step of at most one cell, or a window inside the plane) every entry is
   the sample at its own offset: the cross at (x +- step, y) and (x, y +- step), the corners at
   the diagonal offsets, with offsets clamped to the plane.
   */
  lemma DistanceMatrixSamples(k: Kfb, x: real, y: real, step: real, minimal: bool, prev: Matrix3)
    requires k.Valid()
    requires var px, py := x + PaddingSize as real, y + PaddingSize as real;
      step <= 1.0 || (0.0 <= px - step && px + step <= (k.dims.MemWidth() - 1) as real
                      && 0.0 <= py - step && py + step <= (k.dims.MemHeight() - 1) as real)
    ensures var r := GetDistanceMatrix(k, x, y, step, minimal, prev);
      var px, py := x + PaddingSize as real, y + PaddingSize as real;
      var d := k.dims;
      var xm, xp := MaxR(0.0, px - step), MinR((d.MemWidth() - 1) as real, px + step);
      var ym, yp := MaxR(0.0, py - step), MinR((d.MemHeight() - 1) as real, py + step);
      && r.p01 == BiLinearEdge(k, xm, py) && r.p21 == BiLinearEdge(k, xp, py)
      && r.p10 == BiLinearEdge(k, px, ym) && r.p12 == BiLinearEdge(k, px, yp)
      && (!minimal ==> r.p00 == BiLinearEdge(k, xm, ym) && r.p22 == BiLinearEdge(k, xp, yp)
                       && r.p20 == BiLinearEdge(k, xp, ym) && r.p02 == BiLinearEdge(k, xm, yp))
  {
  }

  /** Element-wise mix of two matrices with weight `w` on the second. */
  function Blend(a: Matrix3, b: Matrix3, w: real): (r: Matrix3)
    ensures r.p11 == Lerp(a.p11, b.p11, w)
  {
    Matrix3(Lerp(a.p00, b.p00, w), Lerp(a.p01, b.p01, w), Lerp(a.p02, b.p02, w),
            Lerp(a.p10, b.p10, w), Lerp(a.p11, b.p11, w), Lerp(a.p12, b.p12, w),
            Lerp(a.p20, b.p20, w), Lerp(a.p21, b.p21, w), Lerp(a.p22, b.p22, w))
  }

  /** A value lies between two others, in either order. */
  predicate Within(v: real, a: real, b: real) {
    MinR(a, b) <= v <= MaxR(a, b)
  }

  /** Every entry of `r` lies between the corresponding entries of `a` and `b`. */
  predicate EntriesBetween(r: Matrix3, a: Matrix3, b: Matrix3) {
    && Within(r.p00, a.p00, b.p00) && Within(r.p01, a.p01, b.p01) && Within(r.p02, a.p02, b.p02)
    && Within(r.p10, a.p10, b.p10) && Within(r.p11, a.p11, b.p11) && Within(r.p12, a.p12, b.p12)
    && Within(r.p20, a.p20, b.p20) && Within(r.p21, a.p21, b.p21) && Within(r.p22, a.p22, b.p22)
  }

  /** With a weight in [0, 1] every entry of the blend lies between the two matrices' entries. */
  lemma {:induction false} BlendBetween(a: Matrix3, b: Matrix3, w: real)
    requires 0.0 <= w <= 1.0
    ensures EntriesBetween(Blend(a, b, w), a, b)
  {
    LerpBetween(a.p00, b.p00, w);
    LerpBetween(a.p01, b.p01, w);
    LerpBetween(a.p02, b.p02, w);
    LerpBetween(a.p10, b.p10, w);
    LerpBetween(a.p11, b.p11, w);
    LerpBetween(a.p12, b.p12, w);
    LerpBetween(a.p20, b.p20, w);
    LerpBetween(a.p21, b.p21, w);
    LerpBetween(a.p22, b.p22, w);
  }

  /**
   Blending with weight 0 keeps the first matrix and with weight 1 gives the second; blending a
   matrix with itself keeps it.
   */
  lemma BlendEnds(a: Matrix3, b: Matrix3, w: real)
    ensures Blend(a, b, 0.0) == a
    ensures Blend(a, b, 1.0) == b
    ensures Blend(a, a, w) == a
  {
    LerpEnds(a.p00, b.p00);
    LerpEnds(a.p01, b.p01);
    LerpEnds(a.p02, b.p02);
    LerpEnds(a.p10, b.p10);
    LerpEnds(a.p11, b.p11);
    LerpEnds(a.p12, b.p12);
    LerpEnds(a.p20, b.p20);
    LerpEnds(a.p21, b.p21);
    LerpEnds(a.p22, b.p22);
    LerpForm(a.p00, a.p00, w);
    LerpForm(a.p01, a.p01, w);
    LerpForm(a.p02, a.p02, w);
    LerpForm(a.p10, a.p10, w);
    LerpForm(a.p11, a.p11, w);
    LerpForm(a.p12, a.p12, w);
    LerpForm(a.p20, a.p20, w);
    LerpForm(a.p21, a.p21, w);
    LerpForm(a.p22, a.p22, w);
  }
}
