/**
 Blending of the active and next snapshots (`GetBlendedPixelValue`, `GetBlendedDistanceMatrix`).

 An output pixel is mapped into each snapshot by scaling it about the frame's centre: the
 host's downsampling factor first, then the frame's zoom. The next snapshot's sample is mixed in
 with weight `keyFramePercent` when there is a next snapshot, the weight exceeds 0.01, the next
 zoom is positive and the mapped point lies inside the next snapshot's window.

 Samples are taken with the corrected bicubic sampler `CalculateBiCubicEdge`; the
 float conversions of the coordinates are not modelled.
 */
module FrameBlend {
  import opened Common
  import opened KfbGrid
  import opened Interpolate
  import opened DistanceMatrix

  /** The fields of `LocalSequenceData` the blend reads. */
  datatype View = View(
    width: int,
    height: int,
    scaleFactorX: real,
    scaleFactorY: real,
    activeZoomScale: real,
    nextZoomScale: real,
    keyFramePercent: real,
    useSmooth: bool)

  /** The blend threshold: at or below 1% the next snapshot is ignored. */
  const BlendThreshold: real := 0.01

  /** A point in snapshot coordinates. */
  datatype Point = Point(x: real, y: real)

  /** The output pixel relative to the frame's centre, after the host's downsampling. */
  function Centred(v: View, x: int, y: int): Point {
    Point(x as real * v.scaleFactorX - v.width as real / 2.0, y as real * v.scaleFactorY - v.height as real / 2.0)
  }

  /** The snapshot location of an output pixel at a zoom: its offset from the centre, divided by the zoom. */
  function Location(v: View, x: int, y: int, zoom: real): Point
    requires zoom != 0.0
  {
    var c := Centred(v, x, y);
    Point(c.x / zoom + v.width as real / 2.0, c.y / zoom + v.height as real / 2.0)
  }

  /** The location's offset from the snapshot centre is the pixel's scaled offset divided by the zoom. */
  lemma LocationOffset(v: View, x: int, y: int, zoom: real)
    requires zoom != 0.0
    ensures var p := Location(v, x, y, zoom);
      && p.x - v.width as real / 2.0 == Centred(v, x, y).x / zoom
      && p.y - v.height as real / 2.0 == Centred(v, x, y).y / zoom
  {
  }

  /** Without downsampling and at zoom 1 every pixel maps to itself. */
  lemma LocationIdentity(v: View, x: int, y: int)
    requires v.scaleFactorX == 1.0 && v.scaleFactorY == 1.0
    ensures Location(v, x, y, 1.0) == Point(x as real, y as real)
  {
  }

  /** The centre of the frame is fixed at every zoom. */
  lemma LocationFixesCentre(v: View, x: int, y: int, zoom: real)
    requires zoom != 0.0
    requires Centred(v, x, y) == Point(0.0, 0.0)
    ensures Location(v, x, y, zoom) == Point(v.width as real / 2.0, v.height as real / 2.0)
  {
  }

  /** Whether the next snapshot takes part at all, before its bounds are checked. */
  predicate NextActive(v: View, hasNext: bool) {
    hasNext && v.keyFramePercent > BlendThreshold && v.nextZoomScale > 0.0
  }

  /** The pixel blend's window: the whole loaded rectangle [0, width-1] x [0, height-1]. */
  predicate InPixelWindow(v: View, p: Point) {
    0.0 <= p.x && 0.0 <= p.y && p.x <= (v.width - 1) as real && p.y <= (v.height - 1) as real
  }

  /** The distance blend's window, one pixel narrower on each side: [1, width-2] x [1, height-2]. */
  predicate InDistanceWindow(v: View, p: Point) {
    1.0 <= p.x && 1.0 <= p.y && p.x <= (v.width - 2) as real && p.y <= (v.height - 2) as real
  }

  /** `GetBlendedPixelValue` mixes in the next snapshot. */
  predicate PixelBlends(v: View, hasNext: bool, x: int, y: int) {
    NextActive(v, hasNext) && InPixelWindow(v, Location(v, x, y, v.nextZoomScale))
  }

  /** `GetBlendedDistanceMatrix` mixes in the next snapshot. */
  predicate DistanceBlends(v: View, hasNext: bool, x: int, y: int) {
    NextActive(v, hasNext) && InDistanceWindow(v, Location(v, x, y, v.nextZoomScale))
  }

  /** The sample of one snapshot at the pixel's location for a zoom. */
  function Sample(v: View, k: Kfb, x: int, y: int, zoom: real): real
    requires k.Valid() && zoom != 0.0
  {
    var p := Location(v, x, y, zoom);
    CalculateBiCubicEdge(k, p.x, p.y, v.useSmooth)
  }

  /** The snapshots involved: the active one and, optionally, the next. */
  predicate SnapshotsValid(active: Kfb, next: Option<Kfb>) {
    active.Valid() && (next.Some? ==> next.value.Valid())
  }

  /**
   `GetBlendedPixelValue`: the active snapshot's sample, mixed with the next snapshot's sample
   with weight `keyFramePercent` when the next snapshot takes part and the point lies in it.
   */
  function GetBlendedPixelValue(v: View, active: Kfb, next: Option<Kfb>, x: int, y: int): (r: real)
    requires SnapshotsValid(active, next) && v.activeZoomScale != 0.0
    ensures !PixelBlends(v, next.Some?, x, y) ==> r == Sample(v, active, x, y, v.activeZoomScale)
    ensures PixelBlends(v, next.Some?, x, y) ==>
      r == Lerp(Sample(v, active, x, y, v.activeZoomScale), Sample(v, next.value, x, y, v.nextZoomScale), v.keyFramePercent)
  {
    var a := Sample(v, active, x, y, v.activeZoomScale);
    if PixelBlends(v, next.Some?, x, y) then
      var n := Sample(v, next.value, x, y, v.nextZoomScale);
      var w := v.keyFramePercent;
      MixIsLerp(a, n, w);
      a * (1.0 - w) + n * w
    else a
  }

  /** The source's mixing formula is the linear interpolation from the first sample to the second. */
  lemma MixIsLerp(a: real, n: real, w: real)
    ensures a * (1.0 - w) + n * w == Lerp(a, n, w)
  {
  }

  /**
   The blended value lies between the two samples, and two equal samples blend to themselves,
   for any weight up to 1 (the key-frame split keeps it in [0, 1)).
   */
  lemma BlendedBetween(v: View, active: Kfb, next: Option<Kfb>, x: int, y: int)
    requires SnapshotsValid(active, next) && v.activeZoomScale != 0.0
    requires 0.0 <= v.keyFramePercent <= 1.0
    requires PixelBlends(v, next.Some?, x, y)
    ensures var a, n := Sample(v, active, x, y, v.activeZoomScale), Sample(v, next.value, x, y, v.nextZoomScale);
      var r := GetBlendedPixelValue(v, active, next, x, y);
      && MinR(a, n) <= r <= MaxR(a, n)
      && (a == n ==> r == a)
  {
    var a, n := Sample(v, active, x, y, v.activeZoomScale), Sample(v, next.value, x, y, v.nextZoomScale);
    LerpBetween(a, n, v.keyFramePercent);
  }

  /**
   Snapshots holding one constant smooth value give that value at every pixel, blended or not.
   */
  lemma BlendedConstant(v: View, active: Kfb, next: Option<Kfb>, c: real, x: int, y: int)
    requires SnapshotsValid(active, next) && v.activeZoomScale != 0.0 && v.useSmooth
    requires forall i :: 0 <= i < |active.smooth| ==> active.smooth[i] == c
    requires next.Some? ==> forall i :: 0 <= i < |next.value.smooth| ==> next.value.smooth[i] == c
    ensures GetBlendedPixelValue(v, active, next, x, y) == c
  {
    var p := Location(v, x, y, v.activeZoomScale);
    BiCubicEdgeConstant(active, c, p.x, p.y);
    if PixelBlends(v, next.Some?, x, y) {
      var q := Location(v, x, y, v.nextZoomScale);
      BiCubicEdgeConstant(next.value, c, q.x, q.y);
      LerpForm(c, c, v.keyFramePercent);
    }
  }

  /** A matrix the minimal mode would start from; the blend never uses minimal mode. */
  function Unset(): Matrix3 { Matrix3(0.0, 0.0, 0.0, 0.0, 0.0, 0.0, 0.0, 0.0, 0.0) }

  /** One snapshot's distance matrix at the pixel's location, with a step of one pixel of the output. */
  function MatrixAt(v: View, k: Kfb, x: int, y: int, zoom: real): Matrix3
    requires k.Valid() && zoom != 0.0
  {
    var p := Location(v, x, y, zoom);
    MatrixAtPoint(k, p.x, p.y, 1.0 / zoom)
  }

  /** The distance matrix of a snapshot at a location, for a step, outside minimal mode. */
  function MatrixAtPoint(k: Kfb, px: real, py: real, step: real): (m: Matrix3)
    requires k.Valid()
    ensures m.p11 == BiLinearEdge(k, px + PaddingSize as real, py + PaddingSize as real)
  {
    GetDistanceMatrix(k, px, py, step, false, Unset())
  }

  /**
   `GetBlendedDistanceMatrix`: the active snapshot's distance matrix, mixed element by element
   with the next snapshot's when the next snapshot takes part and the point lies in its
   narrower window.
   */
  function GetBlendedDistanceMatrix(v: View, active: Kfb, next: Option<Kfb>, x: int, y: int): (r: Matrix3)
    requires SnapshotsValid(active, next) && v.activeZoomScale != 0.0
    ensures !DistanceBlends(v, next.Some?, x, y) ==> r == MatrixAt(v, active, x, y, v.activeZoomScale)
    ensures DistanceBlends(v, next.Some?, x, y) ==>
      r == Blend(MatrixAt(v, active, x, y, v.activeZoomScale), MatrixAt(v, next.value, x, y, v.nextZoomScale), v.keyFramePercent)
    ensures DistanceBlends(v, next.Some?, x, y) && v.keyFramePercent <= 1.0 ==>
      EntriesBetween(r, MatrixAt(v, active, x, y, v.activeZoomScale), MatrixAt(v, next.value, x, y, v.nextZoomScale))
  {
    var a := MatrixAt(v, active, x, y, v.activeZoomScale);
    if DistanceBlends(v, next.Some?, x, y) then
      var n := MatrixAt(v, next.value, x, y, v.nextZoomScale);
      if v.keyFramePercent <= 1.0 then BlendBetween(a, n, v.keyFramePercent); Blend(a, n, v.keyFramePercent)
      else Blend(a, n, v.keyFramePercent)
    else a
  }

  /**
   The distance matrix's window lies inside the pixel value's: wherever the matrix is
   blended, so is the value, but a point on the outermost row or column of the next snapshot
   blends its value and not its matrix.
   */
  lemma DistanceWindowInsidePixelWindow(v: View, hasNext: bool, x: int, y: int)
    ensures DistanceBlends(v, hasNext, x, y) ==> PixelBlends(v, hasNext, x, y)
    ensures NextActive(v, hasNext) && Location(v, x, y, v.nextZoomScale) == Point(0.0, 0.0) && v.width >= 1 && v.height >= 1 ==>
      PixelBlends(v, hasNext, x, y) && !DistanceBlends(v, hasNext, x, y)
  {
  }

  /**
   With no next snapshot, a weight at or below the threshold, or a next zoom that is not
   positive, neither blend takes place.
   */
  lemma NoBlendWhenInactive(v: View, active: Kfb, next: Option<Kfb>, x: int, y: int)
    requires SnapshotsValid(active, next) && v.activeZoomScale != 0.0
    requires next.None? || v.keyFramePercent <= BlendThreshold || v.nextZoomScale <= 0.0
    ensures GetBlendedPixelValue(v, active, next, x, y) == Sample(v, active, x, y, v.activeZoomScale)
    ensures GetBlendedDistanceMatrix(v, active, next, x, y) == MatrixAt(v, active, x, y, v.activeZoomScale)
  {
  }
}
