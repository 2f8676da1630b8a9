/**
 The frame-level steps of `Render.cpp`: the output rectangles of `SmartPreRender`, the choice
 of the per-pixel function, the split of the key-frame slider in `SmartRender`, and the
 cached-image path (`makeKFBCachedImage`, `DoCachedImages`) with the render state it saves and
 restores around each cache build.

 Drawing an image (`GenerateImage`) and allocating an image are host operations: they are
 parameters, and the model records the state each drawing sees.
 */
module SmartRender {
  import opened Common
  import opened CacheParams
  import opened FrameBlend
  import opened KfbGrid

  // ---------------------------------------------------------------------------------------
  // SmartPreRender

  /** A host rectangle: columns [left, right), rows [top, bottom). */
  datatype Rect = Rect(left: int, right: int, top: int, bottom: int) {
    predicate Contains(x: int, y: int) { left <= x < right && top <= y < bottom }
    predicate WellFormed() { left <= right && top <= bottom }
  }

  const NoRect: Rect := Rect(0, 0, 0, 0)

  /** The two rectangles `SmartPreRender` reports: the largest it could produce, and the one it will. */
  datatype PreRender = PreRender(maxRect: Rect, result: Rect)

  /** The frame of a w x h snapshot. */
  function Frame(w: int, h: int): Rect { Rect(0, w, 0, h) }

  /** The request clamped to the frame. */
  function ClampToFrame(w: int, h: int, r: Rect): Rect {
    Rect(Max(0, r.left), Min(w, r.right), Max(0, r.top), Min(h, r.bottom))
  }

  /**
   `SmartPreRender` as written: invalid sequence data gives two empty rectangles; otherwise the
   maximum is the frame and the request is clamped to it, unless the disjointness test, which
   compares the top with the width and the left with the height, rejects it.
   */
  function SmartPreRenderAsWritten(valid: bool, w: int, h: int, request: Rect): (p: PreRender)
    ensures !valid ==> p == PreRender(NoRect, NoRect)
    ensures valid ==> p.maxRect == Frame(w, h)
  {
    if !valid then PreRender(NoRect, NoRect)
    else if request.top > w || request.left > h || request.bottom < 0 || request.right < 0 then
      PreRender(Frame(w, h), NoRect)
    else PreRender(Frame(w, h), ClampToFrame(w, h, request))
  }

  /**
   A 100 x 50 frame and a request for columns 60 to 80 of its first ten rows: the request
   overlaps the frame, but its left edge exceeds the height and nothing is rendered.
   */
  lemma PreRenderDropsVisiblePixels()
    ensures Frame(100, 50).Contains(60, 0) && Rect(60, 80, 0, 10).Contains(60, 0)
    ensures !SmartPreRenderAsWritten(true, 100, 50, Rect(60, 80, 0, 10)).result.Contains(60, 0)
  {
  }

  /**
   `SmartPreRender` with the disjointness test comparing the left edge with the width and the
   top edge with the height. The result holds exactly the pixels of the request that lie in
   the frame, and it lies within the frame.
   */
  function SmartPreRender(valid: bool, w: int, h: int, request: Rect): (p: PreRender)
    ensures !valid ==> p == PreRender(NoRect, NoRect)
    ensures valid ==> p.maxRect == Frame(w, h)
    ensures valid ==> forall x, y :: p.result.Contains(x, y) <==> request.Contains(x, y) && Frame(w, h).Contains(x, y)
    ensures valid && w >= 0 && h >= 0 && request.WellFormed() ==>
      p.result.WellFormed() && 0 <= p.result.left && p.result.right <= w && 0 <= p.result.top && p.result.bottom <= h
  {
    if !valid then PreRender(NoRect, NoRect)
    else if request.left > w || request.top > h || request.bottom < 0 || request.right < 0 then
      PreRender(Frame(w, h), NoRect)
    else PreRender(Frame(w, h), ClampToFrame(w, h, request))
  }

  /** The two versions agree on every request when the frame is square. */
  lemma PreRenderAgreesWhenSquare(valid: bool, w: int, request: Rect)
    ensures SmartPreRenderAsWritten(valid, w, w, request) == SmartPreRender(valid, w, w, request)
  {
  }

  // ---------------------------------------------------------------------------------------
  // selectPixelRenderFunction8/16/32

  datatype Depth = Depth8 | Depth16 | Depth32

  /** The colour methods the plug-in can draw with. */
  datatype Style = KfrColouring | KfrDistance | DarkLightWave

  datatype PixelFunction = PixelFunction(depth: Depth, style: Style)

  datatype RenderError = UnknownRenderingMethod

  /**
   `selectPixelRenderFunction8`, `16` and `32`: methods 1, 2 and 4 select the KFR colouring,
   the distance estimation and the dark/light wave functions of the requested depth; every
   other method throws.
   */
  function SelectPixelRenderFunction(depth: Depth, colourMethod: int): (r: Result<PixelFunction, RenderError>)
    ensures r.Ok? <==> colourMethod in {1, 2, 4}
    ensures r.Ok? ==> r.value.depth == depth
    ensures colourMethod == 1 ==> r == Ok(PixelFunction(depth, KfrColouring))
    ensures colourMethod == 2 ==> r == Ok(PixelFunction(depth, KfrDistance))
  {
    match colourMethod
    case 1 => Ok(PixelFunction(depth, KfrColouring))
    case 2 => Ok(PixelFunction(depth, KfrDistance))
    case 4 => Ok(PixelFunction(depth, DarkLightWave))
    case _ => Err(UnknownRenderingMethod)
  }

  /** The three depths accept the same methods and select the same style for each. */
  lemma SelectionIndependentOfDepth(a: Depth, b: Depth, colourMethod: int)
    ensures SelectPixelRenderFunction(a, colourMethod).Ok? == SelectPixelRenderFunction(b, colourMethod).Ok?
    ensures SelectPixelRenderFunction(a, colourMethod).Ok? ==>
      SelectPixelRenderFunction(a, colourMethod).value.style == SelectPixelRenderFunction(b, colourMethod).value.style
  {
  }

  // ---------------------------------------------------------------------------------------
  // The key-frame split of SmartRender

  const Two64: int := 0x1_0000_0000_0000_0000

  /** What `SmartRender` derives from the key-frame and colour-division sliders. */
  datatype Split = Split(activeFrame: int, keyFramePercent: real, activeZoomScale: real, nextZoomScale: real, colourDivision: real)

  /**
   The last frame number, `kfbFiles.size() - 1`, computed on an unsigned size: with no files it
   wraps to 2^64 - 1.
   */
  function LastFrame(files: nat): (l: int)
    ensures files >= 1 ==> l == files - 1
  {
    if files == 0 then Two64 - 1 else files - 1
  }

  /** The colour division, with 0 replaced by 0.000001. */
  function NonZeroDivision(d: real): (r: real)
    ensures r != 0.0
    ensures d != 0.0 ==> r == d
  {
    if d == 0.0 then 0.000001 else d
  }

  /**
   The key-frame split: the slider value, limited to the last frame, is cut into the active
   frame (its floor) and the fraction of the way to the next frame; the active frame is drawn
   at zoom 2^fraction and the next one at 2^(fraction - 1).
   */
  function SplitKeyFrame(m: MathLib, keyFrame: real, files: nat, colourDivision: real): (s: Split)
    ensures var k := MinR(keyFrame, LastFrame(files) as real);
      && s.activeFrame as real + s.keyFramePercent == k
      && 0.0 <= s.keyFramePercent < 1.0
    ensures files >= 1 ==> s.activeFrame <= files - 1
    ensures s.colourDivision != 0.0
  {
    var k := MinR(keyFrame, LastFrame(files) as real);
    var active := Floor(k);
    FloorBounds(k);
    var p := k - active as real;
    var ln2 := m.ln(2.0);
    Split(active, p, m.exp(ln2 * p), m.exp(ln2 * (k - 1.0 - active as real)), NonZeroDivision(colourDivision))
  }

  /** A slider value of at least 0 selects an existing file: the active frame indexes the file list. */
  lemma SplitSelectsFile(m: MathLib, keyFrame: real, files: nat, colourDivision: real)
    requires files >= 1 && keyFrame >= 0.0
    ensures 0 <= SplitKeyFrame(m, keyFrame, files, colourDivision).activeFrame < files
  {
  }

  /** The exponential doubles when its argument grows by ln 2. */
  ghost predicate ExpDoubles(m: MathLib) {
    forall a: real, b: real {:trigger m.exp(a), m.exp(b)} :: b == a + m.ln(2.0) ==> m.exp(b) == 2.0 * m.exp(a)
  }

  /**
   The active frame is always drawn at twice the next frame's zoom: consecutive snapshots are
   a factor of two apart, and the pair slides from zooms (1, 1/2) towards (2, 1).
   */
  lemma ZoomsHalve(m: MathLib, keyFrame: real, files: nat, colourDivision: real)
    requires ExpDoubles(m)
    ensures var s := SplitKeyFrame(m, keyFrame, files, colourDivision);
      s.activeZoomScale == 2.0 * s.nextZoomScale
  {
    var s := SplitKeyFrame(m, keyFrame, files, colourDivision);
    var ln2 := m.ln(2.0);
    var p := s.keyFramePercent;
    var k := MinR(keyFrame, LastFrame(files) as real);
    assert k - 1.0 - s.activeFrame as real == p - 1.0;
    assert ln2 * p == ln2 * (p - 1.0) + ln2;
  }

  // ---------------------------------------------------------------------------------------
  // makeKFBCachedImage and DoCachedImages

  /**
   The render state around the cache: the parameters (with the key-frame fraction and the two
   zooms among the untracked ones), the frame numbers of the active and next snapshots, and the
   frames whose image is cached.
   */
  datatype Caching = Caching(settings: Settings, active: int, next: Option<int>, cached: set<int>)

  /** The state a cache build draws with: no blend fraction, zoom 1, and the next zoom 0. */
  predicate DrawsAlone(d: Caching) {
    d.settings.other.keyFramePercent == 0.0
    && d.settings.other.activeZoomScale == 1.0
    && d.settings.other.nextZoomScale == 0.0
  }

  /** A cache build's outcome: the state after it, the states the image was drawn in, and whether it failed. */
  datatype Build = Build(state: Caching, drawn: seq<Caching>, failed: bool)

  /**
   `makeKFBCachedImage` for the active snapshot. Allocation may fail, which returns at once.
   Otherwise the frame is marked cached and the parameters saved, the image is drawn with the
   blend switched off, the three render values are put back, and a drawing error disposes of
   the active snapshot's cache.
   */
  function MakeCachedImage(c: Caching, allocOk: bool, generate: Caching -> bool): (b: Build)
    ensures b.state.active == c.active && b.state.next == c.next
    ensures b.state.settings.other == c.settings.other && b.state.settings.current == c.settings.current
    ensures !allocOk ==> b == Build(c, [], true)
    ensures allocOk ==>
      && |b.drawn| == 1 && DrawsAlone(b.drawn[0]) && b.drawn[0].active == c.active
      && b.drawn[0].settings.current == c.settings.current
      && (b.failed <==> generate(b.drawn[0]))
      && (c.active in b.state.cached <==> !b.failed)
      && (IsCacheInvalid(b.state.settings) <==> c.settings.current.sampling)
    ensures forall f :: f != c.active ==> (f in b.state.cached <==> f in c.cached)
  {
    if !allocOk then Build(c, [], true)
    else
      var o := c.settings.other;
      var saved := c.(cached := c.cached + {c.active}, settings := Save(c.settings));
      var drawing := saved.(settings := saved.settings.(other := o.(keyFramePercent := 0.0, activeZoomScale := 1.0, nextZoomScale := 0.0)));
      var failed := generate(drawing);
      var restored := drawing.(settings := drawing.settings.(other := o));
      assert restored.settings == Save(c.settings);
      if failed then Build(restored.(cached := restored.cached - {restored.active}), [drawing], true)
      else Build(restored, [drawing], false)
  }

  /** The frames `DoCachedImages` disposes of when the parameters changed: the active and the next. */
  function Shown(c: Caching): set<int> {
    {c.active} + (if c.next.Some? then {c.next.value} else {})
  }

  /** The first half of `DoCachedImages`: invalidate, then build the active image if needed. */
  function CacheActive(c: Caching, allocate: int -> bool, generate: Caching -> bool): (b: Build)
    ensures b.state.active == c.active && b.state.next == c.next
    ensures b.state.settings.other == c.settings.other && b.state.settings.current == c.settings.current
    ensures |b.drawn| <= 1 && forall i :: 0 <= i < |b.drawn| ==> DrawsAlone(b.drawn[i]) && b.drawn[i].active == c.active
    ensures !b.failed ==> c.active in b.state.cached
    ensures forall f :: f !in Shown(c) ==> (f in b.state.cached <==> f in c.cached)
    ensures |b.drawn| == 1 && !b.failed ==> !IsCacheInvalid(b.state.settings) || c.settings.current.sampling
    ensures |b.drawn| == 0 ==> b.state.settings == c.settings
  {
    var c1 := if IsCacheInvalid(c.settings) then c.(cached := c.cached - Shown(c)) else c;
    if c1.active !in c1.cached then MakeCachedImage(c1, allocate(c1.active), generate)
    else Build(c1, [], false)
  }

  /**
   `DoCachedImages`: when the parameters changed, the active and next images are disposed of;
   a missing active image is built; a missing next image is built with the next snapshot
   standing in as the active one, which is put back afterwards. The compositing of the two
   images is left to the host.
   */
  function DoCachedImages(c: Caching, allocate: int -> bool, generate: Caching -> bool): (b: Build)
    ensures b.state.active == c.active && b.state.next == c.next
    ensures b.state.settings.other == c.settings.other && b.state.settings.current == c.settings.current
    ensures |b.drawn| <= 2 && forall i :: 0 <= i < |b.drawn| ==> DrawsAlone(b.drawn[i])
    ensures !b.failed ==> c.active in b.state.cached && (c.next.Some? ==> c.next.value in b.state.cached)
    ensures forall f :: f !in Shown(c) ==> (f in b.state.cached <==> f in c.cached)
  {
    var b1 := CacheActive(c, allocate, generate);
    var s := b1.state;
    if b1.failed || s.next.None? || s.next.value in s.cached then b1
    else
      var b2 := MakeCachedImage(s.(active := s.next.value), allocate(s.next.value), generate);
      Build(b2.state.(active := s.active), b1.drawn + b2.drawn, b2.failed)
  }

  /**
   A build of the next image draws it as the active snapshot: every drawing sees the frame it
   builds as the active one, the active snapshot first and the next one second.
   */
  lemma DrawOrder(c: Caching, allocate: int -> bool, generate: Caching -> bool)
    ensures var b := DoCachedImages(c, allocate, generate);
      |b.drawn| == 2 ==> c.next.Some? && b.drawn[0].active == c.active && b.drawn[1].active == c.next.value
  {
  }

  /** With a valid cache holding both images, nothing is drawn and nothing changes. */
  lemma CachedImagesReused(c: Caching, allocate: int -> bool, generate: Caching -> bool)
    requires !IsCacheInvalid(c.settings) && c.active in c.cached && (c.next.Some? ==> c.next.value in c.cached)
    ensures DoCachedImages(c, allocate, generate) == Build(c, [], false)
  {
  }

  /** After a successful build the cache is valid again, unless the parameters ask for sampling. */
  lemma BuiltCacheValid(c: Caching, allocate: int -> bool, generate: Caching -> bool)
    ensures var b := DoCachedImages(c, allocate, generate);
      !b.failed && |b.drawn| > 0 ==> (IsCacheInvalid(b.state.settings) <==> c.settings.current.sampling)
  {
    var b1 := CacheActive(c, allocate, generate);
    var s := b1.state;
    if !b1.failed && s.next.Some? && s.next.value !in s.cached {
      var b2 := MakeCachedImage(s.(active := s.next.value), allocate(s.next.value), generate);
      assert b2.state.settings.current == c.settings.current;
    }
  }

  /**
   The view a cache build draws with never blends: the next snapshot's zoom is 0, so every pixel
   is the active snapshot's sample at zoom 1.
   */
  lemma CacheDrawingDoesNotBlend(d: Caching, v: View, active: Kfb, next: Option<Kfb>, x: int, y: int)
    requires DrawsAlone(d) && SnapshotsValid(active, next)
    requires v.keyFramePercent == d.settings.other.keyFramePercent
    requires v.activeZoomScale == d.settings.other.activeZoomScale
    requires v.nextZoomScale == d.settings.other.nextZoomScale
    ensures GetBlendedPixelValue(v, active, next, x, y) == Sample(v, active, x, y, 1.0)
    ensures GetBlendedDistanceMatrix(v, active, next, x, y) == MatrixAt(v, active, x, y, 1.0)
  {
    NoBlendWhenInactive(v, active, next, x, y);
  }
}
