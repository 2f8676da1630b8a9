/**
 The render parameters of `LocalSequenceData` that decide whether a cached image is still
 usable (`saveCachedParameters`, `isCacheInvalid`).

 `Tracked` holds the seventeen parameters the cache depends on; a `Settings` value holds the
 current ones, the copy saved when the cache was built, and the parameters the cache ignores.
 */
module CacheParams {
  import opened Common

  datatype Tracked = Tracked(
    colourDivision: real,
    modifier: int,
    colourMethod: int,
    useSmooth: bool,
    scaleFactorX: real,
    scaleFactorY: real,
    bitDepth: int,
    insideColour: Rgb,
    distanceClamp: real,
    colourOffset: real,
    slopesEnabled: bool,
    slopeShadowDepth: real,
    slopeStrength: real,
    slopeAngle: real,
    slopeMethod: int,
    sampling: bool,
    special: real)

  /** Parameters that are read while rendering but do not invalidate the cache. */
  datatype Untracked = Untracked(
    keyFramePercent: real,
    activeZoomScale: real,
    nextZoomScale: real,
    scalingMode: int,
    slopeAngleX: real,
    slopeAngleY: real,
    overrideMinimalDistance: bool)

  datatype Settings = Settings(current: Tracked, cached: Tracked, other: Untracked)

  /** The current parameters a new object starts with. */
  function DefaultTracked(): Tracked {
    Tracked(1.0, 1, 1, true, 1.0, 1.0, 0, Rgb(0, 0, 0), 0.0, 0.0, false, 0.0, 0.0, 0.0, 1, false, 0.0)
  }

  /** The saved copy a new object starts with: only the two scale factors differ (0 instead of 1). */
  function DefaultCached(): Tracked {
    DefaultTracked().(scaleFactorX := 0.0, scaleFactorY := 0.0)
  }

  function DefaultSettings(): Settings {
    Settings(DefaultTracked(), DefaultCached(), Untracked(0.0, 1.0, 2.0, 1, 0.0, 0.0, false))
  }

  /** `saveCachedParameters`: copies every tracked parameter into the saved copy. */
  function Save(s: Settings): (r: Settings)
    ensures r.current == s.current && r.other == s.other
    ensures !IsCacheInvalid(r) <==> !s.current.sampling
  {
    s.(cached := s.current)
  }

  /** `isCacheInvalid`: always while sampling, otherwise when any tracked parameter differs. */
  function IsCacheInvalid(s: Settings): (b: bool)
    ensures b <==> s.current.sampling || s.cached != s.current
  {
    var c, k := s.current, s.cached;
    s.current.sampling ||
    !(k.colourDivision == c.colourDivision
      && k.modifier == c.modifier
      && k.colourMethod == c.colourMethod
      && k.useSmooth == c.useSmooth
      && k.scaleFactorX == c.scaleFactorX
      && k.scaleFactorY == c.scaleFactorY
      && k.bitDepth == c.bitDepth
      && k.insideColour == c.insideColour
      && k.colourOffset == c.colourOffset
      && k.distanceClamp == c.distanceClamp
      && k.slopesEnabled == c.slopesEnabled
      && k.slopeShadowDepth == c.slopeShadowDepth
      && k.slopeStrength == c.slopeStrength
      && k.slopeAngle == c.slopeAngle
      && k.slopeMethod == c.slopeMethod
      && k.sampling == c.sampling
      && k.special == c.special)
  }

  /** A new object reports an invalid cache. */
  lemma FreshCacheInvalid()
    ensures IsCacheInvalid(DefaultSettings())
  {
  }

  /** After a save, changing any tracked parameter invalidates the cache. */
  lemma TrackedChangeInvalidates(s: Settings, t: Tracked)
    requires t != s.current
    ensures IsCacheInvalid(Save(s).(current := t))
  {
  }

  /** For instance the modifier, the colour offset and the horizontal scale factor. */
  lemma TrackedExamples(s: Settings, modifier: int, offset: real, sx: real)
    ensures modifier != s.current.modifier ==> IsCacheInvalid(Save(s).(current := s.current.(modifier := modifier)))
    ensures offset != s.current.colourOffset ==> IsCacheInvalid(Save(s).(current := s.current.(colourOffset := offset)))
    ensures sx != s.current.scaleFactorX ==> IsCacheInvalid(Save(s).(current := s.current.(scaleFactorX := sx)))
  {
  }

  /** Changing only untracked parameters leaves the verdict as it was. */
  lemma UntrackedChangeKeepsVerdict(s: Settings, u: Untracked)
    ensures IsCacheInvalid(s.(other := u)) == IsCacheInvalid(s)
  {
  }
}
