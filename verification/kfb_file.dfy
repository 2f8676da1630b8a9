/**
 Decoding of a `.kfb` snapshot file (`KFBData::ReadKFBFile`) and the matching encoder.

 Byte layout, all integers 32-bit little-endian:
   "KFB", width, height,
   width * height iteration counts (signed), column by column (x outer, y inner),
   colour division, number of colours n, n palette entries of three bytes (red, green, blue),
   maximum iterations (signed),
   width * height smooth fractions (IEEE single precision), in the same column order.
 The file stores the image sideways; decoding transposes it into the row-major padded plane.
 The IEEE decoding of a fraction is the parameter `f32` (bit pattern to value).
 */
module KfbFile {
  import opened Common
  import opened KfbGrid
  import opened Padding

  datatype KfbError =
    | CannotOpen
    | InvalidId
    | IncorrectSize
    | ArraySizeIncorrect
    | TooManyColours
    | Truncated

  /** The four bytes at `off`. */
  function Word(f: seq<byte>, off: int): (w: seq<byte>)
    requires 0 <= off && off + 4 <= |f|
    ensures |w| == 4
  {
    f[off..off + 4]
  }

  /** The value of four little-endian bytes. */
  function Le32(b: seq<byte>): (v: int)
    requires |b| == 4
    ensures 0 <= v < Two32
  {
    b[0] as int + 0x100 * b[1] as int + 0x1_0000 * b[2] as int + 0x100_0000 * b[3] as int
  }

  /** The unsigned little-endian 32-bit word at `off`. */
  function U32At(f: seq<byte>, off: int): (v: int)
    requires 0 <= off && off + 4 <= |f|
    ensures 0 <= v < Two32
  {
    Le32(Word(f, off))
  }

  /** Reinterprets an unsigned 32-bit word as a two's-complement `int`. */
  function ToInt32(u: int): (v: int)
    requires 0 <= u < Two32
    ensures -0x8000_0000 <= v < 0x8000_0000
    ensures v % Two32 == u
  {
    if u < 0x8000_0000 then u else u - Two32
  }

  function I32At(f: seq<byte>, off: int): int
    requires 0 <= off && off + 4 <= |f|
  {
    ToInt32(U32At(f, off))
  }

  const IdBytes: int := 3
  const HeaderBytes: int := 11

  /** Where the iteration count of pixel (x, y) is stored: column-major order. */
  function IterPos(d: Dims, x: int, y: int): (o: int)
    requires d.Valid() && 0 <= x < d.width && 0 <= y < d.height
    ensures HeaderBytes <= o && o + 4 <= ColourDivPos(d)
  {
    ColumnMajorBound(d, x, y);
    HeaderBytes + 4 * (x * d.height + y)
  }

  lemma ColumnMajorBound(d: Dims, x: int, y: int)
    requires d.Valid() && 0 <= x < d.width && 0 <= y < d.height
    ensures 0 <= x * d.height + y < d.width * d.height
  {
    MulLeq(x, d.width - 1, d.height);
    assert (d.width - 1) * d.height + d.height == d.width * d.height;
  }

  function ColourDivPos(d: Dims): int
    requires d.Valid()
  {
    HeaderBytes + DataSize(d)
  }

  function NumColoursPos(d: Dims): int
    requires d.Valid()
  {
    ColourDivPos(d) + 4
  }

  function PalettePos(d: Dims): int
    requires d.Valid()
  {
    NumColoursPos(d) + 4
  }

  function MaxIterPos(d: Dims, n: int): int
    requires d.Valid() && n >= 0
  {
    PalettePos(d) + 3 * n
  }

  /** Where the smooth fraction of pixel (x, y) is stored. */
  function SmoothPos(d: Dims, n: int, x: int, y: int): (o: int)
    requires d.Valid() && n >= 0 && 0 <= x < d.width && 0 <= y < d.height
    ensures MaxIterPos(d, n) + 4 <= o && o + 4 <= FileLength(d, n)
  {
    ColumnMajorBound(d, x, y);
    MaxIterPos(d, n) + 4 + 4 * (x * d.height + y)
  }

  /** Length of a complete file with n palette entries. */
  function FileLength(d: Dims, n: int): int
    requires d.Valid() && n >= 0
  {
    MaxIterPos(d, n) + 4 + DataSize(d)
  }

  predicate MagicOk(f: seq<byte>)
    requires |f| >= IdBytes
  {
    f[0] == 'K' as int && f[1] == 'F' as int && f[2] == 'B' as int
  }

  /**
   A file the decoder accepts for a snapshot of size d, stated without reference to the
   decoder: the ID, the size fields, the palette bound and enough bytes for every field.
   */
  predicate WellFormed(d: Dims, f: seq<byte>)
    requires d.Valid()
  {
    && |f| >= NumColoursPos(d) + 4
    && MagicOk(f)
    && I32At(f, 3) == d.width && I32At(f, 7) == d.height
    && U32At(f, NumColoursPos(d)) <= MaxKfrColours
    && |f| >= FileLength(d, U32At(f, NumColoursPos(d)))
  }

  /** The iteration plane as read, before padding; border cells keep the old memory `junk`. */
  function RawIterPlane(d: Dims, f: seq<byte>, junk: seq<int>): (p: seq<int>)
    requires d.Valid() && |f| >= ColourDivPos(d) && |junk| == d.MemCells()
    ensures |p| == d.MemCells()
  {
    seq(d.MemCells(), i requires 0 <= i < d.MemCells() =>
      var x, y := i % d.MemWidth(), i / d.MemWidth();
      if d.Loaded(x, y) then
        MakeIndexSurjective(d, i);
        I32At(f, IterPos(d, x - PaddingSize, y - PaddingSize))
      else junk[i])
  }

  /** The smooth plane as read: `iteration + 1 - fraction` for each loaded pixel. */
  function RawSmoothPlane(d: Dims, f: seq<byte>, n: int, f32: int -> real, iter: seq<int>, junk: seq<real>): (p: seq<real>)
    requires d.Valid() && n >= 0 && |f| >= FileLength(d, n)
    requires |iter| == d.MemCells() && |junk| == d.MemCells()
    ensures |p| == d.MemCells()
  {
    seq(d.MemCells(), i requires 0 <= i < d.MemCells() =>
      var x, y := i % d.MemWidth(), i / d.MemWidth();
      if d.Loaded(x, y) then
        MakeIndexSurjective(d, i);
        iter[i] as real + 1.0 - f32(U32At(f, SmoothPos(d, n, x - PaddingSize, y - PaddingSize)))
      else junk[i])
  }

  function Palette(f: seq<byte>, pos: int, n: int): (cs: seq<Rgb>)
    requires 0 <= pos && 0 <= n && pos + 3 * n <= |f|
    ensures |cs| == n
    ensures forall i :: 0 <= i < n ==> cs[i] == Rgb(f[pos + 3 * i], f[pos + 3 * i + 1], f[pos + 3 * i + 2])
  {
    seq(n, i requires 0 <= i < n => Rgb(f[pos + 3 * i], f[pos + 3 * i + 1], f[pos + 3 * i + 2]))
  }

  /**
   `ReadKFBFile`: the checks in the source's order, then the transposed read of both planes,
   then the padding of both planes. `file` is `None` when the file cannot be opened; `junkIter`
   and `junkSmooth` are the previous contents of the (not zeroed) host memory.
   */
  function ReadKfbFile(d: Dims, file: Option<seq<byte>>, f32: int -> real, junkIter: seq<int>, junkSmooth: seq<real>)
    : (r: Result<Kfb, KfbError>)
    requires d.Valid() && |junkIter| == d.MemCells() && |junkSmooth| == d.MemCells()
    ensures file.None? ==> r == Err(CannotOpen)
    ensures file.Some? && |file.value| >= IdBytes && !MagicOk(file.value) ==> r == Err(InvalidId)
    ensures (file.Some? && |file.value| >= HeaderBytes && MagicOk(file.value)
      && (I32At(file.value, 3) != d.width || I32At(file.value, 7) != d.height)) ==> r == Err(IncorrectSize)
    ensures r == Err(TooManyColours) ==>
      file.Some? && |file.value| >= NumColoursPos(d) + 4 && U32At(file.value, NumColoursPos(d)) > MaxKfrColours
    ensures r != Err(ArraySizeIncorrect)
    ensures r.Ok? <==> file.Some? && WellFormed(d, file.value)
    ensures r.Ok? ==> r.value.Valid() && r.value.dims == d
  {
    if file.None? then Err(CannotOpen)
    else
      var f := file.value;
      if |f| < IdBytes then Err(Truncated)
      else if !MagicOk(f) then Err(InvalidId)
      else if |f| < HeaderBytes then Err(Truncated)
      else
        var w, h := I32At(f, 3), I32At(f, 7);
        if w != d.width || h != d.height then Err(IncorrectSize)
        else if w * h * IntBytes != DataSize(d) then Err(ArraySizeIncorrect)
        else if |f| < NumColoursPos(d) + 4 then Err(Truncated)
        else
          var colourDiv := U32At(f, ColourDivPos(d));
          var n := U32At(f, NumColoursPos(d));
          if n > MaxKfrColours then Err(TooManyColours)
          else if |f| < FileLength(d, n) then Err(Truncated)
          else
            var iterRaw := RawIterPlane(d, f, junkIter);
            var smoothRaw := RawSmoothPlane(d, f, n, f32, iterRaw, junkSmooth);
            Ok(Kfb(d, PadIntPlane(d, iterRaw), PadRealPlane(d, smoothRaw),
                   colourDiv, Palette(f, PalettePos(d), n), I32At(f, MaxIterPos(d, n))))
  }

  /**
   The transpose: pixel (x, y) of the decoded snapshot holds the (x * height + y)-th iteration
   word of the file, and its smooth value is that count plus one minus the matching fraction.
   The palette holds the file's n entries in order.
   */
  lemma ReadKfbFileCells(d: Dims, f: seq<byte>, f32: int -> real, junkIter: seq<int>, junkSmooth: seq<real>, x: int, y: int)
    requires d.Valid() && |junkIter| == d.MemCells() && |junkSmooth| == d.MemCells()
    requires WellFormed(d, f) && 0 <= x < d.width && 0 <= y < d.height
    ensures var r := ReadKfbFile(d, Some(f), f32, junkIter, junkSmooth);
      var n := U32At(f, NumColoursPos(d));
      && r.Ok?
      && IterationValue(r.value, x + PaddingSize, y + PaddingSize) == I32At(f, IterPos(d, x, y))
      && SmoothValue(r.value, x + PaddingSize, y + PaddingSize)
         == I32At(f, IterPos(d, x, y)) as real + 1.0 - f32(U32At(f, SmoothPos(d, n, x, y)))
      && r.value.colours == Palette(f, PalettePos(d), n)
      && r.value.colourDiv == U32At(f, ColourDivPos(d))
      && r.value.maxIterations == I32At(f, MaxIterPos(d, n))
  {
    var n := U32At(f, NumColoursPos(d));
    var iterRaw := RawIterPlane(d, f, junkIter);
    var smoothRaw := RawSmoothPlane(d, f, n, f32, iterRaw, junkSmooth);
    var px, py := x + PaddingSize, y + PaddingSize;
    MakeIndexRoundTrip(d, px, py);
    assert Cell(d, iterRaw, px, py) == I32At(f, IterPos(d, x, y));
    assert Cell(d, smoothRaw, px, py)
      == I32At(f, IterPos(d, x, y)) as real + 1.0 - f32(U32At(f, SmoothPos(d, n, x, y)));
    assert d.InPlane(px, py) && d.Loaded(px, py);
  }
}
