/**
 An encoder for the `.kfb` layout that `KfbFile.ReadKfbFile` decodes, and the round trip:
 decoding an encoded snapshot yields its iteration counts (transposed into the padded plane),
 its smooth values, its palette and its header values.
 */
module KfbEncode {
  import opened Common
  import opened KfbGrid
  import opened KfbFile

  /** Signed 32-bit range. */
  predicate IsInt32(v: int) { -0x8000_0000 <= v < 0x8000_0000 }

  predicate IsUint32(v: int) { 0 <= v < Two32 }

  /**
   The content of a snapshot file. `iters[x][y]` and `fractions[x][y]` are indexed column
   first, as the file stores them; `fractions` holds the IEEE bit patterns.
   */
  datatype Snapshot = Snapshot(
    iters: seq<seq<int>>,
    colourDiv: int,
    colours: seq<Rgb>,
    maxIterations: int,
    fractions: seq<seq<int>>)

  predicate SnapshotFits(d: Dims, s: Snapshot) {
    && d.Valid()
    && IsInt32(d.width) && IsInt32(d.height)
    && |s.iters| == d.width && |s.fractions| == d.width
    && (forall x :: 0 <= x < d.width ==> |s.iters[x]| == d.height && |s.fractions[x]| == d.height)
    && (forall x, y :: 0 <= x < d.width && 0 <= y < d.height ==> IsInt32(s.iters[x][y]) && IsUint32(s.fractions[x][y]))
    && IsUint32(s.colourDiv)
    && |s.colours| <= MaxKfrColours
    && IsInt32(s.maxIterations)
  }

  function EncodeU32(v: int): (b: seq<byte>)
    requires IsUint32(v)
    ensures |b| == 4
  {
    [v % 0x100, (v / 0x100) % 0x100, (v / 0x1_0000) % 0x100, v / 0x100_0000]
  }

  lemma DecodeEncodeU32(v: int)
    requires IsUint32(v)
    ensures Le32(EncodeU32(v)) == v
  {
  }

  /** The two's-complement bit pattern of a signed 32-bit value. */
  function FromInt32(v: int): (u: int)
    requires IsInt32(v)
    ensures IsUint32(u) && ToInt32(u) == v
  {
    if v >= 0 then v else v + Two32
  }

  /** A sequence of 32-bit words, four little-endian bytes each. */
  function Words(vs: seq<int>): (b: seq<byte>)
    requires forall i :: 0 <= i < |vs| ==> IsUint32(vs[i])
    ensures |b| == 4 * |vs|
  {
    seq(4 * |vs|, i requires 0 <= i < 4 * |vs| => EncodeU32(vs[i / 4])[i % 4])
  }

  lemma WordsAt(vs: seq<int>, t: int)
    requires forall i :: 0 <= i < |vs| ==> IsUint32(vs[i])
    requires 0 <= t < |vs|
    ensures Word(Words(vs), 4 * t) == EncodeU32(vs[t])
  {
    var b := Words(vs);
    forall j | 0 <= j < 4
      ensures b[4 * t + j] == EncodeU32(vs[t])[j]
    {
      DivModUnique(4 * t + j, 4, t, j);
    }
  }

  lemma WordShift(a: seq<byte>, b: seq<byte>, off: int)
    requires 0 <= off && off + 4 <= |b|
    ensures Word(a + b, |a| + off) == Word(b, off)
  {
  }

  lemma WordPrefix(a: seq<byte>, b: seq<byte>, off: int)
    requires 0 <= off && off + 4 <= |a|
    ensures Word(a + b, off) == Word(a, off)
  {
  }

  /**
   Column-major flattening into 32-bit words: word x * height + y is entry [x][y], stored as
   a two's-complement pattern when `signed`.
   */
  function ColumnMajor(d: Dims, g: seq<seq<int>>, signed: bool): (vs: seq<int>)
    requires d.Valid() && |g| == d.width && forall x :: 0 <= x < d.width ==> |g[x]| == d.height
    ensures |vs| == d.width * d.height
    ensures forall t :: 0 <= t < |vs| ==> IsUint32(vs[t])
  {
    assert d.width * d.height > 0;
    seq(d.width * d.height, t requires 0 <= t < d.width * d.height =>
      ColumnMajorIndex(d, t);
      var v := g[t / d.height][t % d.height];
      if signed then Int32Word(v) else Uint32Word(v))
  }

  lemma ColumnMajorIndex(d: Dims, t: int)
    requires d.Valid() && 0 <= t < d.width * d.height
    ensures 0 <= t / d.height < d.width && 0 <= t % d.height < d.height
  {
    if t / d.height >= d.width {
      MulLeq(d.width, t / d.height, d.height);
    }
  }

  lemma ColumnMajorAt(d: Dims, g: seq<seq<int>>, signed: bool, x: int, y: int)
    requires d.Valid() && |g| == d.width && forall x :: 0 <= x < d.width ==> |g[x]| == d.height
    requires 0 <= x < d.width && 0 <= y < d.height
    ensures 0 <= x * d.height + y < d.width * d.height
    ensures ColumnMajor(d, g, signed)[x * d.height + y] == if signed then Int32Word(g[x][y]) else Uint32Word(g[x][y])
  {
    ColumnMajorBound(d, x, y);
    DivModUnique(x * d.height + y, d.height, x, y);
  }

  function ChannelBytes(cs: seq<Rgb>): (b: seq<byte>)
    ensures |b| == 3 * |cs|
  {
    seq(3 * |cs|, i requires 0 <= i < 3 * |cs| =>
      var c := cs[i / 3];
      if i % 3 == 0 then c.red else if i % 3 == 1 then c.green else c.blue)
  }

  /** The word stored for an iteration count (only counts in the signed 32-bit range occur). */
  function Int32Word(v: int): (u: int)
    ensures IsUint32(u)
    ensures IsInt32(v) ==> ToInt32(u) == v
  {
    if IsInt32(v) then FromInt32(v) else 0
  }

  /** The word stored for a fraction bit pattern (only 32-bit patterns occur). */
  function Uint32Word(v: int): (u: int)
    ensures IsUint32(u)
    ensures IsUint32(v) ==> u == v
  {
    if IsUint32(v) then v else 0
  }

  /** The parts of an encoded file, each a separate byte string. */
  function Magic(): seq<byte> { ['K' as int, 'F' as int, 'B' as int] }

  function HeaderWords(d: Dims): seq<byte>
    requires IsInt32(d.width) && IsInt32(d.height)
  {
    Words([FromInt32(d.width), FromInt32(d.height)])
  }

  function IterWords(d: Dims, s: Snapshot): seq<byte>
    requires SnapshotFits(d, s)
  {
    Words(ColumnMajor(d, s.iters, true))
  }

  function FractionWords(d: Dims, s: Snapshot): seq<byte>
    requires SnapshotFits(d, s)
  {
    Words(ColumnMajor(d, s.fractions, false))
  }

  /** The tail of the file from the colour division on. */
  function TailBytes(d: Dims, s: Snapshot): seq<byte>
    requires SnapshotFits(d, s)
  {
    Words([s.colourDiv, |s.colours|]) + (ChannelBytes(s.colours) + (Words([FromInt32(s.maxIterations)]) + FractionWords(d, s)))
  }

  function EncodeKfb(d: Dims, s: Snapshot): (f: seq<byte>)
    requires SnapshotFits(d, s)
    ensures |f| == FileLength(d, |s.colours|)
  {
    Magic() + (HeaderWords(d) + (IterWords(d, s) + TailBytes(d, s)))
  }

  /** A word inside the third part of a right-nested concatenation. */
  lemma WordInThird(a: seq<byte>, b: seq<byte>, c: seq<byte>, e: seq<byte>, off: int)
    requires 0 <= off && off + 4 <= |c|
    ensures Word(a + (b + (c + e)), |a| + |b| + off) == Word(c, off)
  {
    WordPrefix(c, e, off);
    WordShift(b, c + e, off);
    WordShift(a, b + (c + e), |b| + off);
  }

  /** A word inside the fourth part of a right-nested concatenation. */
  lemma WordInFourth(a: seq<byte>, b: seq<byte>, c: seq<byte>, e: seq<byte>, off: int)
    requires 0 <= off && off + 4 <= |e|
    ensures Word(a + (b + (c + e)), |a| + |b| + |c| + off) == Word(e, off)
  {
    WordShift(c, e, off);
    WordShift(b, c + e, |c| + off);
    WordShift(a, b + (c + e), |b| + |c| + off);
  }

  lemma EncodeKfbParts(d: Dims, s: Snapshot)
    requires SnapshotFits(d, s)
    ensures EncodeKfb(d, s) == Magic() + (HeaderWords(d) + (IterWords(d, s) + TailBytes(d, s)))
    ensures |Magic()| == 3 && |HeaderWords(d)| == 8 && |IterWords(d, s)| == DataSize(d)
  {
  }

  lemma TailParts(d: Dims, s: Snapshot)
    requires SnapshotFits(d, s)
    ensures TailBytes(d, s) ==
      Words([s.colourDiv, |s.colours|]) + (ChannelBytes(s.colours) + (Words([FromInt32(s.maxIterations)]) + FractionWords(d, s)))
    ensures |Words([s.colourDiv, |s.colours|])| == 8 && |ChannelBytes(s.colours)| == 3 * |s.colours|
    ensures |Words([FromInt32(s.maxIterations)])| == 4
  {
  }

  lemma EncodedHeader(d: Dims, s: Snapshot)
    requires SnapshotFits(d, s)
    ensures var f := EncodeKfb(d, s);
      && MagicOk(f) && I32At(f, 3) == d.width && I32At(f, 7) == d.height
  {
    var f := EncodeKfb(d, s);
    var hw, rest := HeaderWords(d), IterWords(d, s) + TailBytes(d, s);
    var w, h := FromInt32(d.width), FromInt32(d.height);
    EncodeKfbParts(d, s);
    WordsAt([w, h], 0);
    WordsAt([w, h], 1);
    WordPrefix(hw, rest, 0);
    WordPrefix(hw, rest, 4);
    WordShift(Magic(), hw + rest, 0);
    WordShift(Magic(), hw + rest, 4);
    assert Word(f, 3) == EncodeU32(w);
    assert Word(f, 7) == EncodeU32(h);
    DecodeEncodeU32(w);
    DecodeEncodeU32(h);
  }

  /** A word of the tail, read through the whole file. */
  lemma TailAt(d: Dims, s: Snapshot, off: int)
    requires SnapshotFits(d, s)
    requires 0 <= off && off + 4 <= |TailBytes(d, s)|
    ensures Word(EncodeKfb(d, s), ColourDivPos(d) + off) == Word(TailBytes(d, s), off)
  {
    EncodeKfbParts(d, s);
    WordInFourth(Magic(), HeaderWords(d), IterWords(d, s), TailBytes(d, s), off);
  }

  lemma EncodedTailHeader(d: Dims, s: Snapshot)
    requires SnapshotFits(d, s)
    ensures var f := EncodeKfb(d, s);
      && U32At(f, ColourDivPos(d)) == s.colourDiv
      && U32At(f, NumColoursPos(d)) == |s.colours|
      && I32At(f, MaxIterPos(d, |s.colours|)) == s.maxIterations
  {
    EncodedCountWords(d, s);
    EncodedMaxIterations(d, s);
  }

  /** The colour divisor and the palette size, the first two words of the tail. */
  lemma EncodedCountWords(d: Dims, s: Snapshot)
    requires SnapshotFits(d, s)
    ensures U32At(EncodeKfb(d, s), ColourDivPos(d)) == s.colourDiv
    ensures U32At(EncodeKfb(d, s), NumColoursPos(d)) == |s.colours|
  {
    var f := EncodeKfb(d, s);
    var n := |s.colours|;
    var cw := Words([s.colourDiv, n]);
    var rest := ChannelBytes(s.colours) + (Words([FromInt32(s.maxIterations)]) + FractionWords(d, s));
    TailParts(d, s);
    WordsAt([s.colourDiv, n], 0);
    WordsAt([s.colourDiv, n], 1);
    WordPrefix(cw, rest, 0);
    WordPrefix(cw, rest, 4);
    TailAt(d, s, 0);
    TailAt(d, s, 4);
    assert Word(f, ColourDivPos(d)) == EncodeU32(s.colourDiv);
    assert Word(f, NumColoursPos(d)) == EncodeU32(n);
    DecodeEncodeU32(s.colourDiv);
    DecodeEncodeU32(n);
  }

  /** The maximum iteration count, the word after the palette. */
  lemma EncodedMaxIterations(d: Dims, s: Snapshot)
    requires SnapshotFits(d, s)
    ensures I32At(EncodeKfb(d, s), MaxIterPos(d, |s.colours|)) == s.maxIterations
  {
    var f := EncodeKfb(d, s);
    var n := |s.colours|;
    var m := FromInt32(s.maxIterations);
    var cw := Words([s.colourDiv, n]);
    var pb := ChannelBytes(s.colours);
    var mw := Words([m]);
    var fw := FractionWords(d, s);
    TailParts(d, s);
    WordsAt([m], 0);
    WordInThird(cw, pb, mw, fw, 0);
    TailAt(d, s, 8 + |pb|);
    assert Word(f, MaxIterPos(d, n)) == EncodeU32(m);
    DecodeEncodeU32(m);
  }

  lemma IterWordsAt(d: Dims, s: Snapshot, x: int, y: int)
    requires SnapshotFits(d, s) && 0 <= x < d.width && 0 <= y < d.height
    ensures 0 <= 4 * (x * d.height + y) && 4 * (x * d.height + y) + 4 <= |IterWords(d, s)|
    ensures Word(IterWords(d, s), 4 * (x * d.height + y)) == EncodeU32(FromInt32(s.iters[x][y]))
  {
    ColumnMajorAt(d, s.iters, true, x, y);
    WordsAt(ColumnMajor(d, s.iters, true), x * d.height + y);
  }

  lemma EncodedIter(d: Dims, s: Snapshot, x: int, y: int)
    requires SnapshotFits(d, s) && 0 <= x < d.width && 0 <= y < d.height
    ensures I32At(EncodeKfb(d, s), IterPos(d, x, y)) == s.iters[x][y]
  {
    var v := FromInt32(s.iters[x][y]);
    var off := 4 * (x * d.height + y);
    EncodeKfbParts(d, s);
    IterWordsAt(d, s, x, y);
    WordInThird(Magic(), HeaderWords(d), IterWords(d, s), TailBytes(d, s), off);
    assert Word(EncodeKfb(d, s), IterPos(d, x, y)) == EncodeU32(v);
    DecodeEncodeU32(v);
  }

  lemma FractionWordsAt(d: Dims, s: Snapshot, x: int, y: int)
    requires SnapshotFits(d, s) && 0 <= x < d.width && 0 <= y < d.height
    ensures 0 <= 4 * (x * d.height + y) && 4 * (x * d.height + y) + 4 <= |FractionWords(d, s)|
    ensures Word(FractionWords(d, s), 4 * (x * d.height + y)) == EncodeU32(s.fractions[x][y])
  {
    ColumnMajorAt(d, s.fractions, false, x, y);
    WordsAt(ColumnMajor(d, s.fractions, false), x * d.height + y);
  }

  /** The fraction word of pixel (x, y), located inside the tail. */
  lemma FractionInTail(d: Dims, s: Snapshot, x: int, y: int)
    requires SnapshotFits(d, s) && 0 <= x < d.width && 0 <= y < d.height
    ensures var off := 12 + 3 * |s.colours| + 4 * (x * d.height + y);
      && 0 <= off && off + 4 <= |TailBytes(d, s)|
      && Word(TailBytes(d, s), off) == EncodeU32(s.fractions[x][y])
  {
    var off := 4 * (x * d.height + y);
    var cw := Words([s.colourDiv, |s.colours|]);
    var pb := ChannelBytes(s.colours);
    var mw := Words([FromInt32(s.maxIterations)]);
    TailParts(d, s);
    FractionWordsAt(d, s, x, y);
    WordInFourth(cw, pb, mw, FractionWords(d, s), off);
  }

  lemma EncodedFraction(d: Dims, s: Snapshot, x: int, y: int)
    requires SnapshotFits(d, s) && 0 <= x < d.width && 0 <= y < d.height
    ensures U32At(EncodeKfb(d, s), SmoothPos(d, |s.colours|, x, y)) == s.fractions[x][y]
  {
    var off := 12 + 3 * |s.colours| + 4 * (x * d.height + y);
    FractionInTail(d, s, x, y);
    TailAt(d, s, off);
    assert ColourDivPos(d) + off == SmoothPos(d, |s.colours|, x, y);
    DecodeEncodeU32(s.fractions[x][y]);
  }

  lemma EncodedPalette(d: Dims, s: Snapshot)
    requires SnapshotFits(d, s)
    ensures var f := EncodeKfb(d, s);
      PalettePos(d) + 3 * |s.colours| <= |f| && Palette(f, PalettePos(d), |s.colours|) == s.colours
  {
    var f := EncodeKfb(d, s);
    var n := |s.colours|;
    var p := PalettePos(d);
    var pb := ChannelBytes(s.colours);
    EncodedPaletteBytes(d, s);
    forall i | 0 <= i < n
      ensures Palette(f, p, n)[i] == s.colours[i]
    {
      ChannelBytesAt(s.colours, i);
      assert f[p + 3 * i] == pb[3 * i];
      assert f[p + 3 * i + 1] == pb[3 * i + 1];
      assert f[p + 3 * i + 2] == pb[3 * i + 2];
    }
  }

  /** Entry i of a palette is written as bytes 3i (red), 3i + 1 (green) and 3i + 2 (blue). */
  lemma ChannelBytesAt(cs: seq<Rgb>, i: int)
    requires 0 <= i < |cs|
    ensures ChannelBytes(cs)[3 * i] == cs[i].red
    ensures ChannelBytes(cs)[3 * i + 1] == cs[i].green
    ensures ChannelBytes(cs)[3 * i + 2] == cs[i].blue
  {
    DivModUnique(3 * i, 3, i, 0);
    DivModUnique(3 * i + 1, 3, i, 1);
    DivModUnique(3 * i + 2, 3, i, 2);
  }

  lemma EncodedPaletteBytes(d: Dims, s: Snapshot)
    requires SnapshotFits(d, s)
    ensures var f := EncodeKfb(d, s);
      forall i :: 0 <= i < 3 * |s.colours| ==> f[PalettePos(d) + i] == ChannelBytes(s.colours)[i]
  {
    var f := EncodeKfb(d, s);
    var hw, iw := HeaderWords(d), IterWords(d, s);
    var cw := Words([s.colourDiv, |s.colours|]);
    var pb := ChannelBytes(s.colours);
    var rest := Words([FromInt32(s.maxIterations)]) + FractionWords(d, s);
    EncodeKfbParts(d, s);
    TailParts(d, s);
    assert f == Magic() + (hw + (iw + (cw + (pb + rest))));
    assert |Magic()| + |hw| + |iw| + |cw| == PalettePos(d);
    forall i | 0 <= i < 3 * |s.colours|
      ensures f[PalettePos(d) + i] == pb[i]
    {
      ByteInFifth(Magic(), hw, iw, cw, pb, rest, i);
    }
  }

  /** A byte inside the fifth part of a right-nested concatenation. */
  lemma ByteInFifth(a: seq<byte>, b: seq<byte>, c: seq<byte>, e: seq<byte>, g: seq<byte>, h: seq<byte>, i: int)
    requires 0 <= i < |g|
    ensures (a + (b + (c + (e + (g + h)))))[|a| + |b| + |c| + |e| + i] == g[i]
  {
  }

  /**
   Round trip: an encoded snapshot is accepted, and every loaded pixel (x, y) of the decoded
   padded planes holds the snapshot's entry [x][y]; the smooth value is the count plus one
   minus the decoded fraction.
   */
  lemma ReadEncodedKfb(d: Dims, s: Snapshot, f32: int -> real, junkIter: seq<int>, junkSmooth: seq<real>, x: int, y: int)
    requires SnapshotFits(d, s) && |junkIter| == d.MemCells() && |junkSmooth| == d.MemCells()
    requires 0 <= x < d.width && 0 <= y < d.height
    ensures var r := ReadKfbFile(d, Some(EncodeKfb(d, s)), f32, junkIter, junkSmooth);
      && r.Ok?
      && IterationValue(r.value, x + PaddingSize, y + PaddingSize) == s.iters[x][y]
      && SmoothValue(r.value, x + PaddingSize, y + PaddingSize) == s.iters[x][y] as real + 1.0 - f32(s.fractions[x][y])
      && r.value.colours == s.colours
      && r.value.colourDiv == s.colourDiv
      && r.value.maxIterations == s.maxIterations
  {
    var f := EncodeKfb(d, s);
    EncodedHeader(d, s);
    EncodedTailHeader(d, s);
    assert WellFormed(d, f);
    ReadKfbFileCells(d, f, f32, junkIter, junkSmooth, x, y);
    EncodedIter(d, s, x, y);
    EncodedFraction(d, s, x, y);
    EncodedPalette(d, s);
  }
}
