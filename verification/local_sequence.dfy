/**
 The per-instance state of `LocalSequenceData` that `SetupFileData` fills from a `.kfr` file:
 the settings file's name, the sorted `.kfb` list of its directory, the snapshot size read from
 the first snapshot's header, the palette and iteration division of the `.kfr` file, and the
 four frame slots.

 The file system is a parameter: whether a path exists, the text of a file, its bytes, and the
 paths listed in the directory of a file (`None` for a file that cannot be opened).
 */
module LocalSequence {
  import opened Common
  import opened KfbGrid
  import opened KfbFile
  import opened FrameSlots
  import opened KfrParser
  import opened KfbList

  datatype Local = Local(
    ready: bool,
    kfrFileName: string,
    files: seq<string>,
    width: int,
    height: int,
    kfr: Kfr,
    slots: Slots)
  {
    /** The palette keeps its 1024 entries and its count within them; width and height are 32-bit. */
    predicate Valid() {
      KfrValid(kfr) && -0x8000_0000 <= width < 0x8000_0000 && -0x8000_0000 <= height < 0x8000_0000
    }
  }

  datatype FileSystem = FileSystem(
    present: string -> bool,
    text: string -> Option<string>,
    bytes: string -> Option<seq<byte>>,
    listing: string -> seq<string>)

  datatype SetupError = KfrNotFound | KfrUnopenable | KfbMissing | KfbUnopenable | KfbInvalidId {
    /** The errors about the first snapshot, as opposed to the settings file. */
    predicate AboutKfb() { KfbMissing? || KfbUnopenable? || KfbInvalidId? }
  }

  /** The state after a call and the exception it threw, if any; an exception keeps the changes made before it. */
  datatype Attempt = Attempt(local: Local, error: Option<SetupError>)

  const Black: Rgb := Rgb(0, 0, 0)

  /**
   `clear` as written: not ready, no names, size 0, active and next slots emptied and the
   palette blackened. The third and fourth slots, the palette's count and the iteration
   division are kept.
   */
  function Clear(l: Local): (r: Local)
    requires l.Valid()
    ensures r.Valid()
    ensures !r.ready && r.kfrFileName == [] && r.files == [] && r.width == 0 && r.height == 0
    ensures r.slots == l.slots.(active := EmptySlot(), next := EmptySlot())
    ensures r.kfr.count == l.kfr.count && r.kfr.iterDiv == l.kfr.iterDiv
    ensures forall i :: 0 <= i < MaxKfrColours ==> r.kfr.colours[i] == Black
  {
    Local(false, [], [], 0, 0, l.kfr.(colours := seq(MaxKfrColours, i => Black)),
          l.slots.(active := EmptySlot(), next := EmptySlot()))
  }

  /** `clear` emptying all four slots, as `DeleteKFBData` does. */
  function ClearAll(l: Local): (r: Local)
    requires l.Valid()
    ensures r.Valid()
    ensures r == Clear(l).(slots := EmptySlots())
    ensures forall files: seq<string> :: Consistent(files, r.slots)
  {
    Clear(l).(slots := DeleteKfbData(l.slots))
  }

  /** The four bytes of a 32-bit value, least significant first. */
  function BytesOf(u: int): (b: seq<byte>)
    requires 0 <= u < Two32
    ensures |b| == 4 && Le32(b) == u
  {
    var a := u / 0x100;
    var b := a / 0x100;
    var c := b / 0x100;
    assert u == u % 0x100 + 0x100 * a && a == a % 0x100 + 0x100 * b && b == b % 0x100 + 0x100 * c;
    assert c < 0x100;
    [(u % 0x100) as byte, (a % 0x100) as byte, (b % 0x100) as byte, c as byte]
  }

  /**
   `istream::read` of a 32-bit int at `off`: the bytes present replace the low bytes of the
   variable's previous value; when none is left the variable keeps its value.
   */
  function ReadInt32Into(prev: int, f: seq<byte>, off: nat): (v: int)
    requires -0x8000_0000 <= prev < 0x8000_0000
    ensures -0x8000_0000 <= v < 0x8000_0000
    ensures off + 4 <= |f| ==> v == I32At(f, off)
    ensures off >= |f| ==> v == prev
  {
    if off >= |f| then prev
    else
      var avail := f[off..Min(off + 4, |f|)];
      var kept := BytesOf(prev % Two32);
      var v := ToInt32(Le32(avail + kept[|avail|..]));
      assert off + 4 <= |f| ==> avail + kept[|avail|..] == Word(f, off);
      v
  }

  /**
   `getKFBStats`: with no snapshot nothing changes; otherwise the first one must exist, open
   and start with `KFB`, and its width and height are read from the next eight bytes. A short
   file fills what it can: the width from the bytes present, the height only when the width
   was read whole.
   */
  function GetKfbStats(l: Local, fs: FileSystem): (a: Attempt)
    requires l.Valid()
    ensures a.local.Valid()
    ensures a.local == l.(width := a.local.width, height := a.local.height)
    ensures |l.files| == 0 ==> a == Attempt(l, None)
    ensures a.error.None? && |l.files| > 0 ==>
      fs.present(l.files[0]) && fs.bytes(l.files[0]).Some? && |fs.bytes(l.files[0]).value| >= IdBytes
      && MagicOk(fs.bytes(l.files[0]).value)
    ensures a.error.None? && |l.files| > 0 && |fs.bytes(l.files[0]).value| >= HeaderBytes ==>
      a.local.width == I32At(fs.bytes(l.files[0]).value, 3) && a.local.height == I32At(fs.bytes(l.files[0]).value, 7)
    ensures a.error.Some? ==> a.local == l && a.error.value.AboutKfb()
  {
    if |l.files| == 0 then Attempt(l, None)
    else
      var name := l.files[0];
      if !fs.present(name) then Attempt(l, Some(KfbMissing))
      else
        match fs.bytes(name)
        case None => Attempt(l, Some(KfbUnopenable))
        case Some(f) =>
          if |f| < IdBytes || !MagicOk(f) then Attempt(l, Some(KfbInvalidId))
          else
            var w := ReadInt32Into(l.width, f, 3);
            var h := if |f| >= 7 then ReadInt32Into(l.height, f, 7) else l.height;
            Attempt(l.(width := w, height := h), None)
  }

  /** A snapshot the decoder accepts for size (w, h) reports that size. */
  lemma StatsMatchDecoder(l: Local, fs: FileSystem, f32: int -> real, junkIter: seq<int>, junkSmooth: seq<real>)
    requires l.Valid() && |l.files| > 0 && fs.present(l.files[0]) && fs.bytes(l.files[0]).Some?
    requires var d := Dims(l.width, l.height);
      d.Valid() && |junkIter| == d.MemCells() && |junkSmooth| == d.MemCells()
      && ReadKfbFile(d, fs.bytes(l.files[0]), f32, junkIter, junkSmooth).Ok?
    ensures GetKfbStats(l.(width := 0, height := 0), fs) == Attempt(l, None)
  {
  }

  /**
   `SetupFileData`, with the `clear` it starts with chosen by `asWritten`. An empty name only
   clears; a missing `.kfr` file throws once the name is stored; otherwise the `.kfr` file is
   read, the snapshot list built and the size read, and the data is ready exactly when width
   and height are both nonzero.
   */
  function SetupFileDataWith(l: Local, name: string, fs: FileSystem, readDouble: Stream -> Option<real>, asWritten: bool)
    : (a: Attempt)
    requires l.Valid()
    ensures a.local.Valid()
    ensures |name| == 0 ==> a.error.None? && !a.local.ready
    ensures a.local.ready <==> a.error.None? && a.local.width != 0 && a.local.height != 0
    ensures a.local.ready ==> |a.local.files| > 0
    ensures |name| > 0 ==> a.local.kfrFileName == name
    ensures a.error == Some(KfrNotFound) <==> |name| > 0 && !fs.present(name)
    ensures a.error == Some(KfrUnopenable) <==> |name| > 0 && fs.present(name) && fs.text(name).None?
    ensures |name| > 0 && fs.present(name) && fs.text(name).Some? ==>
      a.local.kfr == ReadKfr(fs.text(name), Clear(l).kfr, readDouble).value
      && a.local.files == GetKfbList(fs.listing(name))
    ensures a.local.slots == (if asWritten then Clear(l) else ClearAll(l)).slots
  {
    var c := if asWritten then Clear(l) else ClearAll(l);
    if |name| == 0 then Attempt(c, None)
    else
      var c1 := c.(kfrFileName := name);
      if !fs.present(name) then Attempt(c1, Some(KfrNotFound))
      else
        match ReadKfr(fs.text(name), c1.kfr, readDouble)
        case Err(_) => Attempt(c1, Some(KfrUnopenable))
        case Ok(k) =>
          var st := GetKfbStats(c1.(kfr := k, files := GetKfbList(fs.listing(name))), fs);
          if st.error.Some? || st.local.width == 0 || st.local.height == 0 then st
          else Attempt(st.local.(ready := true), None)
  }

  /** `SetupFileData` as written: the third and fourth slots survive the change of file. */
  function SetupFileDataAsWritten(l: Local, name: string, fs: FileSystem, readDouble: Stream -> Option<real>): (a: Attempt)
    requires l.Valid()
    ensures a.local.Valid()
    ensures a.local.slots.third == l.slots.third && a.local.slots.fourth == l.slots.fourth
  {
    SetupFileDataWith(l, name, fs, readDouble, true)
  }

  /**
   `SetupFileData` with every slot emptied: whatever the outcome, each slot is consistent with
   the new snapshot list.
   */
  function SetupFileData(l: Local, name: string, fs: FileSystem, readDouble: Stream -> Option<real>): (a: Attempt)
    requires l.Valid()
    ensures a.local.Valid()
    ensures a.local.ready <==> a.error.None? && a.local.width != 0 && a.local.height != 0
    ensures |name| == 0 ==> a == Attempt(ClearAll(l), None)
    ensures a.local.ready ==> |a.local.files| > 0
    ensures |name| > 0 ==> a.local.kfrFileName == name
    ensures a.error == Some(KfrNotFound) <==> |name| > 0 && !fs.present(name)
    ensures Consistent(a.local.files, a.local.slots)
  {
    SetupFileDataWith(l, name, fs, readDouble, false)
  }

  /** The reload that keeps a stale third slot: it succeeds, and only the third slot is filled. */
  lemma ReloadKeepsThird(l: Local, name: string, fs: FileSystem, readDouble: Stream -> Option<real>)
    requires l.Valid() && l.slots.fourth == EmptySlot()
    requires |name| > 0 && fs.present(name) && fs.text(name).Some?
    requires var files := GetKfbList(fs.listing(name));
      |files| > 0 && fs.present(files[0]) && fs.bytes(files[0]).Some?
      && var f := fs.bytes(files[0]).value;
      |f| >= HeaderBytes && MagicOk(f) && I32At(f, 3) != 0 && I32At(f, 7) != 0
    ensures var a := SetupFileDataAsWritten(l, name, fs, readDouble);
      && a.error.None? && a.local.ready && a.local.files == GetKfbList(fs.listing(name))
      && a.local.slots == Slots(EmptySlot(), EmptySlot(), l.slots.third, EmptySlot())
  {
  }

  /** With only the third slot filled, under number 0, key frame 0 is taken from it without a read. */
  lemma ThirdSlotTaken(files: seq<string>, read: string -> Result<Kfb, KfbError>, third: Frame)
    ensures var o := SetupActiveKfb(files, read, true, false, Slots(EmptySlot(), EmptySlot(), Slot(0, Some(third)), EmptySlot()), 0);
      0 !in o.loads && o.slots.active == Slot(0, Some(third))
  {
    var s := Slots(EmptySlot(), EmptySlot(), Slot(0, Some(third)), EmptySlot());
    assert 0 in ReusableNumbers(s, false);
    assert ActiveStep(files, read, false, s, 0).slots.active == Slot(0, Some(third));
  }

  /**
   After switching to another `.kfr` file with the source's `clear`, a third slot left over from
   the previous directory is taken for key frame 0 of the new one: that file is not read and the
   active frame is the old directory's data, so the slots no longer name their files.
   */
  lemma StaleFrameReused(l: Local, name: string, fs: FileSystem, readDouble: Stream -> Option<real>,
                         read: string -> Result<Kfb, KfbError>, oldFile: string, data: Kfb)
    requires l.Valid() && l.slots.third == Slot(0, Some(Frame(oldFile, data))) && l.slots.fourth == EmptySlot()
    requires |name| > 0 && fs.present(name) && fs.text(name).Some?
    requires var files := GetKfbList(fs.listing(name));
      |files| > 0 && files[0] != oldFile && fs.present(files[0]) && fs.bytes(files[0]).Some?
      && var f := fs.bytes(files[0]).value;
      |f| >= HeaderBytes && MagicOk(f) && I32At(f, 3) != 0 && I32At(f, 7) != 0
    ensures var a := SetupFileDataAsWritten(l, name, fs, readDouble);
      var o := SetupActiveKfb(a.local.files, read, a.local.ready, false, a.local.slots, 0);
      && a.error.None? && a.local.ready
      && !Consistent(a.local.files, a.local.slots)
      && 0 !in o.loads && o.slots.active == Slot(0, Some(Frame(oldFile, data)))
      && o.slots.active.frame.value.name != a.local.files[0]
  {
    ReloadKeepsThird(l, name, fs, readDouble);
    ThirdSlotTaken(GetKfbList(fs.listing(name)), read, Frame(oldFile, data));
  }

  /**
   With every slot emptied on a change of file, the frames `SetupActiveKFB` then places are
   always those of the new snapshot list.
   */
  lemma ReloadThenActivate(l: Local, name: string, fs: FileSystem, readDouble: Stream -> Option<real>,
                           read: string -> Result<Kfb, KfbError>, mercator: bool, k: int)
    requires l.Valid()
    ensures var a := SetupFileData(l, name, fs, readDouble);
      var o := SetupActiveKfb(a.local.files, read, a.local.ready, mercator, a.local.slots, k);
      && Consistent(a.local.files, o.slots)
      && (o.error.None? && o.slots.active.frame.Some? ==>
            0 <= k < |a.local.files| && o.slots.active.frame.value.name == a.local.files[k])
  {
    var a := SetupFileData(l, name, fs, readDouble);
    var o := SetupActiveKfb(a.local.files, read, a.local.ready, mercator, a.local.slots, k);
    assert Consistent(a.local.files, a.local.slots);
    if !a.local.ready {
      assert o.slots == a.local.slots;
    } else if o.error.None? {
      assert o.slots.active.number == k;
    }
  }
}
