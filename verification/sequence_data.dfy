/**
 The per-instance data the host saves with a project (`SequenceData`): a sanity tag, whether
 the data is flat, the chosen `.kfr` file's name as a fixed 260-character C string, and, while
 the data is not flat, the loaded `LocalSequenceData`.

 Host memory handles are modelled by whether each allocation and lock succeeds, passed in as
 booleans; an exception thrown by `SetupFileData` is reported as a `Failure`.
 */
module Sequence {
  import opened Common
  import opened KfrParser
  import opened FrameSlots
  import opened LocalSequence

  /** The size of the name buffer, terminating NUL included. */
  const MaximumFilePathLength: nat := 260

  const Nul: char := '\0'

  /**
   The saved part (`confirm`, `isFlat`, `kfrFileName`) and the part rebuilt on load: the
   loaded data and whether a host handle for it is held.
   */
  datatype SequenceData = SequenceData(
    confirm: string,
    isFlat: bool,
    kfrFileName: string,
    local: Option<Local>,
    localHandle: bool)
  {
    /**
     The name buffer keeps its size and a NUL in its last place; the loaded data is present
     exactly while the data is not flat, together with its handle; loaded data that is ready
     has snapshots and a nonzero size.
     */
    predicate Valid() {
      && |confirm| == 4
      && |kfrFileName| == MaximumFilePathLength
      && kfrFileName[MaximumFilePathLength - 1] == Nul
      && (local.Some? <==> !isFlat)
      && (!isFlat ==> localHandle)
      && (local.Some? ==> local.value.Valid() && Loaded(local.value))
    }
  }

  /** Data that is ready to render has a snapshot list and a nonzero size. */
  predicate Loaded(l: Local) {
    l.ready ==> |l.files| > 0 && l.width != 0 && l.height != 0
  }

  /** The error codes returned to the host, and the exception `SetupFileData` may throw. */
  datatype Failure = OutOfMemory | StructDamaged | Setup(cause: SetupError)

  /** The data after an event, and the error reported for it. */
  datatype Handled = Handled(sd: SequenceData, error: Option<Failure>)

  function Raised(e: Option<SetupError>): (f: Option<Failure>)
    ensures f.None? <==> e.None?
    ensures e.Some? ==> f == Some(Setup(e.value))
  {
    match e
    case None => None
    case Some(c) => Some(Setup(c))
  }

  /** A freshly constructed `LocalSequenceData`: not ready, no names, size 0, iteration division 1, a black palette, empty slots. */
  function FreshLocal(): (l: Local)
    ensures l.Valid() && Loaded(l) && !l.ready
  {
    Local(false, "", [], 0, 0, Kfr(1.0, 0, seq(MaxKfrColours, _ => Black)), EmptySlots())
  }

  /** `SequenceData{}`: tagged "MT", flat, an all-NUL name and nothing loaded. */
  function Initial(): (sd: SequenceData)
    ensures sd.Valid() && sd.isFlat && Confirmed(sd)
  {
    SequenceData(['M', 'T', Nul, Nul], true, seq(MaximumFilePathLength, _ => Nul), None, false)
  }

  /** The sanity check of `GetSequenceData` and `Validate`: the tag starts with "MT". */
  predicate Confirmed(sd: SequenceData) {
    |sd.confirm| >= 2 && sd.confirm[0] == 'M' && sd.confirm[1] == 'T'
  }

  /** `GetSequenceData`: the data when its tag is intact, otherwise nothing. */
  function GetSequenceData(sd: SequenceData): (r: Option<SequenceData>)
    ensures r.Some? <==> Confirmed(sd)
    ensures r.Some? ==> r.value == sd
  {
    if Confirmed(sd) then Some(sd) else None
  }

  // ---------------------------------------------------------------------------------------
  // The name buffer as a C string

  /** The C string a buffer holds: its characters up to the first NUL. */
  function CString(buf: string): (s: string)
    ensures |s| <= |buf| && s == buf[..|s|]
    ensures Nul !in s
    ensures |s| < |buf| ==> buf[|s|] == Nul
  {
    if |buf| == 0 || buf[0] == Nul then [] else [buf[0]] + CString(buf[1..])
  }

  /**
   `str.copy` into the buffer followed by a NUL after the copied characters; the characters
   after that NUL keep whatever an earlier, longer name left there.
   */
  function Store(buf: string, str: string): (r: string)
    requires |str| < |buf|
    ensures |r| == |buf|
  {
    str + [Nul] + buf[|str| + 1..]
  }

  /**
   Reading back a stored name gives the name up to its first NUL, whatever the buffer held
   before, and the whole name when it has no NUL.
   */
  lemma {:induction false} StoreRoundTrip(buf: string, str: string)
    requires |str| < |buf|
    ensures CString(Store(buf, str)) == CString(str)
    ensures Nul !in str ==> CString(Store(buf, str)) == str
    decreases |str|
  {
    if |str| == 0 {
    } else if str[0] == Nul {
    } else {
      assert Store(buf, str)[1..] == Store(buf[1..], str[1..]);
      StoreRoundTrip(buf[1..], str[1..]);
      assert str == [str[0]] + str[1..];
    }
  }

  /** A C string reads back as itself when stored in a buffer longer than it. */
  lemma CStringOfNulFree(s: string)
    requires Nul !in s
    ensures CString(s) == s
  {
    if |s| > 0 {
      CStringOfNulFree(s[1..]);
    }
  }

  // ---------------------------------------------------------------------------------------
  // Events

  /**
   `SetFileName`: a name longer than 259 characters is refused and nothing changes (the
   message box is not modelled). Otherwise the name is stored, and loaded data is set up again
   from the stored C string; an exception that setup throws is reported.
   */
  function SetFileName(sd: SequenceData, str: string, fs: FileSystem, readDouble: Stream -> Option<real>): (r: Handled)
    requires sd.Valid()
    ensures r.sd.Valid()
    ensures |str| > MaximumFilePathLength - 1 ==> r == Handled(sd, None)
    ensures |str| <= MaximumFilePathLength - 1 ==>
      && CString(r.sd.kfrFileName) == CString(str)
      && r.sd.kfrFileName[|str| + 1..] == sd.kfrFileName[|str| + 1..]
      && r.sd.isFlat == sd.isFlat
    ensures sd.isFlat ==> r.error.None? && r.sd.local == sd.local
    ensures |str| <= MaximumFilePathLength - 1 && !sd.isFlat ==>
      var a := SetupFileData(sd.local.value, CString(str), fs, readDouble);
      r.sd.local == Some(a.local) && r.error == Raised(a.error)
  {
    if |str| > MaximumFilePathLength - 1 then Handled(sd, None)
    else
      var buf := Store(sd.kfrFileName, str);
      StoreRoundTrip(sd.kfrFileName, str);
      var stored := sd.(kfrFileName := buf);
      if !sd.isFlat && sd.local.Some? then
        var a := SetupFileData(sd.local.value, CString(buf), fs, readDouble);
        Handled(stored.(local := Some(a.local)), Raised(a.error))
      else Handled(stored, None)
  }

  /**
   `Validate`: the tag is intact, a name is set and names an existing file, and loaded data is
   held and ready to render.
   */
  function Validate(sd: SequenceData, fs: FileSystem): (v: bool)
    requires sd.Valid()
    ensures v ==> sd.local.Some? && |sd.local.value.files| > 0 && GetWidth(sd) != 0 && GetHeight(sd) != 0
    ensures v ==> |CString(sd.kfrFileName)| > 0 && fs.present(CString(sd.kfrFileName))
  {
    && Confirmed(sd)
    && sd.kfrFileName[0] != Nul
    && fs.present(CString(sd.kfrFileName))
    && !sd.isFlat
    && sd.local.Some?
    && sd.localHandle
    && sd.local.value.ready
  }

  /**
   After a name without NUL characters is set on data that is not flat, the data validates
   exactly when setting up from that name made it ready; a missing file is reported as such.
   */
  lemma SetFileNameThenValidate(sd: SequenceData, str: string, fs: FileSystem, readDouble: Stream -> Option<real>)
    requires sd.Valid() && Confirmed(sd) && !sd.isFlat
    requires 0 < |str| <= MaximumFilePathLength - 1 && Nul !in str
    ensures var r := SetFileName(sd, str, fs, readDouble);
      && (Validate(r.sd, fs) <==> SetupFileData(sd.local.value, str, fs, readDouble).local.ready)
      && (!fs.present(str) ==> r.error == Some(Setup(KfrNotFound)) && !Validate(r.sd, fs))
  {
    var r := SetFileName(sd, str, fs, readDouble);
    var a := SetupFileData(sd.local.value, str, fs, readDouble);
    CStringOfNulFree(str);
    assert CString(r.sd.kfrFileName) == str;
    assert r.sd.local == Some(a.local) && r.error == Raised(a.error);
    assert r.sd.kfrFileName[0] == str[0];
  }

  /**
   `SequenceFlatten`: damaged data is reported; otherwise loaded data is released and the data
   is flat. The saved part is kept either way.
   */
  function Flatten(sd: SequenceData): (r: Handled)
    requires sd.Valid()
    ensures r.sd.Valid()
    ensures r.error.Some? <==> !Confirmed(sd)
    ensures r.error.Some? ==> r == Handled(sd, Some(StructDamaged))
    ensures r.error.None? ==> r.sd.isFlat && r.sd.local.None?
    ensures r.sd.kfrFileName == sd.kfrFileName && r.sd.confirm == sd.confirm
    ensures sd.isFlat ==> r.sd == sd
  {
    if GetSequenceData(sd).None? then Handled(sd, Some(StructDamaged))
    else if !sd.isFlat then Handled(sd.(local := None, localHandle := false, isFlat := true), None)
    else Handled(sd, None)
  }

  /**
   `Unflatten`: nothing to do unless flat. Otherwise a handle is allocated and locked (each can
   fail with out-of-memory, a failed lock keeping the handle), fresh data is constructed in it,
   the data becomes unflat, and the data is set up from the stored name; an exception from that
   setup is reported but the data stays unflat.
   */
  function Unflatten(sd: SequenceData, allocates: bool, locks: bool, fs: FileSystem, readDouble: Stream -> Option<real>)
    : (r: Handled)
    requires sd.Valid()
    ensures r.sd.Valid()
    ensures r.sd.kfrFileName == sd.kfrFileName && r.sd.confirm == sd.confirm
    ensures !sd.isFlat ==> r == Handled(sd, None)
    ensures sd.isFlat && !(allocates && locks) ==> r.error == Some(OutOfMemory) && r.sd.isFlat
    ensures sd.isFlat && allocates && locks ==>
      var a := SetupFileData(FreshLocal(), CString(sd.kfrFileName), fs, readDouble);
      && !r.sd.isFlat
      && r.sd.local == Some(a.local)
      && r.error == Raised(a.error)
  {
    if !sd.isFlat then Handled(sd, None)
    else if !allocates then Handled(sd.(localHandle := false), Some(OutOfMemory))
    else if !locks then Handled(sd.(localHandle := true, local := None), Some(OutOfMemory))
    else
      var a := SetupFileData(FreshLocal(), CString(sd.kfrFileName), fs, readDouble);
      Handled(sd.(localHandle := true, isFlat := false, local := Some(a.local)), Raised(a.error))
  }

  /**
   `SequenceResetup`: damaged data is reported; otherwise the data is flattened and unflattened
   again, so the loaded data is rebuilt from the stored name alone. The validation it runs only
   feeds a debug message and is not modelled.
   */
  function Resetup(sd: SequenceData, allocates: bool, locks: bool, fs: FileSystem, readDouble: Stream -> Option<real>)
    : (r: Handled)
    requires sd.Valid()
    ensures r.sd.Valid()
    ensures !Confirmed(sd) ==> r == Handled(sd, Some(StructDamaged))
    ensures Confirmed(sd) && allocates && locks ==>
      var a := SetupFileData(FreshLocal(), CString(sd.kfrFileName), fs, readDouble);
      r == Handled(sd.(isFlat := false, local := Some(a.local), localHandle := true), Raised(a.error))
  {
    if GetSequenceData(sd).None? then Handled(sd, Some(StructDamaged))
    else
      var f := Flatten(sd);
      if f.error.Some? then f
      else Unflatten(f.sd, allocates, locks, fs, readDouble)
  }

  /**
   Saving and reloading is a round trip: data whose loaded part was set up from its own stored
   name on fresh data comes back unchanged from `SequenceResetup`, given the same files.
   */
  lemma ResetupRoundTrip(sd: SequenceData, fs: FileSystem, readDouble: Stream -> Option<real>)
    requires sd.Valid() && Confirmed(sd) && !sd.isFlat
    requires sd.local == Some(SetupFileData(FreshLocal(), CString(sd.kfrFileName), fs, readDouble).local)
    ensures Resetup(sd, true, true, fs, readDouble).sd == sd
  {
  }

  /** Two copies of the data differing only in what is loaded reload to the same data. */
  lemma ResetupForgetsLoaded(sd: SequenceData, other: Local, fs: FileSystem, readDouble: Stream -> Option<real>)
    requires sd.Valid() && Confirmed(sd) && !sd.isFlat
    requires other.Valid() && Loaded(other)
    ensures Resetup(sd, true, true, fs, readDouble) == Resetup(sd.(local := Some(other)), true, true, fs, readDouble)
  {
  }

  /**
   `SequenceSetup`: allocating and locking the data's own handle can fail with out-of-memory;
   otherwise `SequenceData{}` is constructed and unflattened, and any error from that is
   returned instead of the data. New data is unflat, has no name, is not ready and does not
   validate.
   */
  function SequenceSetup(allocates: bool, locks: bool, localAllocates: bool, localLocks: bool,
                         fs: FileSystem, readDouble: Stream -> Option<real>): (r: Result<SequenceData, Failure>)
    ensures r.Ok? <==> allocates && locks && localAllocates && localLocks
    ensures !(allocates && locks && localAllocates && localLocks) ==> r == Err(OutOfMemory)
    ensures r.Ok? ==>
      && r.value.Valid()
      && !r.value.isFlat
      && CString(r.value.kfrFileName) == []
      && !Validate(r.value, fs)
      && GetWidth(r.value) == 0 && GetHeight(r.value) == 0
  {
    if !allocates || !locks then Err(OutOfMemory)
    else
      var u := Unflatten(Initial(), localAllocates, localLocks, fs, readDouble);
      if u.error.Some? then Err(u.error.value) else Ok(u.sd)
  }

  /** `getWidth`: the loaded width when the data is ready to render, otherwise 0. */
  function GetWidth(sd: SequenceData): (w: int)
    requires sd.Valid()
    ensures w != 0 <==> sd.local.Some? && sd.local.value.ready
    ensures w != 0 ==> w == sd.local.value.width
  {
    if sd.local.None? || !sd.local.value.ready then 0 else sd.local.value.width
  }

  /** `getHeight`: the loaded height when the data is ready to render, otherwise 0. */
  function GetHeight(sd: SequenceData): (h: int)
    requires sd.Valid()
    ensures h != 0 <==> sd.local.Some? && sd.local.value.ready
    ensures h != 0 ==> h == sd.local.value.height
  {
    if sd.local.None? || !sd.local.value.ready then 0 else sd.local.value.height
  }
}
