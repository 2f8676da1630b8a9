/**
 The four frame slots of `LocalSequenceData` (active, next, third, fourth) and
 `SetupActiveKFB`, which fills them for a key frame, reusing data a slot already holds.

 A slot pairs a key-frame number (-1 when empty) with the data loaded for it. The model keeps,
 with the data, the name of the file it was read from; the slot invariant `Consistent` says
 every filled slot's number names that file in the current file list. Reading a `.kfb` file
 (constructing a `KFBData` and calling `ReadKFBFile`) is the parameter `read`.
 */
module FrameSlots {
  import opened Common
  import opened KfbGrid
  import opened KfbFile

  /** Snapshot data together with the name of the file it was read from. */
  datatype Frame = Frame(name: string, data: Kfb)

  datatype Slot = Slot(number: int, frame: Option<Frame>)

  function EmptySlot(): Slot { Slot(-1, None) }

  datatype Slots = Slots(active: Slot, next: Slot, third: Slot, fourth: Slot)

  function EmptySlots(): Slots { Slots(EmptySlot(), EmptySlot(), EmptySlot(), EmptySlot()) }

  datatype LoadError = InvalidKeyFrame | ReadFailed(error: KfbError)

  /** A filled slot holds the data of file `files[number]`. */
  predicate SlotOk(files: seq<string>, s: Slot) {
    s.frame.Some? ==> 0 <= s.number < |files| && s.frame.value.name == files[s.number]
  }

  predicate Consistent(files: seq<string>, s: Slots) {
    SlotOk(files, s.active) && SlotOk(files, s.next) && SlotOk(files, s.third) && SlotOk(files, s.fourth)
  }

  /** `LoadKFB`: rejects an index outside the file list (a negative one compares as a huge unsigned). */
  function LoadKfb(files: seq<string>, read: string -> Result<Kfb, KfbError>, k: int): (r: Result<Frame, LoadError>)
    ensures r == Err(InvalidKeyFrame) <==> k < 0 || k >= |files|
    ensures r.Ok? ==> 0 <= k < |files| && r.value.name == files[k] && read(files[k]) == Ok(r.value.data)
    ensures r.Err? && r.error.ReadFailed? ==> 0 <= k < |files| && read(files[k]) == Err(r.error.error)
  {
    if k < 0 || k >= |files| then Err(InvalidKeyFrame)
    else
      match read(files[k])
      case Ok(data) => Ok(Frame(files[k], data))
      case Err(e) => Err(ReadFailed(e))
  }

  /** The slots after a call, the indices whose loading was attempted, and the exception if one was thrown. */
  datatype Outcome = Outcome(slots: Slots, loads: seq<int>, error: Option<LoadError>)

  /** Outside mercator mode the outgoing active frame is kept in the fourth slot, and the fourth in the third. */
  function Rotate(s: Slots, mercator: bool): Slots {
    if !mercator && s.active.number >= 0 then s.(third := s.fourth, fourth := s.active) else s
  }

  /** Loads key frame k into a slot; on failure the exception leaves the slots as they were. */
  function LoadInto(files: seq<string>, read: string -> Result<Kfb, KfbError>, s: Slots, k: int,
                    place: (Slots, Slot) -> Slots): (o: Outcome)
    ensures o.loads == [k]
    ensures o.error.None? ==> LoadKfb(files, read, k).Ok? && o.slots == place(s, Slot(k, Some(LoadKfb(files, read, k).value)))
    ensures o.error.Some? ==> LoadKfb(files, read, k).Err? && o.slots == s && o.error == Some(LoadKfb(files, read, k).error)
  {
    match LoadKfb(files, read, k)
    case Ok(f) => Outcome(place(s, Slot(k, Some(f))), [k], None)
    case Err(e) => Outcome(s, [k], Some(e))
  }

  function ActiveStep(files: seq<string>, read: string -> Result<Kfb, KfbError>, mercator: bool, s: Slots, k: int): (o: Outcome)
    ensures o.error.None? ==> o.slots.active.number == k
    ensures o.slots.next == s.next
    ensures k in o.loads <==> s.active.number != k && k !in ReusableNumbers(s, mercator)
    ensures forall i :: 0 <= i < |o.loads| ==> o.loads[i] == k
    ensures Consistent(files, s) ==> Consistent(files, o.slots)
    ensures o.error == Some(InvalidKeyFrame) ==> k < 0 || k >= |files|
  {
    if s.active.number == k then Outcome(s, [], None)
    else
      var r := Rotate(s, mercator);
      if r.fourth.number == k then Outcome(r.(active := Slot(k, r.fourth.frame)), [], None)
      else if r.third.number == k then Outcome(r.(active := Slot(k, r.third.frame)), [], None)
      else if r.next.number == k then Outcome(r.(active := Slot(k, r.next.frame)), [], None)
      else LoadInto(files, read, r, k, (t: Slots, v: Slot) => t.(active := v))
  }

  function NextStep(files: seq<string>, read: string -> Result<Kfb, KfbError>, s: Slots, k: int): (o: Outcome)
    ensures o.error.None? && 0 <= k < |files| ==> o.slots.next.number == k
    ensures !(0 <= k < |files|) ==> o == Outcome(s, [], None)
    ensures o.slots.active == s.active
    ensures forall i :: 0 <= i < |o.loads| ==> o.loads[i] == k
    ensures Consistent(files, s) ==> Consistent(files, o.slots)
    ensures o.error.Some? ==> o.error.value.ReadFailed?
  {
    if s.next.number != k && 0 <= k < |files| then
      if s.fourth.number == k then Outcome(s.(next := Slot(k, s.fourth.frame)), [], None)
      else if s.third.number == k then Outcome(s.(next := Slot(k, s.third.frame)), [], None)
      else LoadInto(files, read, s, k, (t: Slots, v: Slot) => t.(next := v))
    else Outcome(s, [], None)
  }

  function ThirdStep(files: seq<string>, read: string -> Result<Kfb, KfbError>, mercator: bool, s: Slots, k: int): (o: Outcome)
    ensures o.slots.active == s.active && o.slots.next == s.next
    ensures forall i :: 0 <= i < |o.loads| ==> o.loads[i] == k
    ensures Consistent(files, s) ==> Consistent(files, o.slots)
    ensures o.error.Some? ==> o.error.value.ReadFailed?
  {
    if mercator && s.third.number != k && 0 <= k < |files| then
      if s.fourth.number == k then Outcome(s.(third := Slot(k, s.fourth.frame)), [], None)
      else LoadInto(files, read, s, k, (t: Slots, v: Slot) => t.(third := v))
    else Outcome(s, [], None)
  }

  /**
   The fourth-slot step. `number` is the number the slot is given after loading key frame k:
   the source gives it k - 1 (the third frame's number); the corrected step gives it k.
   */
  function FourthStep(files: seq<string>, read: string -> Result<Kfb, KfbError>, mercator: bool, s: Slots, k: int, number: int): (o: Outcome)
    ensures o.slots.active == s.active && o.slots.next == s.next
    ensures forall i :: 0 <= i < |o.loads| ==> o.loads[i] == k
    ensures number == k && Consistent(files, s) ==> Consistent(files, o.slots)
    ensures o.error.Some? ==> o.error.value.ReadFailed?
  {
    if mercator && s.fourth.number != k && 0 <= k < |files| then
      match LoadKfb(files, read, k)
      case Ok(f) => Outcome(s.(fourth := Slot(number, Some(f))), [k], None)
      case Err(e) => Outcome(s, [k], Some(e))
    else Outcome(s, [], None)
  }

  /** Runs the four steps in order; an exception stops the sequence. */
  function Setup(files: seq<string>, read: string -> Result<Kfb, KfbError>, ready: bool, mercator: bool,
                 s: Slots, k: int, asWritten: bool): (o: Outcome)
    ensures !ready ==> o == Outcome(s, [], None)
    ensures ready && o.error.None? ==> o.slots.active.number == k
    ensures ready && o.error.None? && 0 <= k + 1 < |files| ==> o.slots.next.number == k + 1
    ensures !(0 <= k + 1 < |files|) ==> o.slots.next == s.next
    ensures k in o.loads <==> ready && s.active.number != k && k !in ReusableNumbers(s, mercator)
    ensures forall i :: 0 <= i < |o.loads| ==> k <= o.loads[i] <= k + 3
    ensures !asWritten && Consistent(files, s) ==> Consistent(files, o.slots)
    ensures o.error == Some(InvalidKeyFrame) ==> k < 0 || k >= |files|
  {
    if !ready then Outcome(s, [], None)
    else
      var o1 := ActiveStep(files, read, mercator, s, k);
      if o1.error.Some? then o1
      else
        var o2 := NextStep(files, read, o1.slots, k + 1);
        if o2.error.Some? then Outcome(o2.slots, o1.loads + o2.loads, o2.error)
        else
          var o3 := ThirdStep(files, read, mercator, o2.slots, k + 2);
          if o3.error.Some? then Outcome(o3.slots, o1.loads + o2.loads + o3.loads, o3.error)
          else
            var o4 := FourthStep(files, read, mercator, o3.slots, k + 3, if asWritten then k + 2 else k + 3);
            Outcome(o4.slots, o1.loads + o2.loads + o3.loads + o4.loads, o4.error)
  }

  /** `SetupActiveKFB` as written: in mercator mode the fourth slot is numbered k + 2 but holds frame k + 3. */
  function SetupActiveKfbAsWritten(files: seq<string>, read: string -> Result<Kfb, KfbError>, ready: bool, mercator: bool,
                                   s: Slots, k: int): (o: Outcome)
    ensures !ready ==> o == Outcome(s, [], None)
  {
    Setup(files, read, ready, mercator, s, k, true)
  }

  /** Slot numbers a key frame can be found under, once the outgoing active frame has been kept. */
  function ReusableNumbers(s: Slots, mercator: bool): set<int> {
    var r := Rotate(s, mercator);
    {r.fourth.number, r.third.number, r.next.number}
  }

  /**
   `SetupActiveKFB` with the fourth slot numbered by the frame it holds. It does nothing when
   the sequence is not ready; otherwise, unless it throws, the active slot holds key frame k,
   the next slot holds k + 1 when there is such a file and is untouched when there is not.
   Key frame k is loaded exactly when no slot can supply it, and the slots stay consistent.
   */
  function SetupActiveKfb(files: seq<string>, read: string -> Result<Kfb, KfbError>, ready: bool, mercator: bool,
                          s: Slots, k: int): (o: Outcome)
    ensures !ready ==> o == Outcome(s, [], None)
    ensures ready && o.error.None? ==> o.slots.active.number == k
    ensures ready && o.error.None? && 0 <= k + 1 < |files| ==> o.slots.next.number == k + 1
    ensures !(0 <= k + 1 < |files|) ==> o.slots.next == s.next
    ensures k in o.loads <==> ready && s.active.number != k && k !in ReusableNumbers(s, mercator)
    ensures forall i :: 0 <= i < |o.loads| ==> k <= o.loads[i] <= k + 3
    ensures Consistent(files, s) ==> Consistent(files, o.slots)
    ensures o.error == Some(InvalidKeyFrame) ==> k < 0 || k >= |files|
  {
    Setup(files, read, ready, mercator, s, k, false)
  }

  /** Outside mercator mode the outgoing active frame moves to the fourth slot and the fourth to the third. */
  lemma SetupRotates(files: seq<string>, read: string -> Result<Kfb, KfbError>, s: Slots, k: int)
    requires 0 <= s.active.number && s.active.number != k
    ensures var o := SetupActiveKfb(files, read, true, false, s, k);
      o.slots.fourth == s.active && o.slots.third == s.fourth
  {
  }

  /** Outside mercator mode the source and the corrected version coincide. */
  lemma SetupAgreesWithoutMercator(files: seq<string>, read: string -> Result<Kfb, KfbError>, ready: bool, s: Slots, k: int)
    ensures SetupActiveKfbAsWritten(files, read, ready, false, s, k) == SetupActiveKfb(files, read, ready, false, s, k)
  {
  }

  function SomeSnapshot(): Kfb {
    Kfb(Dims(1, 1), seq(25, i => 0), seq(25, i => 0.0), 1, [], 1)
  }

  /**
   In mercator mode, starting from empty slots with four files, key frame 0 leaves the fourth
   slot numbered 2 while holding the data of file 3.
   */
  lemma SetupMislabelsFourth()
    ensures var files := ["f0.kfb", "f1.kfb", "f2.kfb", "f3.kfb"];
      var o := SetupActiveKfbAsWritten(files, (n: string) => Ok(SomeSnapshot()), true, true, EmptySlots(), 0);
      && Consistent(files, EmptySlots())
      && o.error.None?
      && o.slots.fourth.number == 2 && o.slots.fourth.frame.Some? && o.slots.fourth.frame.value.name == files[3]
      && !Consistent(files, o.slots)
  {
  }

  /** `DeleteKFBData`: every slot emptied. */
  function DeleteKfbData(s: Slots): (r: Slots)
    ensures forall files: seq<string> :: Consistent(files, r)
    ensures r.active.frame.None? && r.next.frame.None? && r.third.frame.None? && r.fourth.frame.None?
  {
    EmptySlots()
  }
}
