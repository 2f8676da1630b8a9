/**
 The effect's parameter table (`Paramaters.cpp`): parameters are registered with the host in a
 fixed order, and a table translates each `ParameterID` to the position the host gave it.
 Position 0 is the input layer, so an ID whose entry is 0 was never registered, and reading
 it throws.

 The host's parameter store is a parameter of the reads: a function from position to value
 for each kind of control. The host calls themselves (`add_param`, `checkout_param`) are not
 modelled.
 */
module Parameters {
  import opened Common
  import opened KfrParser
  import opened LocalSequence
  import opened Sequence

  // ---------------------------------------------------------------------------------------
  // Parameter IDs

  const Input: nat := 0
  const FileSelectButton: nat := 1
  const KeyFrameNumber: nat := 2
  const ColourDivision: nat := 3
  const ColourMethod: nat := 4
  const ModifierId: nat := 5
  const Smooth: nat := 6
  const TopicStartColour: nat := 7
  const TopicEndColour: nat := 8
  const ScalingMode: nat := 11
  const TopicStartInsideColour: nat := 12
  const TopicEndInsideColour: nat := 13
  const InsideColour: nat := 14
  const DistanceClamp: nat := 15
  const ColourOffset: nat := 16

  /** `ParameterID::__last`: the number of IDs, and the size of the translation table. */
  const IdCount: nat := 25

  // ---------------------------------------------------------------------------------------
  // The translation table

  /** `paramTranslate` and `paramsAdded`. */
  datatype Registry = Registry(table: seq<int>, added: int) {
    /** One entry per ID, each 0 or a position already handed out. */
    predicate Valid() {
      && |table| == IdCount
      && added >= 1
      && forall id :: 0 <= id < IdCount ==> 0 <= table[id] < added
    }
  }

  /** The start of `ParameterSetup`: every entry 0, the counter at 1. */
  function Reset(): (r: Registry)
    ensures r.Valid() && r.added == 1
    ensures forall id :: 0 <= id < IdCount ==> r.table[id] == 0
  {
    Registry(seq(IdCount, _ => 0), 1)
  }

  /** `useParam`: the ID gets the next position and the counter moves on; no other entry changes. */
  function UseParam(r: Registry, id: nat): (s: Registry)
    requires r.Valid() && id < IdCount
    ensures s.Valid()
    ensures s.table[id] == r.added && s.added == r.added + 1
    ensures forall other :: 0 <= other < IdCount && other != id ==> s.table[other] == r.table[other]
  {
    Registry(r.table[id := r.added], r.added + 1)
  }

  predicate AllIds(ids: seq<nat>) {
    forall k :: 0 <= k < |ids| ==> ids[k] < IdCount
  }

  /** A run of `Add*` calls, each ending in `useParam`. */
  function Register(r: Registry, ids: seq<nat>): (s: Registry)
    requires r.Valid() && AllIds(ids)
    ensures s.Valid()
    decreases |ids|
  {
    if |ids| == 0 then r else Register(UseParam(r, ids[0]), ids[1..])
  }

  /** Registering a run of IDs moves the counter on by the length of the run. */
  lemma {:induction false} RegisterCounts(r: Registry, ids: seq<nat>)
    requires r.Valid() && AllIds(ids)
    ensures Register(r, ids).added == r.added + |ids|
    decreases |ids|
  {
    if |ids| > 0 {
      RegisterCounts(UseParam(r, ids[0]), ids[1..]);
    }
  }

  /** IDs not in a run keep their entries. */
  lemma {:induction false} RegisterKeeps(r: Registry, ids: seq<nat>, id: nat)
    requires r.Valid() && AllIds(ids)
    requires id < IdCount && id !in ids
    ensures Register(r, ids).table[id] == r.table[id]
    decreases |ids|
  {
    if |ids| > 0 {
      assert ids == [ids[0]] + ids[1..];
      RegisterKeeps(UseParam(r, ids[0]), ids[1..], id);
    }
  }

  /**
   Registering a run of IDs hands out the positions `added`, `added + 1`, ... in order, and
   each ID ends at the position of its LAST registration.
   */
  lemma {:induction false} RegisterLast(r: Registry, ids: seq<nat>, k: nat)
    requires r.Valid() && AllIds(ids)
    requires k < |ids| && ids[k] !in ids[k + 1..]
    ensures Register(r, ids).table[ids[k]] == r.added + k
    decreases |ids|
  {
    var r1 := UseParam(r, ids[0]);
    var tail := ids[1..];
    if k == 0 {
      assert tail == ids[k + 1..];
      RegisterKeeps(r1, tail, ids[0]);
    } else {
      assert ids[k] == tail[k - 1] && ids[k + 1..] == tail[k..];
      RegisterLast(r1, tail, k - 1);
    }
  }

  /** No two registrations of a run share an ID. */
  predicate Distinct(ids: seq<nat>) {
    forall i, j :: 0 <= i < j < |ids| ==> ids[i] != ids[j]
  }

  /**
   A run of distinct IDs from a reset table gives each ID the position of its registration and
   leaves every other ID unregistered.
   */
  lemma DistinctRunPositions(ids: seq<nat>)
    requires AllIds(ids) && Distinct(ids)
    ensures Register(Reset(), ids).added == 1 + |ids|
    ensures forall k :: 0 <= k < |ids| ==> Register(Reset(), ids).table[ids[k]] == k + 1
    ensures forall id :: 0 <= id < IdCount && id !in ids ==> Register(Reset(), ids).table[id] == 0
  {
    RegisterCounts(Reset(), ids);
    forall k | 0 <= k < |ids|
      ensures Register(Reset(), ids).table[ids[k]] == k + 1
    {
      RegisteredAt(Reset(), ids, ids[k]);
    }
    forall id | 0 <= id < IdCount && id !in ids
      ensures Register(Reset(), ids).table[id] == 0
    {
      RegisteredAt(Reset(), ids, id);
    }
  }

  /**
   Any run from a reset table, repeated IDs or not, leaves no two IDs sharing a position other
   than 0: each registered ID holds the position of its own last registration.
   */
  lemma RegisterInjective(ids: seq<nat>)
    requires AllIds(ids)
    ensures forall a, b :: 0 <= a < b < IdCount && Register(Reset(), ids).table[a] != 0 ==>
      Register(Reset(), ids).table[a] != Register(Reset(), ids).table[b]
  {
    forall a, b | 0 <= a < b < IdCount && Register(Reset(), ids).table[a] != 0
      ensures Register(Reset(), ids).table[a] != Register(Reset(), ids).table[b]
    {
      RegisteredAt(Reset(), ids, a);
      RegisteredAt(Reset(), ids, b);
    }
  }

  /** The position of the last occurrence of `id` in `ids`. */
  function LastIndex(ids: seq<nat>, id: nat): (k: nat)
    requires id in ids
    ensures k < |ids| && ids[k] == id && id !in ids[k + 1..]
  {
    var n := |ids| - 1;
    if ids[n] == id then n
    else
      assert ids == ids[..n] + [ids[n]];
      var k := LastIndex(ids[..n], id);
      assert ids[k + 1..] == ids[..n][k + 1..] + [ids[n]];
      k
  }

  /**
   After a run, an ID's entry is either its old entry, when the run does not register it, or
   the position of its last registration.
   */
  lemma RegisteredAt(r: Registry, ids: seq<nat>, id: nat)
    requires r.Valid() && AllIds(ids) && id < IdCount
    ensures id !in ids ==> Register(r, ids).table[id] == r.table[id]
    ensures id in ids ==> Register(r, ids).table[id] == r.added + LastIndex(ids, id)
  {
    if id in ids {
      RegisterLast(r, ids, LastIndex(ids, id));
    } else {
      RegisterKeeps(r, ids, id);
    }
  }

  // ---------------------------------------------------------------------------------------
  // ParameterSetup

  /** The registration order of `ParameterSetup` as written: the colour group is closed with its START ID. */
  function SetupOrderAsWritten(): seq<nat> {
    [FileSelectButton, KeyFrameNumber, ScalingMode, TopicStartColour, ColourMethod, ModifierId, ColourDivision,
     Smooth, ColourOffset, DistanceClamp, TopicStartColour, TopicStartInsideColour, InsideColour, TopicEndInsideColour]
  }

  /** The evidently intended order: the colour group is closed with `topic_end_colour`. */
  function SetupOrder(): seq<nat> {
    [FileSelectButton, KeyFrameNumber, ScalingMode, TopicStartColour, ColourMethod, ModifierId, ColourDivision,
     Smooth, ColourOffset, DistanceClamp, TopicEndColour, TopicStartInsideColour, InsideColour, TopicEndInsideColour]
  }

  /**
   `ParameterSetup` with its registrations in the given order: a reset table, then each
   registration; `num_params` is the final counter, one more than the registrations.
   */
  function ParameterSetup(order: seq<nat>): (r: Registry)
    requires AllIds(order)
    ensures r.Valid()
    ensures r.added == 1 + |order|
  {
    RegisterCounts(Reset(), order);
    Register(Reset(), order)
  }

  // ---------------------------------------------------------------------------------------
  // Reading parameters

  /** The host's current values, by position. */
  datatype Host = Host(slider: int -> real, popup: int -> int, colour: int -> Rgb)

  datatype ReadError = InvalidRequest

  /**
   The shared guard of the `read*` functions: the value at the ID's position, or the exception
   for an ID that was never registered.
   */
  function Checkout<T>(r: Registry, id: nat, at: int -> T): (v: Result<T, ReadError>)
    requires r.Valid() && id < IdCount
    ensures v.Err? <==> r.table[id] == 0
    ensures v.Ok? ==> v.value == at(r.table[id])
  {
    if r.table[id] == 0 then Err(InvalidRequest) else Ok(at(r.table[id]))
  }

  /** `readFloatSliderParam`. */
  function ReadFloatSlider(r: Registry, id: nat, h: Host): (v: Result<real, ReadError>)
    requires r.Valid() && id < IdCount
    ensures v.Err? <==> r.table[id] == 0
    ensures v.Ok? ==> v.value == h.slider(r.table[id])
  {
    Checkout(r, id, h.slider)
  }

  /** `readListParam`: the 1-based index of the chosen entry. */
  function ReadList(r: Registry, id: nat, h: Host): (v: Result<int, ReadError>)
    requires r.Valid() && id < IdCount
    ensures v.Err? <==> r.table[id] == 0
    ensures v.Ok? ==> v.value == h.popup(r.table[id])
  {
    Checkout(r, id, h.popup)
  }

  /** `readCheckBoxParam`: a check box is ticked when its value is nonzero. */
  function ReadCheckBox(r: Registry, id: nat, h: Host): (v: Result<bool, ReadError>)
    requires r.Valid() && id < IdCount
    ensures v.Err? <==> r.table[id] == 0
    ensures v.Ok? ==> (v.value <==> h.popup(r.table[id]) != 0)
  {
    match Checkout(r, id, h.popup)
    case Ok(n) => Ok(n != 0)
    case Err(e) => Err(e)
  }

  /** `readColour`. */
  function ReadColour(r: Registry, id: nat, h: Host): (v: Result<Rgb, ReadError>)
    requires r.Valid() && id < IdCount
    ensures v.Err? <==> r.table[id] == 0
    ensures v.Ok? ==> v.value == h.colour(r.table[id])
  {
    Checkout(r, id, h.colour)
  }

  /** IDs registered by a setup can be read: each has a nonzero position. */
  lemma ReadsRegistered(order: seq<nat>, wanted: seq<nat>)
    requires AllIds(order)
    requires forall k :: 0 <= k < |wanted| ==> wanted[k] in order
    ensures forall k :: 0 <= k < |wanted| ==> ParameterSetup(order).table[wanted[k]] != 0
  {
    forall k | 0 <= k < |wanted|
      ensures ParameterSetup(order).table[wanted[k]] != 0
    {
      RegisteredAt(Reset(), order, wanted[k]);
    }
  }

  // ---------------------------------------------------------------------------------------
  // Drop-down lists

  /** The number of entries of a `|`-separated choice list. */
  function Choices(choices: string): int {
    1 + multiset(CString(choices))['|']
  }

  /** `AddDropDown`'s count: one more entry than the `|` separators before the terminating NUL. */
  method ChoiceCount(choices: string) returns (n: int)
    ensures n == Choices(choices)
    ensures n >= 1
  {
    var name := CString(choices);
    n := 1;
    var i := 0;
    while i < |choices| && choices[i] != Nul
      invariant 0 <= i <= |name|
      invariant n == 1 + multiset(choices[..i])['|']
    {
      assert choices[..i + 1] == choices[..i] + [choices[i]];
      if choices[i] == '|' {
        n := n + 1;
      }
      i := i + 1;
    }
    assert choices[..i] == name;
  }

  /** Splitting a list at a separator adds the entries of the two sides. */
  lemma ChoicesSplit(left: string, right: string)
    requires Nul !in left && Nul !in right
    ensures Choices(left + "|" + right) == Choices(left) + Choices(right)
  {
    CStringOfNulFree(left);
    CStringOfNulFree(right);
    CStringOfNulFree(left + "|" + right);
    assert multiset(left + "|" + right) == multiset(left) + multiset{'|'} + multiset(right);
  }
}
