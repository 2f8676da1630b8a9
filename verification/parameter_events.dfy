/**
 `ParameterSetup` and the events that use the table it builds: the renderer's reads before
 each frame, `ParameterChanged` and `FileSelectButtonClicked`.
 */
module ParameterEvents {
  import opened Common
  import opened KfrParser
  import opened LocalSequence
  import opened Sequence
  import opened Parameters

  // ---------------------------------------------------------------------------------------
  // ParameterSetup

  /*
   The orders are passed in, equal to the literal orders, so that the verifier reasons about the
   table through the lemmas on registration runs instead of evaluating it.
   */

  /**
   The corrected setup reports 15 parameters (the input layer and 14 controls) and puts each
   control at the position of its registration.
   */
  lemma SetupPositions(order: seq<nat>)
    requires order == SetupOrder()
    ensures ParameterSetup(order).added == 15
    ensures forall k :: 0 <= k < |order| ==> ParameterSetup(order).table[order[k]] == k + 1
  {
    DistinctRunPositions(order);
  }

  /** Under the corrected setup every control position belongs to exactly one ID. */
  lemma SetupIsOneToOne(order: seq<nat>)
    requires order == SetupOrder()
    ensures forall p :: 1 <= p < ParameterSetup(order).added ==> p in ParameterSetup(order).table
    ensures forall a, b :: 0 <= a < b < IdCount && ParameterSetup(order).table[a] != 0 ==>
      ParameterSetup(order).table[a] != ParameterSetup(order).table[b]
  {
    SetupPositions(order);
    RegisterInjective(order);
    forall p | 1 <= p < ParameterSetup(order).added
      ensures p in ParameterSetup(order).table
    {
      assert ParameterSetup(order).table[order[p - 1]] == p;
    }
  }

  /**
   As written, the setup also reports 15 parameters, but the second registration of
   `topic_start_colour` moves its entry from position 4 to position 11, and `topic_end_colour`
   stays unregistered.
   */
  lemma SetupMovesGroupStart(order: seq<nat>)
    requires order == SetupOrderAsWritten()
    ensures ParameterSetup(order).added == 15
    ensures ParameterSetup(order).table[TopicStartColour] == 11
    ensures ParameterSetup(order).table[TopicEndColour] == 0
  {
    RegisterLast(Reset(), order, 10);
    RegisterKeeps(Reset(), order, TopicEndColour);
  }

  /** As written, no ID is at position 4, one of the 14 control positions. */
  lemma SetupLosesPositionFour(order: seq<nat>)
    requires order == SetupOrderAsWritten()
    ensures 4 < ParameterSetup(order).added
    ensures forall id :: 0 <= id < IdCount ==> ParameterSetup(order).table[id] != 4
  {
    assert order[4..][6] == TopicStartColour;
    forall id | 0 <= id < IdCount
      ensures ParameterSetup(order).table[id] != 4
    {
      RegisteredAt(Reset(), order, id);
    }
  }

  // ---------------------------------------------------------------------------------------
  // The renderer's reads

  /** The IDs the renderer reads before every frame. */
  function RenderReads(): seq<nat> {
    [KeyFrameNumber, ColourDivision, ColourMethod, ModifierId, Smooth, ScalingMode, InsideColour, ColourOffset, DistanceClamp]
  }

  /**
   Every parameter the renderer reads is registered by either version of the setup, so none of
   those reads throws.
   */
  lemma RenderReadsRegistered(order: seq<nat>, h: Host)
    requires order == SetupOrderAsWritten() || order == SetupOrder()
    ensures forall k :: 0 <= k < |RenderReads()| ==> ParameterSetup(order).table[RenderReads()[k]] != 0
    ensures ReadCheckBox(ParameterSetup(order), Smooth, h).Ok?
  {
    assert forall k :: 0 <= k < |RenderReads()| ==> RenderReads()[k] in order;
    ReadsRegistered(order, RenderReads());
    assert RenderReads()[4] == Smooth;
  }

  // ---------------------------------------------------------------------------------------
  // The file button

  /**
   The outcome of a click: the sequence data after it, the error or exception it ends with,
   and the key-frame slider's new maximum and the iteration division's new value when the click
   sets them.
   */
  datatype Click = Click(sd: SequenceData, error: Option<Failure>, keyFrameMax: Option<int>, colourDivision: Option<real>)

  /**
   `FileSelectButtonClicked`, with the name the dialog returned: a cancelled dialog does
   nothing; damaged data is reported; otherwise the name is set, and when the data then
   validates the key-frame slider ends at the last snapshot index and the iteration division
   takes the `.kfr` file's value, while otherwise the slider ends at 1. An exception from
   setting the name ends the click before the sliders are touched.
   */
  function FileSelectButtonClicked(sd: SequenceData, fileName: string, fs: FileSystem, readDouble: Stream -> Option<real>)
    : (c: Click)
    requires sd.Valid()
    ensures c.sd.Valid()
    ensures |fileName| == 0 ==> c == Click(sd, None, None, None)
    ensures |fileName| > 0 && !Confirmed(sd) ==> c == Click(sd, Some(StructDamaged), None, None)
    ensures c.error.Some? ==> c.keyFrameMax.None? && c.colourDivision.None?
    ensures c.colourDivision.Some? <==> |fileName| > 0 && c.error.None? && Validate(c.sd, fs)
    ensures c.colourDivision.Some? ==>
      && c.keyFrameMax == Some(|c.sd.local.value.files| - 1)
      && 0 <= c.keyFrameMax.value
      && c.colourDivision.value == c.sd.local.value.kfr.iterDiv
    ensures |fileName| > 0 && c.error.None? && !Validate(c.sd, fs) ==> c.keyFrameMax == Some(1)
  {
    if |fileName| == 0 then Click(sd, None, None, None)
    else if GetSequenceData(sd).None? then Click(sd, Some(StructDamaged), None, None)
    else
      var h := SetFileName(sd, fileName, fs, readDouble);
      if h.error.Some? then Click(h.sd, h.error, None, None)
      else if Validate(h.sd, fs) then
        var l := h.sd.local.value;
        Click(h.sd, None, Some(|l.files| - 1), Some(l.kfr.iterDiv))
      else Click(h.sd, None, Some(1), None)
  }

  /** What `ParameterChanged` asks of the host and returns. */
  datatype Changed = Changed(forceRerender: bool, click: Option<Click>)

  /**
   `ParameterChanged`: the changed position is compared with the file button's ID; a match
   forces a re-render and handles the click, anything else does nothing.
   */
  function ParameterChanged(index: int, sd: SequenceData, fileName: string, fs: FileSystem, readDouble: Stream -> Option<real>)
    : (c: Changed)
    requires sd.Valid()
    ensures c.forceRerender <==> index == FileSelectButton
    ensures c.click.Some? <==> index == FileSelectButton
    ensures c.click.Some? ==> c.click.value == FileSelectButtonClicked(sd, fileName, fs, readDouble)
  {
    if index == FileSelectButton then Changed(true, Some(FileSelectButtonClicked(sd, fileName, fs, readDouble)))
    else Changed(false, None)
  }

  /**
   Comparing a position with an ID is sound for the file button only because it is registered
   first: under either setup its position is its ID, and no other control sits there.
   */
  lemma ButtonPositionIsItsId(order: seq<nat>)
    requires order == SetupOrderAsWritten() || order == SetupOrder()
    ensures ParameterSetup(order).table[FileSelectButton] == FileSelectButton
    ensures forall id :: 0 <= id < IdCount && id != FileSelectButton ==> ParameterSetup(order).table[id] != FileSelectButton
  {
    RegisterLast(Reset(), order, 0);
    RegisterInjective(order);
  }
}
