/**
 Reading the `.kfr` settings file (`LocalSequenceData::readKFRfile`): the iteration division
 (`IterDiv:` line) and the palette (`Colors:` line, a list of `blue,green,red,` triples).

 Each line is read through an input string stream. `Stream` models the part of a C++
 `istringstream` the reader uses: the text, the read position and the eof and fail flags,
 with formatted extraction of a word, a character and an `int`. Extraction of a `double`
 (floating point) is the parameter `readDouble`, which returns `None` when it fails; it is
 consulted only once the extraction's sentry has found something other than white space.
 */
module KfrParser {
  import opened Common

  datatype Stream = Stream(text: string, pos: nat, eof: bool, fail: bool) {
    predicate Valid() { pos <= |text| }
    /** The stream's `good()`: neither end of input reached nor an extraction failed. */
    predicate Good() { !eof && !fail }
  }

  function Open(text: string): Stream { Stream(text, 0, false, false) }

  /** A value extracted from a stream, with the stream after the extraction. */
  datatype Read<T> = Read(s: Stream, value: T)

  const Int32Max: int := 0x7FFF_FFFF
  const Int32Min: int := -0x8000_0000

  predicate IsSpace(c: char) {
    c == ' ' || c == '\t' || c == '\n' || c == '\r' || c as int == 11 || c as int == 12
  }

  predicate IsDigit(c: char) { '0' as int <= c as int <= '9' as int }

  /** The first position at or after p that does not hold white space. */
  function SkipSpace(t: string, p: nat): (q: nat)
    requires p <= |t|
    ensures p <= q <= |t|
    ensures forall i :: p <= i < q ==> IsSpace(t[i])
    ensures q < |t| ==> !IsSpace(t[q])
    decreases |t| - p
  {
    if p < |t| && IsSpace(t[p]) then SkipSpace(t, p + 1) else p
  }

  /** The end of the run of digits starting at p. */
  function DigitRun(t: string, p: nat): (q: nat)
    requires p <= |t|
    ensures p <= q <= |t|
    ensures forall i :: p <= i < q ==> IsDigit(t[i])
    ensures q < |t| ==> !IsDigit(t[q])
    decreases |t| - p
  {
    if p < |t| && IsDigit(t[p]) then DigitRun(t, p + 1) else p
  }

  /** The end of the word starting at p: the next white space, or the end of the text. */
  function WordEnd(t: string, p: nat): (q: nat)
    requires p <= |t|
    ensures p <= q <= |t|
    ensures forall i :: p <= i < q ==> !IsSpace(t[i])
    ensures q < |t| ==> IsSpace(t[q])
    decreases |t| - p
  {
    if p < |t| && !IsSpace(t[p]) then WordEnd(t, p + 1) else p
  }

  function DigitValue(c: char): nat { if IsDigit(c) then c as int - '0' as int else 0 }

  function DigitsValue(d: string): nat
  {
    if |d| == 0 then 0
    else
      10 * DigitsValue(d[..|d| - 1]) + DigitValue(d[|d| - 1])
  }

  /**
   `>> std::string`: skips white space and takes characters up to the next white space.
   Reaching the end of the text sets eof; finding no character at all also sets fail.
   */
  function ReadWord(s: Stream): (r: Read<string>)
    requires s.Valid()
    ensures r.s.Valid() && r.s.text == s.text && s.pos <= r.s.pos
    ensures !s.Good() ==> r == Read(s.(fail := true), "")
    ensures forall i :: 0 <= i < |r.value| ==> !IsSpace(r.value[i])
  {
    if !s.Good() then Read(s.(fail := true), "")
    else
      var p := SkipSpace(s.text, s.pos);
      if p == |s.text| then Read(s.(pos := p, eof := true, fail := true), "")
      else
        var q := WordEnd(s.text, p);
        Read(s.(pos := q, eof := q == |s.text|), s.text[p..q])
  }

  /** `>> char`: skips white space and takes one character; none left sets eof and fail. */
  function ReadChar(s: Stream): (r: Read<char>)
    requires s.Valid()
    ensures r.s.Valid() && r.s.text == s.text && s.pos <= r.s.pos
    ensures !s.Good() ==> r == Read(s.(fail := true), '\0')
    ensures s.Good() && r.s.Good() ==> s.pos < r.s.pos
  {
    if !s.Good() then Read(s.(fail := true), '\0')
    else
      var p := SkipSpace(s.text, s.pos);
      if p == |s.text| then Read(s.(pos := p, eof := true, fail := true), '\0')
      else Read(s.(pos := p + 1), s.text[p])
  }

  /**
   `>> int`: skips white space, takes an optional sign and a run of digits. No digits sets
   fail (and the value 0); a value outside the 32-bit range sets fail and saturates; a run that
   reaches the end of the text sets eof.
   */
  function ReadInt(s: Stream): (r: Read<int>)
    requires s.Valid()
    ensures r.s.Valid() && r.s.text == s.text && s.pos <= r.s.pos
    ensures !s.Good() ==> r == Read(s.(fail := true), 0)
    ensures s.Good() && r.s.Good() ==> s.pos < r.s.pos
    ensures Int32Min <= r.value <= Int32Max
  {
    if !s.Good() then Read(s.(fail := true), 0)
    else
      var t := s.text;
      var p := SkipSpace(t, s.pos);
      if p == |t| then Read(s.(pos := p, eof := true, fail := true), 0)
      else
        var d := if t[p] == '-' || t[p] == '+' then p + 1 else p;
        var q := DigitRun(t, d);
        if q == d then Read(s.(pos := d, eof := d == |t|, fail := true), 0)
        else
          var m := DigitsValue(t[d..q]);
          var v: int := if t[p] == '-' then -(m as int) else m;
          var e := q == |t|;
          if v > Int32Max then Read(s.(pos := q, eof := e, fail := true), Int32Max)
          else if v < Int32Min then Read(s.(pos := q, eof := e, fail := true), Int32Min)
          else Read(s.(pos := q, eof := e), v)
  }

  /** A channel value and the separator character extracted after it. */
  datatype Channel = Channel(s: Stream, value: int, sep: char)

  /** `>> value >> separator`. */
  function ReadChannel(s: Stream): (r: Channel)
    requires s.Valid()
    ensures r.s.Valid() && r.s.text == s.text && s.pos <= r.s.pos
    ensures !s.Good() ==> r == Channel(s.(fail := true), 0, '\0')
    ensures s.Good() && r.s.Good() ==> s.pos < r.s.pos
  {
    var v := ReadInt(s);
    var c := ReadChar(v.s);
    Channel(c.s, v.value, c.value)
  }

  /** One pass of the colour loop: the colour it stores, if any. */
  datatype Step = Step(s: Stream, colour: Option<Rgb>)

  /**
   Extracts `blue c1 green c2 red c3`; the colour is kept only when all three separators are
   commas and the stream has not reached its end. Each channel is narrowed to a byte.
   */
  function ReadColour(s: Stream): (r: Step)
    requires s.Valid()
    ensures r.s.Valid() && r.s.text == s.text && s.pos <= r.s.pos
    ensures !s.Good() ==> r == Step(s.(fail := true), None)
    ensures s.Good() && r.s.Good() ==> s.pos < r.s.pos
    ensures r.colour.Some? ==> !r.s.eof
  {
    var b := ReadChannel(s);
    var g := ReadChannel(b.s);
    var red := ReadChannel(g.s);
    var ok := !red.s.eof && b.sep == ',' && g.sep == ',' && red.sep == ',';
    Step(red.s, if ok then Some(Rgb(ToByte(red.value), ToByte(g.value), ToByte(b.value))) else None)
  }

  /** The number of palette entries read, and the palette array. */
  datatype Palette = Palette(count: nat, colours: seq<Rgb>)

  function Store(colours: seq<Rgb>, i: nat, c: Option<Rgb>): seq<Rgb>
    requires i < |colours|
  {
    if c.Some? then colours[i := c.value] else colours
  }

  /** A pass keeps the text and never moves back, and moves on while the stream stays good. */
  predicate Advances(s: Stream, s': Stream) {
    s'.Valid() && s'.text == s.text && s.pos <= s'.pos && (s.Good() && s'.Good() ==> s.pos < s'.pos)
  }

  /**
   What the colour loop relies on of its body: it is defined on every valid stream and advances,
   and on a stream that is no longer good it only sets fail and stores nothing, since every
   extraction from such a stream fails.
   */
  ghost predicate PassOk(pass: Stream --> Step) {
    forall s: Stream {:trigger pass.requires(s)} {:trigger pass(s)} :: s.Valid() ==>
      pass.requires(s) && Advances(s, pass(s).s) && (!s.Good() ==> pass(s) == Step(s.(fail := true), None))
  }

  lemma ReadColourOk()
    ensures PassOk(ReadColour)
  {
  }

  /**
   The colour loop as the source writes it, for a loop body `pass`: it runs while the stream is
   not at its end. A stream that has failed without reaching its end never gets there, so the
   loop never stops; `fuel` bounds the passes and `None` means it ran out.
   */
  function LoopAsWritten(pass: Stream --> Step, s: Stream, i: nat, colours: seq<Rgb>, fuel: nat): Option<Palette>
    requires PassOk(pass) && s.Valid() && i <= MaxKfrColours && |colours| == MaxKfrColours
    decreases fuel
  {
    if s.eof || i >= MaxKfrColours then Some(Palette(i, colours))
    else if fuel == 0 then None
    else
      var st := pass(s);
      LoopAsWritten(pass, st.s, if st.colour.Some? then i + 1 else i, Store(colours, i, st.colour), fuel - 1)
  }

  /**
   The colour loop stopping as soon as the stream is no longer good. It keeps the array's
   size, never counts past it, and overwrites only the entries from i up to the new count.
   */
  function Loop(pass: Stream --> Step, s: Stream, i: nat, colours: seq<Rgb>): (r: Palette)
    requires PassOk(pass) && s.Valid() && i <= MaxKfrColours && |colours| == MaxKfrColours
    ensures i <= r.count <= MaxKfrColours && |r.colours| == MaxKfrColours
    ensures forall j :: 0 <= j < i ==> r.colours[j] == colours[j]
    ensures forall j :: r.count <= j < MaxKfrColours ==> r.colours[j] == colours[j]
    decreases |s.text| - s.pos, if s.Good() then 1 else 0
  {
    if !s.Good() || i >= MaxKfrColours then Palette(i, colours)
    else
      var st := pass(s);
      Loop(pass, st.s, if st.colour.Some? then i + 1 else i, Store(colours, i, st.colour))
  }

  /** A stream that failed before its end keeps the source's loop running for any number of passes. */
  lemma {:induction false} StuckLoopNeverEnds(pass: Stream --> Step, s: Stream, i: nat, colours: seq<Rgb>, fuel: nat)
    requires PassOk(pass) && s.Valid() && i < MaxKfrColours && |colours| == MaxKfrColours
    requires s.fail && !s.eof
    ensures LoopAsWritten(pass, s, i, colours, fuel) == None
    decreases fuel
  {
    if fuel > 0 {
      assert pass(s) == Step(s, None);
      StuckLoopNeverEnds(pass, s, i, colours, fuel - 1);
    }
  }

  /** Whenever the source's loop does stop, it stops with what the corrected loop computes. */
  lemma {:induction false} LoopAsWrittenAgrees(pass: Stream --> Step, s: Stream, i: nat, colours: seq<Rgb>, fuel: nat)
    requires PassOk(pass) && s.Valid() && i <= MaxKfrColours && |colours| == MaxKfrColours
    ensures LoopAsWritten(pass, s, i, colours, fuel).Some? ==>
      LoopAsWritten(pass, s, i, colours, fuel).value == Loop(pass, s, i, colours)
    decreases fuel
  {
    if !s.eof && i < MaxKfrColours && fuel > 0 {
      if s.fail {
        StuckLoopNeverEnds(pass, s, i, colours, fuel);
      } else {
        var st := pass(s);
        LoopAsWrittenAgrees(pass, st.s, if st.colour.Some? then i + 1 else i, Store(colours, i, st.colour), fuel - 1);
      }
    }
  }

  /** The source's palette loop, `while (!ss.eof() && cIndex < kfrColours.size())`. */
  function ColoursAsWritten(s: Stream, i: nat, colours: seq<Rgb>, fuel: nat): Option<Palette>
    requires s.Valid() && i <= MaxKfrColours && |colours| == MaxKfrColours
  {
    ReadColourOk();
    LoopAsWritten(ReadColour, s, i, colours, fuel)
  }

  /** The palette loop stopping once the stream is no longer good. */
  function Colours(s: Stream, i: nat, colours: seq<Rgb>): (r: Palette)
    requires s.Valid() && i <= MaxKfrColours && |colours| == MaxKfrColours
    ensures i <= r.count <= MaxKfrColours && |r.colours| == MaxKfrColours
    ensures forall j :: 0 <= j < i ==> r.colours[j] == colours[j]
    ensures forall j :: r.count <= j < MaxKfrColours ==> r.colours[j] == colours[j]
  {
    ReadColourOk();
    Loop(ReadColour, s, i, colours)
  }

  /** The settings the reader updates: the iteration division and the palette. */
  datatype Kfr = Kfr(iterDiv: real, count: nat, colours: seq<Rgb>)

  predicate KfrValid(k: Kfr) { k.count <= MaxKfrColours && |k.colours| == MaxKfrColours }

  /** The first word of a line. */
  function Header(line: string): string { ReadWord(Open(line)).value }

  /** Where the first word of a line ends. */
  function HeaderEnd(line: string): (p: nat)
    ensures p <= |line|
  {
    ReadWord(Open(line)).s.pos
  }

  /** Nothing but white space follows the first word. */
  predicate BlankAfterHeader(line: string) {
    forall i :: HeaderEnd(line) <= i < |line| ==> IsSpace(line[i])
  }

  /** An `IterDiv:` line with something after its header: the only kind that stores a division. */
  predicate SetsIterDiv(line: string) {
    Header(line) == "IterDiv:" && !BlankAfterHeader(line)
  }

  /**
   `>> kfrIterationDivision` on the rest of an `IterDiv:` line. When the stream is already at its
   end, or only white space is left, the sentry fails and the division keeps its old value; once a
   number is attempted, a failed extraction stores 0.
   */
  function IterDivValue(s: Stream, prev: real, readDouble: Stream -> Option<real>): (v: real)
    requires s.Valid()
    ensures !s.Good() ==> v == prev
    ensures (forall i :: s.pos <= i < |s.text| ==> IsSpace(s.text[i])) ==> v == prev
    ensures s.Good() && SkipSpace(s.text, s.pos) < |s.text| ==>
      (readDouble(s).None? ==> v == 0.0) && (readDouble(s).Some? ==> v == readDouble(s).value)
  {
    if !s.Good() || SkipSpace(s.text, s.pos) == |s.text| then prev
    else
      match readDouble(s)
      case Some(v) => v
      case None => 0.0
  }

  /** One line of the file, with the corrected colour loop. */
  function ParseLine(line: string, k: Kfr, readDouble: Stream -> Option<real>): (r: Kfr)
    requires KfrValid(k)
    ensures KfrValid(r)
    ensures !SetsIterDiv(line) ==> r.iterDiv == k.iterDiv
    ensures SetsIterDiv(line) && readDouble(ReadWord(Open(line)).s).None? ==> r.iterDiv == 0.0
    ensures SetsIterDiv(line) && readDouble(ReadWord(Open(line)).s).Some? ==>
      r.iterDiv == readDouble(ReadWord(Open(line)).s).value
    ensures Header(line) != "Colors:" ==> r.count == k.count && r.colours == k.colours
  {
    var h := ReadWord(Open(line));
    var k1 := if h.value == "IterDiv:" then k.(iterDiv := IterDivValue(h.s, k.iterDiv, readDouble)) else k;
    if h.value == "Colors:" then
      var p := Colours(h.s, 0, k1.colours);
      k1.(count := p.count, colours := p.colours)
    else k1
  }

  /** One line of the file, with the source's colour loop; `None` when that loop does not stop. */
  function ParseLineAsWritten(line: string, k: Kfr, readDouble: Stream -> Option<real>, fuel: nat): Option<Kfr>
    requires KfrValid(k)
  {
    var h := ReadWord(Open(line));
    var k1 := if h.value == "IterDiv:" then k.(iterDiv := IterDivValue(h.s, k.iterDiv, readDouble)) else k;
    if h.value == "Colors:" then
      match ColoursAsWritten(h.s, 0, k1.colours, fuel)
      case Some(p) => Some(k1.(count := p.count, colours := p.colours))
      case None => None
    else Some(k1)
  }

  /** `getline` splits the text at each newline; a final newline leaves one more, empty, line. */
  function Lines(t: string): (r: seq<string>)
    ensures |r| >= 1
    ensures forall i :: 0 <= i < |r| ==> '\n' !in r[i]
  {
    if |t| == 0 then [""]
    else
      var rest := Lines(t[1..]);
      if t[0] == '\n' then [""] + rest else [[t[0]] + rest[0]] + rest[1..]
  }

  function Join(ls: seq<string>): string
    requires |ls| >= 1
  {
    if |ls| == 1 then ls[0] else ls[0] + "\n" + Join(ls[1..])
  }

  /** Splitting then joining gives back the text. */
  lemma {:induction false} JoinLines(t: string)
    ensures Join(Lines(t)) == t
  {
    if |t| > 0 {
      var rest := Lines(t[1..]);
      JoinLines(t[1..]);
      if t[0] == '\n' {
        assert Lines(t)[1..] == rest;
      } else {
        if |rest| == 1 {
          assert Join(Lines(t)) == [t[0]] + rest[0];
        } else {
          assert Lines(t)[1..] == rest[1..];
          assert Join(Lines(t)) == [t[0]] + (rest[0] + "\n" + Join(rest[1..]));
        }
      }
      assert t == [t[0]] + t[1..];
    }
  }

  /** Joining lines free of newlines, then splitting, gives back the lines. */
  lemma {:induction false} LinesJoin(ls: seq<string>)
    requires |ls| >= 1
    requires forall i :: 0 <= i < |ls| ==> '\n' !in ls[i]
    ensures Lines(Join(ls)) == ls
    decreases |ls|, |ls[0]|
  {
    if |ls[0]| == 0 {
      if |ls| > 1 {
        LinesJoin(ls[1..]);
        JoinEmptyHead(ls);
        LinesNewline(Join(ls[1..]));
        assert [""] + ls[1..] == ls;
      }
    } else {
      var c := ls[0][0];
      var ls' := [ls[0][1..]] + ls[1..];
      TailFree(ls);
      LinesJoin(ls');
      JoinCharHead(ls);
      assert c != '\n' by { assert c == ls[0][0]; }
      LinesChar(c, Join(ls'));
      assert ls'[1..] == ls[1..];
      assert [[c] + ls'[0]] + ls'[1..] == ls by { assert [c] + ls[0][1..] == ls[0]; }
    }
  }

  lemma JoinEmptyHead(ls: seq<string>)
    requires |ls| > 1 && ls[0] == ""
    ensures Join(ls) == "\n" + Join(ls[1..])
  {
  }

  lemma JoinCharHead(ls: seq<string>)
    requires |ls| >= 1 && |ls[0]| > 0
    ensures Join(ls) == [ls[0][0]] + Join([ls[0][1..]] + ls[1..])
  {
    var ls' := [ls[0][1..]] + ls[1..];
    assert ls'[1..] == ls[1..];
    assert ls[0] == [ls[0][0]] + ls[0][1..];
  }

  lemma LinesNewline(t: string)
    ensures Lines("\n" + t) == [""] + Lines(t)
  {
    assert ("\n" + t)[1..] == t;
  }

  lemma LinesChar(c: char, t: string)
    requires c != '\n'
    ensures Lines([c] + t) == [[c] + Lines(t)[0]] + Lines(t)[1..]
  {
    assert ([c] + t)[1..] == t;
  }

  /** Dropping the first character of the first line keeps every line free of newlines. */
  lemma TailFree(ls: seq<string>)
    requires |ls| >= 1 && |ls[0]| > 0
    requires forall i :: 0 <= i < |ls| ==> '\n' !in ls[i]
    ensures forall i :: 0 <= i < |[ls[0][1..]] + ls[1..]| ==> '\n' !in ([ls[0][1..]] + ls[1..])[i]
  {
    var ls' := [ls[0][1..]] + ls[1..];
    forall i | 0 <= i < |ls'| ensures '\n' !in ls'[i] {
      if i == 0 {
        assert forall j :: 0 <= j < |ls[0][1..]| ==> ls[0][1..][j] == ls[0][j + 1];
      } else {
        assert ls'[i] == ls[i];
      }
    }
  }

  function ParseLines(ls: seq<string>, k: Kfr, readDouble: Stream -> Option<real>): (r: Kfr)
    requires KfrValid(k)
    ensures KfrValid(r)
    ensures (forall i :: 0 <= i < |ls| ==> Header(ls[i]) != "Colors:") ==> r.count == k.count && r.colours == k.colours
    ensures (forall i :: 0 <= i < |ls| ==> !SetsIterDiv(ls[i])) ==> r.iterDiv == k.iterDiv
    decreases |ls|
  {
    if |ls| == 0 then k else ParseLines(ls[1..], ParseLine(ls[0], k, readDouble), readDouble)
  }

  function ParseLinesAsWritten(ls: seq<string>, k: Kfr, readDouble: Stream -> Option<real>, fuel: nat): Option<Kfr>
    requires KfrValid(k)
    decreases |ls|
  {
    if |ls| == 0 then Some(k)
    else
      match ParseLineAsWritten(ls[0], k, readDouble, fuel)
      case None => None
      case Some(k1) => if KfrValid(k1) then ParseLinesAsWritten(ls[1..], k1, readDouble, fuel) else None
  }

  datatype KfrError = CannotOpenKfr

  /**
   `readKFRfile` with the corrected colour loop. The file's contents are `None` when it cannot be
   opened. The palette keeps its size and never counts more than 1024 entries; a file without a
   `Colors:` line leaves the palette and its count as they were (the caller's `clear` does not
   reset the count), and one without an `IterDiv:` line that has a value after its header
   leaves the division.
   */
  function ReadKfr(file: Option<string>, k: Kfr, readDouble: Stream -> Option<real>): (r: Result<Kfr, KfrError>)
    requires KfrValid(k)
    ensures r.Err? <==> file.None?
    ensures r.Ok? ==> KfrValid(r.value)
    ensures r.Ok? && (forall i :: 0 <= i < |Lines(file.value)| ==> Header(Lines(file.value)[i]) != "Colors:") ==>
      r.value.count == k.count && r.value.colours == k.colours
    ensures r.Ok? && (forall i :: 0 <= i < |Lines(file.value)| ==> !SetsIterDiv(Lines(file.value)[i])) ==>
      r.value.iterDiv == k.iterDiv
  {
    match file
    case None => Err(CannotOpenKfr)
    case Some(text) => Ok(ParseLines(Lines(text), k, readDouble))
  }

  /**
   `readKFRfile` as written; `None` when a colour loop does not stop within `fuel` passes.
   Whenever it finishes, its result is the corrected reader's.
   */
  function ReadKfrAsWritten(text: string, k: Kfr, readDouble: Stream -> Option<real>, fuel: nat): (r: Option<Kfr>)
    requires KfrValid(k)
    ensures r.Some? ==> ReadKfr(Some(text), k, readDouble) == Ok(r.value)
  {
    ParseLinesAsWrittenAgrees(Lines(text), k, readDouble, fuel);
    ParseLinesAsWritten(Lines(text), k, readDouble, fuel)
  }

  lemma {:induction false} ParseLineAsWrittenAgrees(line: string, k: Kfr, readDouble: Stream -> Option<real>, fuel: nat)
    requires KfrValid(k)
    ensures ParseLineAsWritten(line, k, readDouble, fuel).Some? ==>
      ParseLineAsWritten(line, k, readDouble, fuel).value == ParseLine(line, k, readDouble)
  {
    var h := ReadWord(Open(line));
    var k1 := if h.value == "IterDiv:" then k.(iterDiv := IterDivValue(h.s, k.iterDiv, readDouble)) else k;
    ReadColourOk();
    LoopAsWrittenAgrees(ReadColour, h.s, 0, k1.colours, fuel);
  }

  lemma {:induction false} ParseLinesAsWrittenAgrees(ls: seq<string>, k: Kfr, readDouble: Stream -> Option<real>, fuel: nat)
    requires KfrValid(k)
    ensures ParseLinesAsWritten(ls, k, readDouble, fuel).Some? ==>
      ParseLinesAsWritten(ls, k, readDouble, fuel).value == ParseLines(ls, k, readDouble)
    decreases |ls|
  {
    if |ls| > 0 {
      ParseLineAsWrittenAgrees(ls[0], k, readDouble, fuel);
      var o := ParseLineAsWritten(ls[0], k, readDouble, fuel);
      if o.Some? {
        ParseLinesAsWrittenAgrees(ls[1..], o.value, readDouble, fuel);
      }
    }
  }

  lemma {:induction false} SkipSpaceTo(t: string, p: nat, e: nat)
    requires p <= e <= |t|
    requires forall i :: p <= i < e ==> IsSpace(t[i])
    requires e < |t| ==> !IsSpace(t[e])
    ensures SkipSpace(t, p) == e
    decreases e - p
  {
    if p < e {
      SkipSpaceTo(t, p + 1, e);
    }
  }

  lemma {:induction false} DigitRunTo(t: string, p: nat, e: nat)
    requires p <= e <= |t|
    requires forall i :: p <= i < e ==> IsDigit(t[i])
    requires e < |t| ==> !IsDigit(t[e])
    ensures DigitRun(t, p) == e
    decreases e - p
  {
    if p < e {
      DigitRunTo(t, p + 1, e);
    }
  }

  lemma {:induction false} WordEndTo(t: string, p: nat, e: nat)
    requires p <= e <= |t|
    requires forall i :: p <= i < e ==> !IsSpace(t[i])
    requires e < |t| ==> IsSpace(t[e])
    ensures WordEnd(t, p) == e
    decreases e - p
  {
    if p < e {
      WordEndTo(t, p + 1, e);
    }
  }

  lemma {:induction false} LinesOfOneLine(t: string)
    requires '\n' !in t
    ensures Lines(t) == [t]
  {
    if |t| > 0 {
      assert '\n' !in t[1..] by {
        assert forall i :: 0 <= i < |t[1..]| ==> t[1..][i] == t[i + 1];
      }
      LinesOfOneLine(t[1..]);
      assert [t[0]] + t[1..] == t;
    }
  }

  /** The header of the line `Colors: x` and the stream after it. */
  lemma NonNumericHeader()
    ensures ReadWord(Open("Colors: x")) == Read(Stream("Colors: x", 7, false, false), "Colors:")
  {
    var t := "Colors: x";
    SkipSpaceTo(t, 0, 0);
    WordEndTo(t, 0, 7);
    assert t[0..7] == "Colors:";
  }

  /** The entry `x` fails the first extraction without reaching the end of the line. */
  lemma NonNumericEntry()
    ensures ReadColour(Stream("Colors: x", 7, false, false)) == Step(Stream("Colors: x", 8, false, true), None)
  {
    var t := "Colors: x";
    var s := Stream(t, 7, false, false);
    SkipSpaceTo(t, 7, 8);
    DigitRunTo(t, 8, 8);
    var failed := Stream(t, 8, false, true);
    assert ReadInt(s) == Read(failed, 0);
    assert ReadChannel(s) == Channel(failed, 0, '\0');
  }

  /** After that entry the source's loop never stops, while the corrected one stores nothing. */
  lemma NonNumericLoop(colours: seq<Rgb>, fuel: nat)
    requires |colours| == MaxKfrColours
    ensures ColoursAsWritten(Stream("Colors: x", 7, false, false), 0, colours, fuel) == None
    ensures Colours(Stream("Colors: x", 7, false, false), 0, colours) == Palette(0, colours)
  {
    NonNumericEntry();
    ReadColourOk();
    if fuel > 0 {
      StuckLoopNeverEnds(ReadColour, Stream("Colors: x", 8, false, true), 0, colours, fuel - 1);
    }
  }

  lemma NonNumericLineAsWritten(k: Kfr, readDouble: Stream -> Option<real>, fuel: nat)
    requires KfrValid(k)
    ensures ParseLineAsWritten("Colors: x", k, readDouble, fuel) == None
  {
    NonNumericHeader();
    NonNumericLoop(k.colours, fuel);
  }

  lemma NonNumericLine(k: Kfr, readDouble: Stream -> Option<real>)
    requires KfrValid(k)
    ensures ParseLine("Colors: x", k, readDouble) == k.(count := 0)
  {
    NonNumericHeader();
    NonNumericLoop(k.colours, 0);
  }

  /** A `Colors:` line with a non-numeric entry keeps the source's reader looping. */
  lemma NonNumericColourNeverEnds(k: Kfr, readDouble: Stream -> Option<real>, fuel: nat)
    requires KfrValid(k)
    ensures ReadKfrAsWritten("Colors: x", k, readDouble, fuel) == None
    ensures ReadKfr(Some("Colors: x"), k, readDouble) == Ok(k.(count := 0))
  {
    NonNumericFileAsWritten("Colors: x", k, readDouble, fuel);
    NonNumericFile("Colors: x", k, readDouble);
  }

  lemma NonNumericFileAsWritten(text: string, k: Kfr, readDouble: Stream -> Option<real>, fuel: nat)
    requires text == "Colors: x" && KfrValid(k)
    ensures ReadKfrAsWritten(text, k, readDouble, fuel) == None
  {
    LinesOfOneLine(text);
    NonNumericLineAsWritten(k, readDouble, fuel);
  }

  lemma NonNumericFile(text: string, k: Kfr, readDouble: Stream -> Option<real>)
    requires text == "Colors: x" && KfrValid(k)
    ensures ReadKfr(Some(text), k, readDouble) == Ok(k.(count := 0))
  {
    LinesOfOneLine(text);
    NonNumericLine(k, readDouble);
    assert ParseLines([], k.(count := 0), readDouble) == k.(count := 0);
  }

  /** The header of the line `IterDiv: \t` ends before the trailing white space. */
  lemma BareIterDivHeader()
    ensures ReadWord(Open("IterDiv: \t")) == Read(Stream("IterDiv: \t", 8, false, false), "IterDiv:")
  {
    var t := "IterDiv: \t";
    SkipSpaceTo(t, 0, 0);
    WordEndTo(t, 0, 8);
    assert t[0..8] == "IterDiv:";
  }

  /** Only white space follows that header, so the line stores nothing. */
  lemma BareIterDivLine(k: Kfr, readDouble: Stream -> Option<real>)
    requires KfrValid(k)
    ensures ParseLine("IterDiv: \t", k, readDouble) == k
  {
    BareIterDivHeader();
    assert Header("IterDiv: \t") == "IterDiv:";
    assert HeaderEnd("IterDiv: \t") == 8;
    assert BlankAfterHeader("IterDiv: \t");
  }

  /** A file whose `IterDiv:` line holds only white space after the header keeps the division. */
  lemma BareIterDivKeeps(text: string, k: Kfr, readDouble: Stream -> Option<real>)
    requires text == "IterDiv: \t" && KfrValid(k)
    ensures ReadKfr(Some(text), k, readDouble) == Ok(k)
  {
    LinesOfOneLine(text);
    BareIterDivLine(k, readDouble);
    assert [text][1..] == [];
    assert ParseLines([text], k, readDouble) == ParseLines([], k, readDouble) == k;
  }

  // ---------------------------------------------------------------------------------------
  // The palette line as Kalles Fraktaler writes it, and the reader's round trip on it.

  function DigitChar(d: nat): (c: char)
    requires d < 10
    ensures IsDigit(c) && DigitValue(c) == d
  {
    ('0' as int + d) as char
  }

  /** The decimal digits of n, without leading zeros. */
  function Decimal(n: nat): (s: string)
    ensures 1 <= |s| && forall i :: 0 <= i < |s| ==> IsDigit(s[i])
    ensures DigitsValue(s) == n
  {
    if n < 10 then [DigitChar(n)]
    else
      var s := Decimal(n / 10) + [DigitChar(n % 10)];
      assert s[..|s| - 1] == Decimal(n / 10);
      s
  }

  /** A channel value followed by its comma. */
  function Field(n: nat): string { Decimal(n) + "," }

  function TripleText(c: Rgb): string {
    Field(c.blue as nat) + (Field(c.green as nat) + Field(c.red as nat))
  }

  function Triples(p: seq<Rgb>): string {
    if |p| == 0 then "" else TripleText(p[0]) + Triples(p[1..])
  }

  /** `Colors: ` followed by one `blue,green,red,` triple per palette entry. */
  function ColourLine(p: seq<Rgb>): string { "Colors: " + Triples(p) }

  /** A text that holds x + y at p holds x at p and y right after it. */
  lemma PieceAt(t: string, p: nat, x: string, y: string)
    requires p + |x| + |y| <= |t| && t[p..p + |x| + |y|] == x + y
    ensures t[p..p + |x|] == x && t[p + |x|..p + |x| + |y|] == y
  {
    var w := t[p..p + |x| + |y|];
    assert w[..|x|] == x && w[|x|..] == y;
    assert t[p..p + |x|] == w[..|x|];
    assert t[p + |x|..p + |x| + |y|] == w[|x|..];
  }

  lemma ToByteOfByte(b: byte)
    ensures ToByte(b as int) == b
  {
  }

  /** A written field: a run of digits, whose value fits an `int`, and a comma. */
  predicate IsField(f: string, n: nat) {
    && |f| >= 2 && f[|f| - 1] == ','
    && (forall i :: 0 <= i < |f| - 1 ==> IsDigit(f[i]))
    && DigitsValue(f[..|f| - 1]) == n && n <= Int32Max
  }

  lemma FieldIsField(n: nat)
    requires n <= Int32Max
    ensures IsField(Field(n), n)
  {
    assert Field(n)[..|Field(n)| - 1] == Decimal(n);
  }

  /**
   Reading an int, then a character, over a written field yields the field's value and its
   comma, and leaves the stream just after the comma.
   */
  lemma ReadFieldAt(s: Stream, p: nat, f: string, n: nat)
    requires IsField(f, n)
    requires s.Good() && s.pos <= p && p + |f| <= |s.text| && s.text[p..p + |f|] == f
    requires forall i :: s.pos <= i < p ==> IsSpace(s.text[i])
    ensures ReadChannel(s) == Channel(s.(pos := p + |f|), n, ',')
  {
    var t := s.text;
    var e := p + |f| - 1;
    assert forall i :: p <= i <= e ==> t[i] == f[i - p];
    SkipSpaceTo(t, s.pos, p);
    DigitRunTo(t, p, e);
    assert t[p..e] == f[..|f| - 1];
    SkipSpaceTo(t, e, e);
  }

  /** Three written fields in a row are read as three channels, each with its comma. */
  lemma ReadFields(s: Stream, p: nat, fb: string, fg: string, fr: string, c: Rgb)
    requires IsField(fb, c.blue as nat) && IsField(fg, c.green as nat) && IsField(fr, c.red as nat)
    requires s.Good() && s.pos <= p && p + |fb| + |fg| + |fr| <= |s.text|
    requires s.text[p..p + |fb|] == fb && s.text[p + |fb|..p + |fb| + |fg|] == fg
    requires s.text[p + |fb| + |fg|..p + |fb| + |fg| + |fr|] == fr
    requires forall i :: s.pos <= i < p ==> IsSpace(s.text[i])
    ensures ReadChannel(s) == Channel(s.(pos := p + |fb|), c.blue as int, ',')
    ensures ReadChannel(s.(pos := p + |fb|)) == Channel(s.(pos := p + |fb| + |fg|), c.green as int, ',')
    ensures ReadChannel(s.(pos := p + |fb| + |fg|)) == Channel(s.(pos := p + |fb| + |fg| + |fr|), c.red as int, ',')
  {
    ReadTwoFields(s.(pos := p + |fb|), p + |fb|, fg, fr, c.green as nat, c.red as nat);
    ReadFieldAt(s, p, fb, c.blue as nat);
  }

  /** Two written fields in a row are read as two channels, each with its comma. */
  lemma ReadTwoFields(s: Stream, p: nat, f: string, f': string, n: nat, n': nat)
    requires IsField(f, n) && IsField(f', n')
    requires s.Good() && s.pos == p && p + |f| + |f'| <= |s.text|
    requires s.text[p..p + |f|] == f && s.text[p + |f|..p + |f| + |f'|] == f'
    ensures ReadChannel(s) == Channel(s.(pos := p + |f|), n, ',')
    ensures ReadChannel(s.(pos := p + |f|)) == Channel(s.(pos := p + |f| + |f'|), n', ',')
  {
    ReadFieldAt(s.(pos := p + |f|), p + |f|, f', n');
    ReadFieldAt(s, p, f, n);
  }

  /** Three channels each followed by a comma, not at the end of the text, make a colour. */
  lemma ColourOfChannels(s: Stream, s1: Stream, s2: Stream, s3: Stream, c: Rgb)
    requires s.Valid() && s1.Valid() && s2.Valid() && !s3.eof
    requires ReadChannel(s) == Channel(s1, c.blue as int, ',')
    requires ReadChannel(s1) == Channel(s2, c.green as int, ',')
    requires ReadChannel(s2) == Channel(s3, c.red as int, ',')
    ensures ReadColour(s) == Step(s3, Some(c))
  {
    ToByteOfByte(c.red);
    ToByteOfByte(c.green);
    ToByteOfByte(c.blue);
  }

  /** One pass over a written triple yields its colour and leaves the stream just after it. */
  lemma ReadTriple(s: Stream, p: nat, c: Rgb)
    requires s.Good() && s.pos <= p && p + |TripleText(c)| <= |s.text| && s.text[p..p + |TripleText(c)|] == TripleText(c)
    requires forall i :: s.pos <= i < p ==> IsSpace(s.text[i])
    ensures ReadColour(s) == Step(s.(pos := p + |TripleText(c)|), Some(c))
  {
    var fb, fg, fr := Field(c.blue as nat), Field(c.green as nat), Field(c.red as nat);
    assert TripleText(c) == fb + (fg + fr);
    PiecesAt(s.text, p, fb, fg, fr);
    FieldIsField(c.blue as nat);
    FieldIsField(c.green as nat);
    FieldIsField(c.red as nat);
    ReadFields(s, p, fb, fg, fr, c);
    ColourOfChannels(s, s.(pos := p + |fb|), s.(pos := p + |fb| + |fg|), s.(pos := p + |fb| + |fg| + |fr|), c);
  }

  /** A text that holds x + (y + z) at p holds x, y and z one after the other from p. */
  lemma PiecesAt(t: string, p: nat, x: string, y: string, z: string)
    requires p + |x + (y + z)| <= |t| && t[p..p + |x + (y + z)|] == x + (y + z)
    ensures p + |x| + |y| + |z| <= |t|
    ensures t[p..p + |x|] == x && t[p + |x|..p + |x| + |y|] == y
    ensures t[p + |x| + |y|..p + |x| + |y| + |z|] == z
  {
    PieceAt(t, p, x, y + z);
    PieceAt(t, p + |x|, y, z);
  }

  /** After the last triple the next extraction meets only white space and reaches the end. */
  lemma ReadAtEnd(s: Stream)
    requires s.Good() && s.Valid()
    requires forall i :: s.pos <= i < |s.text| ==> IsSpace(s.text[i])
    ensures ReadColour(s).s.eof && !ReadColour(s).s.Good() && ReadColour(s).colour.None?
  {
    SkipSpaceTo(s.text, s.pos, |s.text|);
  }

  /** A pass that reads a colour stores it at entry i and carries on from the next entry. */
  lemma LoopStep(pass: Stream --> Step, s: Stream, s': Stream, i: nat, colours: seq<Rgb>, c: Rgb)
    requires PassOk(pass) && s.Valid() && s.Good() && i < MaxKfrColours && |colours| == MaxKfrColours
    requires pass(s) == Step(s', Some(c))
    ensures s'.Valid()
    ensures Loop(pass, s, i, colours) == Loop(pass, s', i + 1, colours[i := c])
  {
    assert Store(colours, i, Some(c)) == colours[i := c];
  }

  /** Written triples from p on: the first triple, then the rest. */
  lemma TriplesSplit(t: string, p: nat, q: seq<Rgb>)
    requires p <= |t| && t[p..] == Triples(q) && |q| > 0
    ensures p + |TripleText(q[0])| <= |t|
    ensures t[p..p + |TripleText(q[0])|] == TripleText(q[0])
    ensures t[p + |TripleText(q[0])|..] == Triples(q[1..])
  {
    var tt := TripleText(q[0]);
    assert t[p..] == tt + Triples(q[1..]);
    PieceAt(t, p, tt, Triples(q[1..]));
    assert t[p + |tt|..] == t[p..][|tt|..];
  }

  /** Each stream of `ss` is good, and a pass from it reads `q`'s colour there and moves to the next stream. */
  ghost predicate Passes(pass: Stream --> Step, ss: seq<Stream>, q: seq<Rgb>)
    requires |ss| == |q| + 1
    decreases |q|
  {
    && ss[0].Valid() && ss[0].Good() && pass.requires(ss[0])
    && (|q| > 0 ==> pass(ss[0]) == Step(ss[1], Some(q[0])) && Passes(pass, ss[1..], q[1..]))
  }

  /** The stream a run of passes ends at. */
  function LastOf(ss: seq<Stream>): Stream
    requires |ss| > 0
  {
    ss[|ss| - 1]
  }

  /**
   The streams the palette loop passes through over written triples: each pass reads the next
   triple's colour, and the pass after the last one finds the end of the line.
   */
  lemma {:induction false} TripleReads(s: Stream, p: nat, q: seq<Rgb>) returns (ss: seq<Stream>)
    requires s.Good() && s.pos <= p <= |s.text| && s.text[p..] == Triples(q)
    requires forall j :: s.pos <= j < p ==> IsSpace(s.text[j])
    ensures |ss| == |q| + 1 && ss[0] == s && Passes(ReadColour, ss, q)
    ensures LastOf(ss).Valid() && !ReadColour(LastOf(ss)).s.Good() && ReadColour(LastOf(ss)).colour.None?
    decreases |q|
  {
    if |q| == 0 {
      ReadAtEnd(s);
      ss := [s];
    } else {
      TriplesSplit(s.text, p, q);
      ReadTriple(s, p, q[0]);
      var p' := p + |TripleText(q[0])|;
      var rest := TripleReads(s.(pos := p'), p', q[1..]);
      ss := [s] + rest;
      assert ss[1..] == rest && LastOf(ss) == LastOf(rest);
    }
  }

  /** The loop over a run of passes that each read a colour stores them in order and counts them. */
  lemma {:induction false} LoopOfPasses(pass: Stream --> Step, ss: seq<Stream>, q: seq<Rgb>, i: nat, colours: seq<Rgb>)
    requires PassOk(pass)
    requires |ss| == |q| + 1 && |colours| == MaxKfrColours && i + |q| <= MaxKfrColours
    requires Passes(pass, ss, q)
    requires LastOf(ss).Valid() && !pass(LastOf(ss)).s.Good() && pass(LastOf(ss)).colour.None?
    ensures Loop(pass, ss[0], i, colours).count == i + |q|
    ensures Loop(pass, ss[0], i, colours).colours[i..i + |q|] == q
    decreases |q|
  {
    if |q| > 0 {
      LoopStep(pass, ss[0], ss[1], i, colours, q[0]);
      var c' := colours[i := q[0]];
      assert LastOf(ss[1..]) == LastOf(ss);
      LoopOfPasses(pass, ss[1..], q[1..], i + 1, c');
      var r := Loop(pass, ss[1], i + 1, c');
      assert r.colours[i] == q[0];
      assert r.colours[i..i + |q|] == [q[0]] + r.colours[i + 1..i + |q|];
    }
  }

  /**
   The palette loop over written triples stores them, in order, from entry i on, and counts them.
   */
  lemma ColoursOfTriples(s: Stream, p: nat, q: seq<Rgb>, i: nat, colours: seq<Rgb>)
    requires s.Good() && s.pos <= p <= |s.text| && s.text[p..] == Triples(q)
    requires forall j :: s.pos <= j < p ==> IsSpace(s.text[j])
    requires |colours| == MaxKfrColours && i + |q| <= MaxKfrColours
    ensures Colours(s, i, colours).count == i + |q|
    ensures Colours(s, i, colours).colours[i..i + |q|] == q
  {
    var ss := TripleReads(s, p, q);
    ReadColourOk();
    LoopOfPasses(ReadColour, ss, q, i, colours);
  }

  /**
   Reading the palette line Kalles Fraktaler writes for up to 1024 colours gives back exactly
   those colours, in order, and their number; entries past them keep their old values.
   */
  lemma ColourLineRoundTrip(q: seq<Rgb>, k: Kfr, readDouble: Stream -> Option<real>)
    requires KfrValid(k) && |q| <= MaxKfrColours
    ensures var r := ParseLine(ColourLine(q), k, readDouble);
      && r.count == |q| && r.iterDiv == k.iterDiv
      && (forall j :: 0 <= j < |q| ==> r.colours[j] == q[j])
      && (forall j :: |q| <= j < MaxKfrColours ==> r.colours[j] == k.colours[j])
  {
    var t := ColourLine(q);
    assert t[..8] == "Colors: ";
    WordEndTo(t, 0, 7);
    var h := ReadWord(Open(t));
    assert h.value == "Colors:" && h.s == Stream(t, 7, false, false);
    assert t[8..] == Triples(q);
    ColoursOfTriples(h.s, 8, q, 0, k.colours);
    var r := Colours(h.s, 0, k.colours);
    assert forall j :: 0 <= j < |q| ==> r.colours[j] == r.colours[0..|q|][j];
  }

  /** The same, for a settings file holding only that line. */
  lemma ColourFileRoundTrip(q: seq<Rgb>, k: Kfr, readDouble: Stream -> Option<real>)
    requires KfrValid(k) && |q| <= MaxKfrColours
    requires '\n' !in ColourLine(q)
    ensures var r := ReadKfr(Some(ColourLine(q)), k, readDouble);
      && r.Ok? && r.value.count == |q|
      && (forall j :: 0 <= j < |q| ==> r.value.colours[j] == q[j])
  {
    LinesOfOneLine(ColourLine(q));
    ColourLineRoundTrip(q, k, readDouble);
  }
}
