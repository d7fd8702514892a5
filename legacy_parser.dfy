/** The older copy of the line parser (ImportTest/index.php:68-171). It reads the same record
    sheet with the same three modes, but stores differently. A dimension's two values are
    flat fields of the section, "<dimension> menor" and "<dimension> maior". The field that
    ends the location table unsets the current section, and while no section is current a
    "field: value" line is stored at the top level of the tree. */
module LegacyParser {
  import opened Results
  import opened Text
  import opened PhpArrays
  import opened Literals
  import opened Lines
  import opened LocationRecords

  datatype LegacyState = LegacyState(
    tree: PhpArray,
    section: Option<string>,     // $current_section_header; None once it is unset
    skip: nat,
    inTable: bool,
    inLocations: bool,
    dimension: Option<string>,   // $current_table_header; None while it is undefined
    slot: Slot)

  const LegacyStart: LegacyState := LegacyState([], Some(StartSection), 0, false, false, None, 0)

  /** The key `$properties[$current_section_header]` uses: an unset variable reads as null,
      and a null key is the empty string. */
  function SectionKey(section: Option<string>): (k: Key)
    ensures section.None? ==> k == Name("")
  {
    match section
    case Some(s) => ArrayKey(s)
    case None => Name("")
  }

  /** The flat field a dimension value is stored under: "<dimension> menor" or "<dimension> maior". */
  function FlatKey(dim: string, which: string): Key {
    ArrayKey(dim + " " + which)
  }

  /** One pass of the loop body for `line` (ImportTest/index.php:76-170). */
  function LegacyStep(st: LegacyState, line: string): Result<LegacyState, Fault> {
    if st.skip > 0 then Ok(st.(skip := st.skip - 1))
    else
      var head := Head(line);
      var cur := if head in SectionHeaders then st.(section := Some(Normalise(head))) else st;
      LegacyModeStep(cur, line, head)
  }

  /** The rest of the loop body, once the heading check has chosen the section
      (ImportTest/index.php:89-170). */
  function LegacyModeStep(cur: LegacyState, line: string, head: string): Result<LegacyState, Fault> {
    if !cur.inTable && !cur.inLocations && HasColon(line) then
      if cur.section.Some? then
        var tree :- WritePath(cur.tree, [ArrayKey(cur.section.value), ArrayKey(head)], Str(ColonValue(line)));
        Ok(cur.(tree := tree))
      else
        Ok(cur.(tree := Set(cur.tree, ArrayKey(head), Str(ColonValue(line)))))
    else if !cur.inTable && !cur.inLocations && head == TableHeading then
      Ok(cur.(inTable := true))
    else if !cur.inTable && !cur.inLocations && head == LocationsHeading then
      Ok(cur.(inLocations := true, tree := Set(cur.tree, SectionKey(cur.section), Arr([]))))
    else if cur.inTable && LegacyTableLine(cur, line, head).Some? then LegacyTableLine(cur, line, head).value
    else if cur.inLocations then LegacyLocationLine(cur, line, head)
    else Ok(cur)
  }

  /** The table block (ImportTest/index.php:111-141); None when the line reaches the end of
      the block, once both values of the current dimension are set. */
  function LegacyTableLine(cur: LegacyState, line: string, head: string): Option<Result<LegacyState, Fault>> {
    if head == TableEnd then Some(Ok(cur.(inTable := false)))
    else if head in IgnoreTableHeaders then Some(Ok(cur))
    else if head in DimensionNames then Some(Ok(cur.(dimension := Some(head), skip := 3)))
    else if cur.dimension.None? then Some(Ok(cur))
    else
      var sec := SectionKey(cur.section);
      var lo := FlatKey(cur.dimension.value, "menor");
      var hi := FlatKey(cur.dimension.value, "maior");
      if !IsSetPath(cur.tree, [sec, lo]) then
        Some(var tree :- WritePath(cur.tree, [sec, lo], Str(Trim(line)));
             Ok(cur.(tree := tree, skip := 1)))
      else if !IsSetPath(cur.tree, [sec, hi]) then
        Some(var tree :- WritePath(cur.tree, [sec, hi], Str(Trim(line)));
             Ok(cur.(tree := tree)))
      else None
  }

  /** The location block (ImportTest/index.php:143-170). */
  function LegacyLocationLine(cur: LegacyState, line: string, head: string): Result<LegacyState, Fault> {
    if head == LocationSentinel then
      Ok(cur.(section := None, tree := Set(cur.tree, ArrayKey(head), Str(ColonValue(line))), inLocations := false))
    else if head in LocationLabels || (cur.slot == 0 && head == "") then Ok(cur)
    else
      var tree :- LocationWrite(cur.tree, SectionKey(cur.section), cur.slot, head);
      Ok(cur.(tree := tree, skip := 1, slot := NextSlot(cur.slot)))
  }

  /** The loop over all lines; the first fault ends it. */
  function LegacyRun(st: LegacyState, lines: seq<string>): Result<LegacyState, Fault>
    decreases |lines|
  {
    if lines == [] then Ok(st)
    else
      var prev :- LegacyRun(st, lines[..|lines| - 1]);
      LegacyStep(prev, lines[|lines| - 1])
  }

  /** The tree the script prints for a document's text. */
  function LegacyParse(text: string): Result<PhpArray, Fault> {
    var st :- LegacyRun(LegacyStart, Explode("\n", text));
    Ok(st.tree)
  }

  /** A fault in one part of the document is the fault of the whole. */
  lemma {:induction false} LegacyFaultStays(st: LegacyState, a: seq<string>, b: seq<string>)
    requires LegacyRun(st, a).Err?
    ensures LegacyRun(st, a + b) == LegacyRun(st, a)
    decreases |b|
  {
    if b == [] {
      assert a + b == a;
    } else {
      assert (a + b)[..|a + b| - 1] == a + b[..|b| - 1];
      LegacyFaultStays(st, a, b[..|b| - 1]);
    }
  }

  /** One more line carries the state on. */
  lemma LegacyRunStep(lines: seq<string>, i: nat, st: LegacyState)
    requires i < |lines| && LegacyRun(LegacyStart, lines[..i]) == Ok(st)
    ensures LegacyRun(LegacyStart, lines[..i + 1]) == LegacyStep(st, lines[i])
  {
    assert lines[..i + 1][..i] == lines[..i];
  }

  /** A line that faults ends the run with its fault. */
  lemma LegacyRunStops(lines: seq<string>, i: nat)
    requires i < |lines| && LegacyRun(LegacyStart, lines[..i + 1]).Err?
    ensures LegacyRun(LegacyStart, lines) == LegacyRun(LegacyStart, lines[..i + 1])
  {
    LegacyFaultStays(LegacyStart, lines[..i + 1], lines[i + 1..]);
    assert lines[..i + 1] + lines[i + 1..] == lines;
  }

  /** The script's loop: the state is carried from line to line; a fault ends the run. */
  method LegacyImport(text: string) returns (r: Result<PhpArray, Fault>)
    ensures r == LegacyParse(text)
  {
    var lines := Explode("\n", text);
    var st := LegacyStart;
    var i := 0;
    while i < |lines|
      invariant 0 <= i <= |lines|
      invariant LegacyRun(LegacyStart, lines[..i]) == Ok(st)
    {
      LegacyRunStep(lines, i, st);
      var next := LegacyStep(st, lines[i]);
      if next.Err? {
        LegacyRunStops(lines, i);
        return Err(next.error);
      }
      st := next.value;
      i := i + 1;
    }
    assert lines[..i] == lines;
    r := Ok(st.tree);
  }

  /** The legacy parser's invariant: at most one mode is active, and a mode is only ever
      active while a section is current (both modes are entered by a heading, and the
      section is unset only by the line that leaves location mode). */
  predicate LegacyInv(st: LegacyState) {
    !(st.inTable && st.inLocations) && (st.section.None? ==> !st.inTable && !st.inLocations)
  }

  lemma LegacyStartInv()
    ensures LegacyInv(LegacyStart)
  {
  }

  /** Every step keeps the invariant. */
  lemma LegacyStepInv(st: LegacyState, line: string)
    requires LegacyInv(st) && LegacyStep(st, line).Ok?
    ensures LegacyInv(LegacyStep(st, line).value)
  {
    if st.skip == 0 {
      var head := Head(line);
      var cur := if head in SectionHeaders then st.(section := Some(Normalise(head))) else st;
      assert LegacyStep(st, line) == LegacyModeStep(cur, line, head);
      LegacyModeStepInv(cur, line, head);
    }
  }

  lemma LegacyModeStepInv(cur: LegacyState, line: string, head: string)
    requires LegacyInv(cur) && (head in SectionHeaders ==> cur.section.Some?)
    requires LegacyModeStep(cur, line, head).Ok?
    ensures LegacyInv(LegacyModeStep(cur, line, head).value)
  {
    if !cur.inTable && !cur.inLocations && HasColon(line) {
    } else if !cur.inTable && !cur.inLocations && (head == TableHeading || head == LocationsHeading) {
      ModeHeadings();
    } else if cur.inTable && LegacyTableLine(cur, line, head).Some? {
      LegacyTableLineModes(cur, line, head);
    } else if cur.inLocations {
      LegacyLocationLineModes(cur, line, head);
    }
  }

  /** The location block never enters table mode, and keeps the section while it stays in
      location mode. */
  lemma LegacyLocationLineModes(cur: LegacyState, line: string, head: string)
    requires LegacyLocationLine(cur, line, head).Ok?
    ensures var r := LegacyLocationLine(cur, line, head).value;
            r.inTable == cur.inTable && (r.inLocations ==> cur.inLocations && r.section == cur.section)
  {
  }

  /** The table block changes neither location mode nor the section, and leaves table mode
      only at FORMA DE AQUISIÇÃO. */
  lemma LegacyTableLineModes(cur: LegacyState, line: string, head: string)
    requires LegacyTableLine(cur, line, head).Some? && LegacyTableLine(cur, line, head).value.Ok?
    ensures var r := LegacyTableLine(cur, line, head).value.value;
            && r.inLocations == cur.inLocations && r.section == cur.section && r.slot == cur.slot
            && (r.inTable <==> cur.inTable && head != TableEnd)
  {
    if head != TableEnd && head !in IgnoreTableHeaders && head !in DimensionNames && cur.dimension.Some? {
      var sec := SectionKey(cur.section);
      var lo := FlatKey(cur.dimension.value, "menor");
      var hi := FlatKey(cur.dimension.value, "maior");
      var x := Str(Trim(line));
      if !IsSetPath(cur.tree, [sec, lo]) {
        assert LegacyTableLine(cur, line, head) == Some(Ok(cur.(tree := WritePath(cur.tree, [sec, lo], x).value, skip := 1)));
      } else {
        assert LegacyTableLine(cur, line, head) == Some(Ok(cur.(tree := WritePath(cur.tree, [sec, hi], x).value)));
      }
    }
  }

  /** The invariant holds after any prefix of the document. */
  lemma {:induction false} LegacyRunInv(st: LegacyState, lines: seq<string>)
    requires LegacyInv(st) && LegacyRun(st, lines).Ok?
    ensures LegacyInv(LegacyRun(st, lines).value)
    decreases |lines|
  {
    if lines != [] {
      LegacyRunInv(st, lines[..|lines| - 1]);
      LegacyStepInv(LegacyRun(st, lines[..|lines| - 1]).value, lines[|lines| - 1]);
    }
  }

  /** Over a whole document the two modes are never both active, and no mode is active
      while the section is unset. */
  lemma LegacyModesExclusive(lines: seq<string>)
    requires LegacyRun(LegacyStart, lines).Ok?
    ensures var st := LegacyRun(LegacyStart, lines).value;
            !(st.inTable && st.inLocations) && (st.section.None? ==> !st.inTable && !st.inLocations)
  {
    LegacyRunInv(LegacyStart, lines);
  }
}
