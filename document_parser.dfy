/** The line parser of the importer (process_document, document_importer.php:1231-1342): one
    forward pass over the lines of the document's text that builds a tree
    section → field → value. Three modes decide what a line means. Property mode stores
    "field: value" lines. Table mode, opened by the DIMENSÕES heading, fills
    section → dimension → {menor, maior}. Location mode, opened by PARECER, appends location
    records {Localização, Saída, Retornar, Responsável} to the section. A counter of lines to
    skip passes over the caption cells that follow a dimension name or a location cell. */
module DocumentParser {
  import opened Results
  import opened Text
  import opened PhpArrays
  import opened Literals
  import opened Lines
  import opened LocationRecords

  datatype ParserState = ParserState(
    tree: PhpArray,
    section: string,
    skip: nat,
    inTable: bool,
    inLocations: bool,
    dimension: Option<string>,   // $current_table_header; None while it is undefined
    slot: Slot)

  const Start: ParserState := ParserState([], StartSection, 0, false, false, None, 0)

  /** One pass of the loop body for `line` (document_importer.php:1244-1335). */
  function Step(st: ParserState, line: string): Result<ParserState, Fault> {
    if st.skip > 0 then Ok(st.(skip := st.skip - 1))
    else
      var head := Head(line);
      var cur := if head in SectionHeaders then st.(section := Normalise(head)) else st;
      ModeStep(cur, line, head)
  }

  /** The rest of the loop body, once the heading check has chosen the section
      (document_importer.php:1257-1334). */
  function ModeStep(cur: ParserState, line: string, head: string): Result<ParserState, Fault> {
    if !cur.inTable && !cur.inLocations && HasColon(line) then
      var tree :- WritePath(cur.tree, [ArrayKey(cur.section), ArrayKey(head)], Str(ColonValue(line)));
      Ok(cur.(tree := tree))
    else if !cur.inTable && !cur.inLocations && head == TableHeading then
      Ok(cur.(inTable := true))
    else if !cur.inTable && !cur.inLocations && head == LocationsHeading then
      Ok(cur.(inLocations := true, tree := Set(cur.tree, ArrayKey(cur.section), Arr([]))))
    else if cur.inTable && TableLine(cur, line, head).Some? then TableLine(cur, line, head).value
    else if cur.inLocations then LocationLine(cur, line, head)
    else Ok(cur)
  }

  /** The table block (document_importer.php:1275-1305); None when the line reaches the end
      of the block without a `continue`, which happens when both values of the current
      dimension are set, and the line then goes on to the location block. */
  function TableLine(cur: ParserState, line: string, head: string): Option<Result<ParserState, Fault>> {
    if head == TableEnd then Some(Ok(cur.(inTable := false)))
    else if head in IgnoreTableHeaders then Some(Ok(cur))
    else if head in DimensionNames then Some(Ok(cur.(dimension := Some(head), skip := 3)))
    else if cur.dimension.None? then Some(Ok(cur))
    else
      var sec := ArrayKey(cur.section);
      var dim := ArrayKey(cur.dimension.value);
      if !IsSetPath(cur.tree, [sec, dim, Name("menor")]) then Some(WriteValue(cur, line, "menor", 1))
      else if !IsSetPath(cur.tree, [sec, dim, Name("maior")]) then Some(WriteValue(cur, line, "maior", cur.skip))
      else None
  }

  /** `$output[$section][$current_table_header][$bound] = trim($line)`, then `skip` lines to skip. */
  function WriteValue(cur: ParserState, line: string, bound: string, skip: nat): Result<ParserState, Fault>
    requires cur.dimension.Some?
  {
    var tree :- WritePath(cur.tree, [ArrayKey(cur.section), ArrayKey(cur.dimension.value), Name(bound)], Str(Trim(line)));
    Ok(cur.(tree := tree, skip := skip))
  }

  /** The location block (document_importer.php:1307-1334). */
  function LocationLine(cur: ParserState, line: string, head: string): Result<ParserState, Fault> {
    if head == LocationSentinel then
      var tree :- WritePath(cur.tree, [ArrayKey(OtherSection), ArrayKey(head)], Str(ColonValue(line)));
      Ok(cur.(section := OtherSection, tree := tree, inLocations := false))
    else if head in LocationLabels || (cur.slot == 0 && head == "") then Ok(cur)
    else
      var tree :- LocationWrite(cur.tree, ArrayKey(cur.section), cur.slot, head);
      Ok(cur.(tree := tree, skip := 1, slot := NextSlot(cur.slot)))
  }

  /** The loop over all lines: the state after a line is the step from the state before it;
      the first fault ends the loop. */
  function Run(st: ParserState, lines: seq<string>): Result<ParserState, Fault>
    decreases |lines|
  {
    if lines == [] then Ok(st)
    else
      var prev :- Run(st, lines[..|lines| - 1]);
      Step(prev, lines[|lines| - 1])
  }

  /** The loop resumed on `lines` from the outcome of an earlier part; a fault stays. */
  function Resume(r: Result<ParserState, Fault>, lines: seq<string>): Result<ParserState, Fault> {
    match r
    case Err(e) => Err(e)
    case Ok(s) => Run(s, lines)
  }

  /** Running two parts of the document one after the other is running the whole. */
  lemma {:induction false} RunAppend(st: ParserState, a: seq<string>, b: seq<string>)
    ensures Run(st, a + b) == Resume(Run(st, a), b)
    decreases |b|
  {
    if b == [] {
      assert a + b == a;
    } else {
      assert (a + b)[..|a + b| - 1] == a + b[..|b| - 1];
      RunAppend(st, a, b[..|b| - 1]);
    }
  }

  /** The first line decides whether the loop goes on. */
  lemma RunStep(st: ParserState, lines: seq<string>)
    requires |lines| > 0
    ensures Step(st, lines[0]).Err? ==> Run(st, lines) == Err(Step(st, lines[0]).error)
    ensures Step(st, lines[0]).Ok? ==> Run(st, lines) == Run(Step(st, lines[0]).value, lines[1..])
  {
    assert lines == [lines[0]] + lines[1..];
    RunAppend(st, [lines[0]], lines[1..]);
    assert [lines[0]][..0] == [];
  }

  /** The parsed tree, before the attachment entry is added. */
  function Parse(lines: seq<string>): Result<PhpArray, Fault> {
    var st :- Run(Start, lines);
    Ok(st.tree)
  }

  /** process_document: the text is cut at "\n" and parsed; the name of the extracted image
      file is stored under "attachment". */
  function Document(text: string, attachment: string): Result<PhpArray, Fault> {
    var tree :- Parse(Explode("\n", text));
    Ok(Set(tree, Name("attachment"), Str(attachment)))
  }

  /** A fault in one part of the document is the fault of the whole. */
  lemma FaultStays(st: ParserState, a: seq<string>, b: seq<string>)
    requires Run(st, a).Err?
    ensures Run(st, a + b) == Run(st, a)
  {
    RunAppend(st, a, b);
  }

  /** One more line of the loop. */
  lemma RunNext(st0: ParserState, lines: seq<string>, i: nat, st: ParserState)
    requires i < |lines| && Run(st0, lines[..i]) == Ok(st)
    ensures Run(st0, lines[..i + 1]) == Step(st, lines[i])
  {
    assert lines[..i + 1][..i] == lines[..i];
  }

  /** A line that faults ends the loop with its fault. */
  lemma RunStops(st0: ParserState, lines: seq<string>, i: nat)
    requires i < |lines| && Run(st0, lines[..i + 1]).Err?
    ensures Run(st0, lines) == Run(st0, lines[..i + 1])
  {
    FaultStays(st0, lines[..i + 1], lines[i + 1..]);
    assert lines[..i + 1] + lines[i + 1..] == lines;
  }

  /** process_document as the loop it is: the state is carried from line to line, and a
      fault thrown by one line ends the whole import. The result is the parsed tree with the
      attachment entry added. */
  method ProcessDocument(text: string, attachment: string) returns (r: Result<PhpArray, Fault>)
    ensures r == Document(text, attachment)
  {
    var lines := Explode("\n", text);
    var st := Start;
    var i := 0;
    while i < |lines|
      invariant 0 <= i <= |lines|
      invariant Run(Start, lines[..i]) == Ok(st)
    {
      var next := Step(st, lines[i]);
      RunNext(Start, lines, i, st);
      if next.Err? {
        RunStops(Start, lines, i);
        return Err(next.error);
      }
      st := next.value;
      i := i + 1;
    }
    assert lines[..i] == lines;
    r := Ok(Set(st.tree, Name("attachment"), Str(attachment)));
  }

  // ---------------------------------------------------------------------------------------
  // The shape of every tree the parser builds

  /** Every section name the parser can make current. */
  const SectionNames: seq<string> := [
    StartSection, "Registro de acervo", "Dados técnicos", "Procedência", "Dimensões",
    "Forma de aquisição", "Estado de conservação", "Dados históricos", "Parecer", OtherSection
  ]

  lemma SectionNameFacts(s: string)
    requires s in SectionNames
    ensures ArrayKey(s) == Name(s)
  {
    NameKey(s);
  }

  lemma NormaliseInSectionNames(h: string)
    requires h in SectionHeaders
    ensures Normalise(h) in SectionNames
  {
  }

  /** The top level of the tree maps distinct section names to arrays. */
  ghost predicate TreeShape(t: PhpArray) {
    && UniqueKeys(t)
    && forall k :: HasKey(t, k) ==> k.Name? && k.name in SectionNames && Get(t, k).value.Arr?
  }

  /** The parser's invariant: the tree has its shape, the current section is one of the
      section names, and at most one mode is active. */
  ghost predicate Inv(st: ParserState) {
    TreeShape(st.tree) && st.section in SectionNames && !(st.inTable && st.inLocations)
  }

  lemma StartInv()
    ensures Inv(Start)
  {
  }

  lemma ShapeAfterWrite(t: PhpArray, s: string, rest: seq<Key>, x: Value)
    requires TreeShape(t) && s in SectionNames && |rest| >= 1
    requires WritePath(t, [Name(s)] + rest, x).Ok?
    ensures TreeShape(WritePath(t, [Name(s)] + rest, x).value)
  {
  }

  lemma ColonWriteShape(cur: ParserState, head: string, x: Value)
    requires Inv(cur) && WritePath(cur.tree, [ArrayKey(cur.section), ArrayKey(head)], x).Ok?
    ensures TreeShape(WritePath(cur.tree, [ArrayKey(cur.section), ArrayKey(head)], x).value)
  {
    SectionNameFacts(cur.section);
    assert [Name(cur.section)] + [ArrayKey(head)] == [ArrayKey(cur.section), ArrayKey(head)];
    ShapeAfterWrite(cur.tree, cur.section, [ArrayKey(head)], x);
  }

  lemma ShapeAfterSet(t: PhpArray, s: string, b: PhpArray)
    requires TreeShape(t) && s in SectionNames
    ensures TreeShape(Set(t, Name(s), Arr(b)))
  {
  }

  lemma {:induction false} ShapeAfterLocationWrite(tree: PhpArray, s: string, slot: Slot, cell: string)
    requires TreeShape(tree) && s in SectionNames
    requires LocationWrite(tree, Name(s), slot, cell).Ok?
    ensures TreeShape(LocationWrite(tree, Name(s), slot, cell).value)
  {
    var list := Get(tree, Name(s)).value.entries;
    if slot == 0 {
      ShapeAfterSet(tree, s, Push(list, Arr([Entry(Name(LocationLabels[0]), Str(cell))])));
    } else {
      ShapeAfterWrite(tree, s, [Index(|list| - 1), Name(LocationLabels[slot])], Str(cell));
    }
  }

  /** Every step keeps the invariant. */
  lemma StepInv(st: ParserState, line: string)
    requires Inv(st) && Step(st, line).Ok?
    ensures Inv(Step(st, line).value)
  {
    if st.skip == 0 {
      var head := Head(line);
      var cur := if head in SectionHeaders then st.(section := Normalise(head)) else st;
      if head in SectionHeaders {
        NormaliseInSectionNames(head);
      }
      assert Step(st, line) == ModeStep(cur, line, head);
      ModeStepInv(cur, line, head);
    }
  }

  lemma ModeStepInv(cur: ParserState, line: string, head: string)
    requires Inv(cur) && ModeStep(cur, line, head).Ok?
    ensures Inv(ModeStep(cur, line, head).value)
  {
    if !cur.inTable && !cur.inLocations {
      PropertyModeInv(cur, line, head);
    } else if cur.inTable && TableLine(cur, line, head).Some? {
      assert ModeStep(cur, line, head) == TableLine(cur, line, head).value;
      TableLineInv(cur, line, head);
    } else if cur.inLocations {
      assert ModeStep(cur, line, head) == LocationLine(cur, line, head);
      LocationLineInv(cur, line, head);
    }
  }

  lemma PropertyModeInv(cur: ParserState, line: string, head: string)
    requires Inv(cur) && !cur.inTable && !cur.inLocations && ModeStep(cur, line, head).Ok?
    ensures Inv(ModeStep(cur, line, head).value)
  {
    if HasColon(line) {
      var w := WritePath(cur.tree, [ArrayKey(cur.section), ArrayKey(head)], Str(ColonValue(line)));
      assert w.Ok? && ModeStep(cur, line, head) == Ok(cur.(tree := w.value));
      ColonWriteShape(cur, head, Str(ColonValue(line)));
    } else if head == TableHeading {
      assert ModeStep(cur, line, head) == Ok(cur.(inTable := true));
    } else if head == LocationsHeading {
      var t := Set(cur.tree, ArrayKey(cur.section), Arr([]));
      assert ModeStep(cur, line, head) == Ok(cur.(inLocations := true, tree := t));
      SectionNameFacts(cur.section);
      ShapeAfterSet(cur.tree, cur.section, []);
    } else {
      assert ModeStep(cur, line, head) == Ok(cur);
    }
  }

  lemma {:induction false} TableLineInv(cur: ParserState, line: string, head: string)
    requires Inv(cur) && cur.inTable && TableLine(cur, line, head).Some? && TableLine(cur, line, head).value.Ok?
    ensures Inv(TableLine(cur, line, head).value.value)
  {
    if head != TableEnd && head !in IgnoreTableHeaders && head !in DimensionNames && cur.dimension.Some? {
      var sec := ArrayKey(cur.section);
      var dim := ArrayKey(cur.dimension.value);
      if !IsSetPath(cur.tree, [sec, dim, Name("menor")]) {
        WriteValueInv(cur, line, "menor", 1);
      } else {
        WriteValueInv(cur, line, "maior", cur.skip);
      }
    }
  }

  lemma WriteValueInv(cur: ParserState, line: string, bound: string, skip: nat)
    requires Inv(cur) && cur.dimension.Some? && WriteValue(cur, line, bound, skip).Ok?
    ensures Inv(WriteValue(cur, line, bound, skip).value)
  {
    SectionNameFacts(cur.section);
    var rest := [ArrayKey(cur.dimension.value), Name(bound)];
    assert [Name(cur.section)] + rest == [ArrayKey(cur.section), ArrayKey(cur.dimension.value), Name(bound)];
    ShapeAfterWrite(cur.tree, cur.section, rest, Str(Trim(line)));
  }

  lemma {:induction false} LocationLineInv(cur: ParserState, line: string, head: string)
    requires Inv(cur) && !cur.inTable && LocationLine(cur, line, head).Ok?
    ensures Inv(LocationLine(cur, line, head).value)
  {
    SectionNameFacts(cur.section);
    SectionNameFacts(OtherSection);
    if head == LocationSentinel {
      ShapeAfterWrite(cur.tree, OtherSection, [ArrayKey(head)], Str(ColonValue(line)));
    } else if !(head in LocationLabels || (cur.slot == 0 && head == "")) {
      ShapeAfterLocationWrite(cur.tree, cur.section, cur.slot, head);
    }
  }

  /** The invariant holds after any prefix of the document. */
  lemma {:induction false} RunInv(st: ParserState, lines: seq<string>)
    requires Inv(st) && Run(st, lines).Ok?
    ensures Inv(Run(st, lines).value)
    decreases |lines|
  {
    if lines != [] {
      RunInv(st, lines[..|lines| - 1]);
      StepInv(Run(st, lines[..|lines| - 1]).value, lines[|lines| - 1]);
    }
  }

  /** Table mode and location mode are never active together, and every top-level entry of
      the tree is an array stored under a distinct section name. */
  lemma ParsedShape(lines: seq<string>)
    requires Run(Start, lines).Ok?
    ensures var st := Run(Start, lines).value;
            && !(st.inTable && st.inLocations)
            && UniqueKeys(st.tree)
            && forall i :: 0 <= i < |st.tree| ==>
                 st.tree[i].key.Name? && st.tree[i].key.name in SectionNames && st.tree[i].value.Arr?
  {
    StartInv();
    RunInv(Start, lines);
    var st := Run(Start, lines).value;
    forall i | 0 <= i < |st.tree|
      ensures st.tree[i].key.Name? && st.tree[i].key.name in SectionNames && st.tree[i].value.Arr?
    {
      assert HasKey(st.tree, st.tree[i].key);
      GetAt(st.tree, i);
    }
  }
}
