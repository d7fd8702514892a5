/** What the line parser of document_importer.php promises, line by line and for the
    blocks a record sheet is made of: a dimension with its two values, and a row of the
    location table. */
module DocumentParserProperties {
  import opened Results
  import opened Text
  import opened PhpArrays
  import opened Literals
  import opened Lines
  import opened LocationRecords
  import opened DocumentParser

  /** The section a line makes current before it is interpreted. */
  function SectionAfterHead(st: ParserState, line: string): (sec: string)
    ensures Head(line) in SectionHeaders ==> sec == Normalise(Head(line))
    ensures Head(line) !in SectionHeaders ==> sec == st.section
  {
    if Head(line) in SectionHeaders then Normalise(Head(line)) else st.section
  }

  /** While lines are to be skipped, a line only counts down (document_importer.php:1248-1251). */
  lemma SkipLine(st: ParserState, line: string)
    requires st.skip > 0
    ensures Step(st, line) == Ok(st.(skip := st.skip - 1))
  {
  }

  /** A heading is none of the labels the table and location blocks react to. */
  lemma HeadingIsNoLabel(h: string)
    requires h in SectionHeaders
    ensures h != LocationSentinel && h !in LocationLabels && h !in DimensionNames && h != ""
  {
  }

  /** The table block changes neither the section, nor location mode, nor the cycle position. */
  lemma TableLineFrame(cur: ParserState, line: string, head: string)
    requires TableLine(cur, line, head).Some? && TableLine(cur, line, head).value.Ok?
    ensures var r := TableLine(cur, line, head).value.value;
            r.section == cur.section && r.inLocations == cur.inLocations && r.slot == cur.slot
  {
    if head != TableEnd && head !in IgnoreTableHeaders && head !in DimensionNames && cur.dimension.Some? {
      var sec := ArrayKey(cur.section);
      var dim := ArrayKey(cur.dimension.value);
      var x := Str(Trim(line));
      if !IsSetPath(cur.tree, [sec, dim, Name("menor")]) {
        var t := WritePath(cur.tree, [sec, dim, Name("menor")], x).value;
        assert TableLine(cur, line, head) == Some(Ok(cur.(tree := t, skip := 1)));
      } else {
        var t := WritePath(cur.tree, [sec, dim, Name("maior")], x).value;
        assert TableLine(cur, line, head) == Some(Ok(cur.(tree := t)));
      }
    }
  }

  /** Only the field that ends the location table changes the section from the location block. */
  lemma LocationLineFrame(cur: ParserState, line: string, head: string)
    requires LocationLine(cur, line, head).Ok? && head != LocationSentinel
    ensures var r := LocationLine(cur, line, head).value;
            r.section == cur.section && r.inTable == cur.inTable && r.inLocations == cur.inLocations
  {
  }

  /** A heading selects its normalised section, whatever the mode (document_importer.php:1253-1255). */
  lemma SectionHeading(st: ParserState, line: string)
    requires st.skip == 0 && Head(line) in SectionHeaders && Step(st, line).Ok?
    ensures Step(st, line).value.section == Normalise(Head(line))
  {
    var head := Head(line);
    var cur := st.(section := Normalise(head));
    assert Step(st, line) == ModeStep(cur, line, head);
    HeadingKeepsSection(cur, line, head);
  }

  /** Once a heading has chosen the section, the rest of the step keeps it. */
  lemma HeadingKeepsSection(cur: ParserState, line: string, head: string)
    requires head in SectionHeaders && ModeStep(cur, line, head).Ok?
    ensures ModeStep(cur, line, head).value.section == cur.section
  {
    HeadingIsNoLabel(head);
    if !cur.inTable && !cur.inLocations {
      PropertyModeKeepsSection(cur, line, head);
    } else if cur.inTable && TableLine(cur, line, head).Some? {
      assert ModeStep(cur, line, head) == TableLine(cur, line, head).value;
      TableLineFrame(cur, line, head);
    } else if cur.inLocations {
      assert ModeStep(cur, line, head) == LocationLine(cur, line, head);
      LocationLineFrame(cur, line, head);
    }
  }

  /** In property mode the step changes the tree or the mode, never the section. */
  lemma PropertyModeKeepsSection(cur: ParserState, line: string, head: string)
    requires !cur.inTable && !cur.inLocations && ModeStep(cur, line, head).Ok?
    ensures ModeStep(cur, line, head).value.section == cur.section
  {
    if HasColon(line) {
      var w := WritePath(cur.tree, [ArrayKey(cur.section), ArrayKey(head)], Str(ColonValue(line)));
      assert w.Ok? && ModeStep(cur, line, head) == Ok(cur.(tree := w.value));
    } else if head == TableHeading {
      assert ModeStep(cur, line, head) == Ok(cur.(inTable := true));
    } else if head == LocationsHeading {
      var t := Set(cur.tree, ArrayKey(cur.section), Arr([]));
      assert ModeStep(cur, line, head) == Ok(cur.(inLocations := true, tree := t));
    } else {
      assert ModeStep(cur, line, head) == Ok(cur);
    }
  }

  /** In property mode a "field: value" line stores the value under the current section and
      changes nothing else: no mode, no other field, no other section
      (document_importer.php:1258-1261). */
  lemma PropertyLine(st: ParserState, line: string)
    requires Inv(st) && st.skip == 0 && !st.inTable && !st.inLocations && HasColon(line)
    ensures Step(st, line).Ok?
    ensures var r := Step(st, line).value;
            var sec := SectionAfterHead(st, line);
            && r == st.(section := sec, tree := r.tree)
            && GetPath(r.tree, [Name(sec), ArrayKey(Head(line))]) == Some(Str(ColonValue(line)))
            && (forall k :: k != ArrayKey(Head(line)) ==>
                  GetPath(r.tree, [Name(sec), k]) == GetPath(st.tree, [Name(sec), k]))
            && (forall k :: k != Name(sec) ==> Get(r.tree, k) == Get(st.tree, k))
  {
    var head := Head(line);
    var sec := SectionAfterHead(st, line);
    if head in SectionHeaders {
      NormaliseInSectionNames(head);
    }
    var cur := st.(section := sec);
    assert Step(st, line) == ModeStep(cur, line, head);
    SectionNameFacts(sec);
    var x := Str(ColonValue(line));
    assert HasKey(st.tree, Name(sec)) ==> Get(st.tree, Name(sec)).value.Arr?;
    FieldWrite(st.tree, Name(sec), ArrayKey(head), x);
    var w := WritePath(cur.tree, [ArrayKey(sec), ArrayKey(head)], x);
    assert w.Ok? && ModeStep(cur, line, head) == Ok(cur.(tree := w.value));
  }

  /** `$a[$s][$k] = $x` into an array whose entry `$s`, if any, is an array: the write
      succeeds, stores `$x`, and leaves every other field of `$s` and every other entry. */
  lemma FieldWrite(t: PhpArray, s: Key, k: Key, x: Value)
    requires HasKey(t, s) ==> Get(t, s).value.Arr?
    ensures WritePath(t, [s, k], x).Ok?
    ensures var r := WritePath(t, [s, k], x).value;
            && GetPath(r, [s, k]) == Some(x)
            && (forall j :: j != k ==> GetPath(r, [s, j]) == GetPath(t, [s, j]))
            && (forall j :: j != s ==> Get(r, j) == Get(t, j))
  {
    var path := [s, k];
    assert !PathBlocked(t, path) by {
      if HasKey(t, s) {
        assert Get(t, s).value.Arr?;
      }
    }
    forall j | j != k
      ensures GetPath(WritePath(t, path, x).value, [s, j]) == GetPath(t, [s, j])
    {
      assert Diverge(path, [s, j]) by {
        assert Diverge(path[1..], [s, j][1..]);
      }
      WritePathFrame(t, path, x, [s, j]);
    }
  }

  /** A line that property mode stores as a field of the current section. */
  predicate FieldLine(line: string) {
    HasColon(line) && Head(line) !in SectionHeaders
  }

  /** Field lines and the keys and values they spell: line i stores `vals[i]` under
      `keys[i]`. */
  predicate ReadsAs(lines: seq<string>, keys: seq<Key>, vals: seq<string>) {
    && |keys| == |lines| && |vals| == |lines|
    && forall i :: 0 <= i < |lines| ==>
         FieldLine(lines[i]) && ArrayKey(Head(lines[i])) == keys[i] && ColonValue(lines[i]) == vals[i]
  }

  /** The entries the keys and values make, in order. */
  function Pairs(keys: seq<Key>, vals: seq<string>): (r: PhpArray)
    requires |keys| == |vals|
    ensures |r| == |keys| && forall i :: 0 <= i < |keys| ==> r[i] == Entry(keys[i], Str(vals[i]))
  {
    seq(|keys|, i requires 0 <= i < |keys| && |keys| == |vals| => Entry(keys[i], Str(vals[i])))
  }

  /** Keys that are distinct and new to the section's `fields`. */
  predicate FreshKeys(fields: PhpArray, keys: seq<Key>) {
    && (forall i :: 0 <= i < |keys| ==> !HasKey(fields, keys[i]))
    && (forall i, j :: 0 <= i < j < |keys| ==> keys[i] != keys[j])
  }

  /** Property mode, with `fields` stored under the current section or no entry for it yet. */
  predicate Propertied(st: ParserState, fields: PhpArray) {
    && st.skip == 0 && !st.inTable && !st.inLocations && st.section in SectionNames
    && (Get(st.tree, Name(st.section)) == Some(Arr(fields)) || (!HasKey(st.tree, Name(st.section)) && fields == []))
  }

  /** A field line with a new field name appends the field to the current section
      (document_importer.php:1258-1261). */
  lemma FieldAppend(st: ParserState, fields: PhpArray, line: string, k: Key, v: string)
    requires Propertied(st, fields) && FieldLine(line) && ArrayKey(Head(line)) == k && ColonValue(line) == v
    requires !HasKey(fields, k)
    ensures Step(st, line) == Ok(st.(tree := Set(st.tree, Name(st.section), Arr(fields + [Entry(k, Str(v))]))))
  {
    SectionNameFacts(st.section);
    WriteFieldAppends(st.tree, Name(st.section), fields, k, Str(v));
  }

  /** A run of field lines in property mode, whose keys are distinct and new to the
      section, appends one entry per line to the section, in the order of the lines, and
      changes nothing else (document_importer.php:1244-1261). */
  lemma {:induction false} FieldLines(st: ParserState, fields: PhpArray, lines: seq<string>,
                                      keys: seq<Key>, vals: seq<string>)
    requires Propertied(st, fields) && |lines| >= 1 && ReadsAs(lines, keys, vals) && FreshKeys(fields, keys)
    ensures Run(st, lines) == Ok(st.(tree := Set(st.tree, Name(st.section), Arr(fields + Pairs(keys, vals)))))
    decreases |lines|
  {
    var n := |lines| - 1;
    assert FieldLine(lines[n]) && ArrayKey(Head(lines[n])) == keys[n] && ColonValue(lines[n]) == vals[n];
    if n == 0 {
      FieldLinesOne(st, fields, lines, keys, vals);
    } else {
      ReadsAsPrefix(fields, lines, keys, vals);
      FieldLines(st, fields, lines[..n], keys[..n], vals[..n]);
      PairsSnoc(fields, keys, vals);
      FieldLineNext(st, lines, st, fields + Pairs(keys[..n], vals[..n]), keys[n], vals[n]);
    }
  }

  lemma FieldLinesOne(st: ParserState, fields: PhpArray, lines: seq<string>, keys: seq<Key>, vals: seq<string>)
    requires Propertied(st, fields) && |lines| == 1 && |keys| == |vals| == 1 && FreshKeys(fields, keys)
    requires FieldLine(lines[0]) && ArrayKey(Head(lines[0])) == keys[0] && ColonValue(lines[0]) == vals[0]
    ensures Run(st, lines) == Ok(st.(tree := Set(st.tree, Name(st.section), Arr(fields + Pairs(keys, vals)))))
  {
    PairsOne(keys, vals);
    FieldLineFirst(st, fields, lines, keys[0], vals[0]);
  }

  /** One key and one value make one entry. */
  lemma PairsOne(keys: seq<Key>, vals: seq<string>)
    requires |keys| == |vals| == 1
    ensures Pairs(keys, vals) == [Entry(keys[0], Str(vals[0]))]
  {
  }

  /** A single field line with a new field name appends its field to the current section. */
  lemma FieldLineFirst(st: ParserState, fields: PhpArray, lines: seq<string>, k: Key, v: string)
    requires Propertied(st, fields) && |lines| == 1 && !HasKey(fields, k)
    requires FieldLine(lines[0]) && ArrayKey(Head(lines[0])) == k && ColonValue(lines[0]) == v
    ensures Run(st, lines) == Ok(st.(tree := Set(st.tree, Name(st.section), Arr(fields + [Entry(k, Str(v))]))))
  {
    RunOne(st, lines);
    FieldAppend(st, fields, lines[0], k, v);
  }

  /** The last line of a run, a field line with a new field name, appends its field to the
      fields the lines before it left in the current section. */
  lemma FieldLineNext(st0: ParserState, lines: seq<string>, st: ParserState, fields: PhpArray, k: Key, v: string)
    requires |lines| >= 1 && st.skip == 0 && !st.inTable && !st.inLocations && st.section in SectionNames
    requires Run(st0, lines[..|lines| - 1]) == Ok(st.(tree := Set(st.tree, Name(st.section), Arr(fields))))
    requires var last := lines[|lines| - 1];
             FieldLine(last) && ArrayKey(Head(last)) == k && ColonValue(last) == v && !HasKey(fields, k)
    ensures Run(st0, lines) == Ok(st.(tree := Set(st.tree, Name(st.section), Arr(fields + [Entry(k, Str(v))]))))
  {
    var sec := Name(st.section);
    var st1 := st.(tree := Set(st.tree, sec, Arr(fields)));
    FieldAppend(st1, fields, lines[|lines| - 1], k, v);
    RunLast(st0, lines, st1);
    SetTwice(st.tree, sec, Arr(fields), Arr(fields + [Entry(k, Str(v))]));
  }

  /** The run over lines is the step from where the run over all but the last line ends. */
  lemma RunLast(st0: ParserState, lines: seq<string>, st: ParserState)
    requires |lines| >= 1 && Run(st0, lines[..|lines| - 1]) == Ok(st)
    ensures Run(st0, lines) == Step(st, lines[|lines| - 1])
  {
  }

  /** A run over one line is the step over it. */
  lemma RunOne(st: ParserState, lines: seq<string>)
    requires |lines| == 1
    ensures Run(st, lines) == Step(st, lines[0])
  {
    assert lines[..0] == [];
  }

  /** All but the last of a run of field lines spell all but the last keys and values. */
  lemma ReadsAsPrefix(fields: PhpArray, lines: seq<string>, keys: seq<Key>, vals: seq<string>)
    requires |lines| >= 1 && ReadsAs(lines, keys, vals) && FreshKeys(fields, keys)
    ensures var n := |lines| - 1;
            ReadsAs(lines[..n], keys[..n], vals[..n]) && FreshKeys(fields, keys[..n])
  {
  }

  /** The entries of all the keys are those of all but the last, then the last; the last
      key is new to the ones before it. */
  lemma PairsSnoc(fields: PhpArray, keys: seq<Key>, vals: seq<string>)
    requires |keys| == |vals| >= 1 && FreshKeys(fields, keys)
    ensures var n := |keys| - 1;
            && fields + Pairs(keys[..n], vals[..n]) + [Entry(keys[n], Str(vals[n]))] == fields + Pairs(keys, vals)
            && !HasKey(fields + Pairs(keys[..n], vals[..n]), keys[n])
  {
    var n := |keys| - 1;
    var before := fields + Pairs(keys[..n], vals[..n]);
    forall i | 0 <= i < |before| ensures before[i].key != keys[n] {
      if i >= |fields| {
        assert before[i].key == keys[i - |fields|];
      }
    }
  }

  /** A section heading followed by field lines: the heading selects its section, whose
      fields so far are followed by one entry per line, in order; nothing else changes
      (document_importer.php:1253-1261). */
  lemma SectionBlock(st: ParserState, heading: string, fields: PhpArray, lines: seq<string>,
                     keys: seq<Key>, vals: seq<string>)
    requires st.skip == 0 && !st.inTable && !st.inLocations
    requires !HasColon(heading) && Head(heading) in SectionHeaders
    requires Head(heading) != TableHeading && Head(heading) != LocationsHeading
    requires Get(st.tree, Name(Normalise(Head(heading)))) == Some(Arr(fields))
             || (!HasKey(st.tree, Name(Normalise(Head(heading)))) && fields == [])
    requires |lines| >= 1 && ReadsAs(lines, keys, vals) && FreshKeys(fields, keys)
    ensures var sec := Normalise(Head(heading));
            Run(st, [heading] + lines)
            == Ok(st.(section := sec, tree := Set(st.tree, Name(sec), Arr(fields + Pairs(keys, vals)))))
  {
    var cur := st.(section := Normalise(Head(heading)));
    NormaliseInSectionNames(Head(heading));
    PlainModeLine(st, heading);
    RunCons(st, heading, lines, cur);
    FieldLines(cur, fields, lines, keys, vals);
  }

  /** In property mode only a colon-free DIMENSÕES line enters table mode and only a
      colon-free PARECER line enters location mode, which empties the `Parecer` section
      (document_importer.php:1263-1272). */
  lemma ModeEntry(st: ParserState, line: string)
    requires Inv(st) && st.skip == 0 && !st.inTable && !st.inLocations
    ensures Step(st, line).Ok?
    ensures Step(st, line).value.inTable <==> !HasColon(line) && Head(line) == TableHeading
    ensures Step(st, line).value.inLocations <==> !HasColon(line) && Head(line) == LocationsHeading
    ensures Step(st, line).value.inLocations ==>
              Get(Step(st, line).value.tree, Name("Parecer")) == Some(Arr([]))
  {
    if HasColon(line) {
      PropertyLine(st, line);
    } else {
      PlainModeLine(st, line);
      if Head(line) == LocationsHeading {
        ModeHeadings();
        SectionNameFacts("Parecer");
        assert SectionAfterHead(st, line) == "Parecer";
      }
    }
  }

  /** A colon-free line in property mode: DIMENSÕES enters table mode, PARECER enters
      location mode with its section emptied, and any other line only selects its section. */
  lemma PlainModeLine(st: ParserState, line: string)
    requires st.skip == 0 && !st.inTable && !st.inLocations && !HasColon(line)
    ensures var cur := st.(section := SectionAfterHead(st, line));
            Step(st, line) == Ok(if Head(line) == TableHeading then cur.(inTable := true)
                                 else if Head(line) == LocationsHeading
                                 then cur.(inLocations := true, tree := Set(cur.tree, ArrayKey(cur.section), Arr([])))
                                 else cur)
  {
  }

  /** The labels of the two tables are no headings. */
  lemma LabelIsNoHeading(h: string)
    requires h in IgnoreTableHeaders || h in DimensionNames || h in LocationLabels
    ensures h !in SectionHeaders && h != TableEnd && h != LocationSentinel
  {
  }

  /** A dimension name is no caption of either table. */
  lemma DimensionIsNoCaption(h: string)
    requires h in DimensionNames
    ensures h !in IgnoreTableHeaders && h !in LocationLabels
  {
  }

  /** In table mode a line goes to the table block, and to nothing else while that block
      consumes it. */
  lemma TableStep(st: ParserState, line: string)
    requires st.skip == 0 && st.inTable && !st.inLocations
    ensures var head := Head(line);
            var cur := if head in SectionHeaders then st.(section := Normalise(head)) else st;
            Step(st, line) == if TableLine(cur, line, head).Some? then TableLine(cur, line, head).value else Ok(cur)
  {
  }

  /** FORMA DE AQUISIÇÃO ends table mode and selects its section (document_importer.php:1276-1279). */
  lemma TableEndLine(st: ParserState, line: string)
    requires st.skip == 0 && st.inTable && !st.inLocations && Head(line) == TableEnd
    ensures Step(st, line) == Ok(st.(section := "Forma de aquisição", inTable := false))
  {
    TableStep(st, line);
    var cur := st.(section := "Forma de aquisição");
    assert TableLine(cur, line, TableEnd) == Some(Ok(cur.(inTable := false)));
  }

  /** The column captions of the dimension table are dropped (document_importer.php:1281-1283). */
  lemma TableCaptionLine(st: ParserState, line: string)
    requires st.skip == 0 && st.inTable && !st.inLocations && Head(line) in IgnoreTableHeaders
    ensures Step(st, line) == Ok(st)
  {
    TableStep(st, line);
    LabelIsNoHeading(Head(line));
    assert TableLine(st, line, Head(line)) == Some(Ok(st));
  }

  /** A dimension name becomes the current dimension, and the three caption cells after it
      are skipped (document_importer.php:1285-1289). */
  lemma DimensionLine(st: ParserState, line: string)
    requires st.skip == 0 && st.inTable && !st.inLocations && Head(line) in DimensionNames
    ensures Step(st, line) == Ok(st.(dimension := Some(Head(line)), skip := 3))
  {
    TableStep(st, line);
    LabelIsNoHeading(Head(line));
    DimensionIsNoCaption(Head(line));
    assert TableLine(st, line, Head(line)) == Some(Ok(st.(dimension := Some(Head(line)), skip := 3)));
  }

  /** Before any dimension name, the other lines of the table are dropped
      (document_importer.php:1291-1293). */
  lemma NoDimensionLine(st: ParserState, line: string)
    requires st.skip == 0 && st.inTable && !st.inLocations && st.dimension.None?
    requires Head(line) !in SectionHeaders && Head(line) !in DimensionNames
    ensures Step(st, line) == Ok(st)
  {
    TableStep(st, line);
    assert TableLine(st, line, Head(line)) == Some(Ok(st));
  }

  /** A line the table block takes as a value of the current dimension. */
  predicate ValueLine(v: string) {
    Head(v) !in SectionHeaders && Head(v) !in IgnoreTableHeaders && Head(v) !in DimensionNames
  }

  /** Table mode, with no line to skip, a current section that is stored under its own name
      and `d` as the current dimension. */
  predicate Tabled(st: ParserState, d: string) {
    && st.skip == 0 && st.inTable && !st.inLocations && ArrayKey(st.section) == Name(st.section)
    && st.dimension == Some(d)
  }

  /** The first value line of a dimension stores the trimmed line as `menor` and skips one
      line (document_importer.php:1295-1299). */
  lemma MenorLine(st: ParserState, v: string, d: string)
    requires Tabled(st, d) && ValueLine(v)
    requires !IsSetPath(st.tree, [Name(st.section), ArrayKey(d), Name("menor")])
    requires WritePath(st.tree, [Name(st.section), ArrayKey(d), Name("menor")], Str(Trim(v))).Ok?
    ensures Step(st, v) == Ok(st.(tree := WritePath(st.tree, [Name(st.section), ArrayKey(d), Name("menor")], Str(Trim(v))).value, skip := 1))
  {
    ModeHeadings();
    TableStep(st, v);
  }

  /** The next value line stores the trimmed line as `maior` (document_importer.php:1301-1304). */
  lemma MaiorLine(st: ParserState, v: string, d: string)
    requires Tabled(st, d) && ValueLine(v)
    requires IsSetPath(st.tree, [Name(st.section), ArrayKey(d), Name("menor")])
    requires !IsSetPath(st.tree, [Name(st.section), ArrayKey(d), Name("maior")])
    requires WritePath(st.tree, [Name(st.section), ArrayKey(d), Name("maior")], Str(Trim(v))).Ok?
    ensures Step(st, v) == Ok(st.(tree := WritePath(st.tree, [Name(st.section), ArrayKey(d), Name("maior")], Str(Trim(v))).value))
  {
    ModeHeadings();
    TableStep(st, v);
  }

  /** The table block never overwrites a value that is already set: it writes `menor` or
      `maior` only where isset() is false (document_importer.php:1296-1304). */
  lemma TableLineKeepsSetValues(cur: ParserState, line: string, head: string, q: seq<Key>)
    requires TableLine(cur, line, head).Some? && TableLine(cur, line, head).value.Ok?
    requires |q| == 3 && IsSetPath(cur.tree, q)
    ensures GetPath(TableLine(cur, line, head).value.value.tree, q) == GetPath(cur.tree, q)
  {
    if head != TableEnd && head !in IgnoreTableHeaders && head !in DimensionNames && cur.dimension.Some? {
      var sec := ArrayKey(cur.section);
      var dim := ArrayKey(cur.dimension.value);
      var x := Str(Trim(line));
      var pm := [sec, dim, Name("menor")];
      var pM := [sec, dim, Name("maior")];
      if !IsSetPath(cur.tree, pm) {
        assert TableLine(cur, line, head) == Some(Ok(cur.(tree := WritePath(cur.tree, pm, x).value, skip := 1)));
        DistinctPathsDiverge(pm, q);
        WritePathFrame(cur.tree, pm, x, q);
      } else {
        assert TableLine(cur, line, head) == Some(Ok(cur.(tree := WritePath(cur.tree, pM, x).value)));
        DistinctPathsDiverge(pM, q);
        WritePathFrame(cur.tree, pM, x, q);
      }
    }
  }

  /** A table line never overwrites a dimension value that is already set. */
  lemma TableKeepsSetValues(st: ParserState, line: string, q: seq<Key>)
    requires st.skip == 0 && st.inTable && !st.inLocations && Step(st, line).Ok?
    requires |q| == 3 && IsSetPath(st.tree, q)
    ensures GetPath(Step(st, line).value.tree, q) == GetPath(st.tree, q)
  {
    TableStep(st, line);
    var head := Head(line);
    var cur := if head in SectionHeaders then st.(section := Normalise(head)) else st;
    if TableLine(cur, line, head).Some? {
      TableLineKeepsSetValues(cur, line, head, q);
    }
  }

  /** The table block gives a dimension its `maior` value only once its `menor` value is set. */
  lemma TableLineMenorFirst(cur: ParserState, line: string, head: string, s: Key, d: Key)
    requires TableLine(cur, line, head).Some? && TableLine(cur, line, head).value.Ok?
    requires GetPath(TableLine(cur, line, head).value.value.tree, [s, d, Name("maior")])
             != GetPath(cur.tree, [s, d, Name("maior")])
    ensures IsSetPath(cur.tree, [s, d, Name("menor")])
  {
    var q := [s, d, Name("maior")];
    assert head != TableEnd && head !in IgnoreTableHeaders && head !in DimensionNames && cur.dimension.Some?;
    var sec := ArrayKey(cur.section);
    var dim := ArrayKey(cur.dimension.value);
    var x := Str(Trim(line));
    var pm := [sec, dim, Name("menor")];
    var pM := [sec, dim, Name("maior")];
    if !IsSetPath(cur.tree, pm) {
      assert TableLine(cur, line, head) == Some(Ok(cur.(tree := WritePath(cur.tree, pm, x).value, skip := 1)));
      DistinctPathsDiverge(pm, q);
      WritePathFrame(cur.tree, pm, x, q);
    } else if pM != q {
      assert TableLine(cur, line, head) == Some(Ok(cur.(tree := WritePath(cur.tree, pM, x).value)));
      DistinctPathsDiverge(pM, q);
      WritePathFrame(cur.tree, pM, x, q);
    }
  }

  /** A table line gives a dimension its `maior` value only once its `menor` value is set. */
  lemma TableMenorFirst(st: ParserState, line: string, s: Key, d: Key)
    requires st.skip == 0 && st.inTable && !st.inLocations && Step(st, line).Ok?
    requires GetPath(Step(st, line).value.tree, [s, d, Name("maior")]) != GetPath(st.tree, [s, d, Name("maior")])
    ensures IsSetPath(st.tree, [s, d, Name("menor")])
  {
    TableStep(st, line);
    var head := Head(line);
    var cur := if head in SectionHeaders then st.(section := Normalise(head)) else st;
    TableLineMenorFirst(cur, line, head, s, d);
  }

  /** One line that `Step` maps to `next`, followed by the rest. */
  lemma RunCons(st: ParserState, line: string, rest: seq<string>, next: ParserState)
    requires Step(st, line) == Ok(next)
    ensures Run(st, [line] + rest) == Run(next, rest)
  {
    RunAppend(st, [line], rest);
    assert [line][..0] == [];
  }

  /** A skip counter of n passes over exactly the next n lines, whatever they hold. */
  lemma {:induction false} RunSkipped(st: ParserState, xs: seq<string>, rest: seq<string>)
    requires st.skip == |xs|
    ensures Run(st, xs + rest) == Run(st.(skip := 0), rest)
    decreases |xs|
  {
    if xs == [] {
      assert xs + rest == rest;
    } else {
      var next := st.(skip := st.skip - 1);
      assert (xs + rest)[0] == xs[0];
      assert (xs + rest)[1..] == xs[1..] + rest;
      SkipLine(st, xs[0]);
      RunStep(st, xs + rest);
      RunSkipped(next, xs[1..], rest);
      assert next.(skip := 0) == st.(skip := 0);
    }
  }

  /** A block whose first line leaves the rest of the block to skip. */
  lemma StepThenSkips(st: ParserState, block: seq<string>, rest: seq<string>, next: ParserState)
    requires |block| >= 1 && next.skip == 0 && Step(st, block[0]) == Ok(next.(skip := |block| - 1))
    ensures Run(st, block + rest) == Run(next, rest)
  {
    assert block + rest == [block[0]] + (block[1..] + rest);
    RunCons(st, block[0], block[1..] + rest, next.(skip := |block| - 1));
    RunSkipped(next.(skip := |block| - 1), block[1..], rest);
  }

  /** A block of two lines and one more line, regrouped. */
  lemma RegroupTwoOne(a: string, b: string, c: string, rest: seq<string>)
    ensures [a, b] + ([c] + rest) == [a, b, c] + rest
  {
  }

  /** A block of four lines and a block of three, regrouped. */
  lemma RegroupFourThree(a: string, b: string, c: string, d: string,
                         e: string, f: string, g: string, rest: seq<string>)
    ensures [a, b, c, d] + ([e, f, g] + rest) == [a, b, c, d, e, f, g] + rest
  {
  }

  /** Four blocks of two lines, run one after the other. */
  lemma RunFourPairs(s0: ParserState, c0: string, x0: string, c1: string, x1: string,
                     c2: string, x2: string, c3: string, x3: string, rest: seq<string>,
                     s1: ParserState, s2: ParserState, s3: ParserState, s4: ParserState)
    requires Run(s0, [c0, x0] + ([c1, x1, c2, x2, c3, x3] + rest)) == Run(s1, [c1, x1, c2, x2, c3, x3] + rest)
    requires Run(s1, [c1, x1] + ([c2, x2, c3, x3] + rest)) == Run(s2, [c2, x2, c3, x3] + rest)
    requires Run(s2, [c2, x2] + ([c3, x3] + rest)) == Run(s3, [c3, x3] + rest)
    requires Run(s3, [c3, x3] + rest) == Run(s4, rest)
    ensures Run(s0, [c0, x0, c1, x1, c2, x2, c3, x3] + rest) == Run(s4, rest)
  {
    RegroupPairs(c0, x0, c1, x1, c2, x2, c3, x3, rest);
  }

  /** The four pairs, regrouped. */
  lemma RegroupPairs(c0: string, x0: string, c1: string, x1: string,
                     c2: string, x2: string, c3: string, x3: string, rest: seq<string>)
    ensures [c0, x0] + ([c1, x1, c2, x2, c3, x3] + rest) == [c0, x0, c1, x1, c2, x2, c3, x3] + rest
    ensures [c1, x1] + ([c2, x2, c3, x3] + rest) == [c1, x1, c2, x2, c3, x3] + rest
    ensures [c2, x2] + ([c3, x3] + rest) == [c2, x2, c3, x3] + rest
  {
  }

  /** Under a dimension that is not there yet, `menor` is unset, and writing it creates the
      record {menor}. */
  lemma MenorWrite(t: PhpArray, sec: Key, d: Key, a: Value)
    requires d.Name? && GetPath(t, [sec, d]) == None && (HasKey(t, sec) ==> Get(t, sec).value.Arr?)
    ensures !IsSetPath(t, [sec, d, Name("menor")])
    ensures WritePath(t, [sec, d, Name("menor")], a).Ok?
    ensures GetPath(WritePath(t, [sec, d, Name("menor")], a).value, [sec, d]) == Some(Arr([Entry(Name("menor"), a)]))
  {
    var pm := [sec, d, Name("menor")];
    assert GetPath(t, pm) == None;
    IsSetNamedPath(t, pm);
    assert !PathBlocked(t, pm);
    WriteLeaf(t, sec, d, Name("menor"), a);
    assert RecordAt(t, sec, d) == [];
    assert !HasKey([], Name("menor"));
    assert Set([], Name("menor"), a) == [Entry(Name("menor"), a)];
  }

  /** Under the record {menor}, `menor` is set unless it is null, `maior` is unset, and writing
      `maior` completes the record {menor, maior}. */
  lemma MaiorWrite(t: PhpArray, sec: Key, d: Key, a: Value, b: Value)
    requires d.Name? && GetPath(t, [sec, d]) == Some(Arr([Entry(Name("menor"), a)]))
    ensures IsSetPath(t, [sec, d, Name("menor")]) <==> a != Null
    ensures !IsSetPath(t, [sec, d, Name("maior")])
    ensures WritePath(t, [sec, d, Name("maior")], b).Ok?
    ensures GetPath(WritePath(t, [sec, d, Name("maior")], b).value, [sec, d])
            == Some(Arr([Entry(Name("menor"), a), Entry(Name("maior"), b)]))
  {
    var pm := [sec, d, Name("menor")];
    var pM := [sec, d, Name("maior")];
    var rec := [Entry(Name("menor"), a)];
    assert [sec, d] + [Name("menor")] == pm && [sec, d] + [Name("maior")] == pM;
    GetPathExtend(t, [sec, d], Name("menor"));
    GetPathExtend(t, [sec, d], Name("maior"));
    assert Get(rec, Name("maior")) == None;
    IsSetNamedPath(t, pm);
    IsSetNamedPath(t, pM);
    OpenBelowArray(t, [sec, d], Name("maior"));
    WriteLeaf(t, sec, d, Name("maior"), b);
    assert RecordAt(t, sec, d) == rec;
    assert !HasKey(rec, Name("maior"));
    assert rec + [Entry(Name("maior"), b)] == [Entry(Name("menor"), a), Entry(Name("maior"), b)];
  }

  /** A dimension name and the three caption cells after it only select the dimension. */
  lemma DimensionHead(st: ParserState, dimLine: string, x1: string, x2: string, x3: string, rest: seq<string>)
    requires st.skip == 0 && st.inTable && !st.inLocations && Head(dimLine) in DimensionNames
    ensures Run(st, [dimLine, x1, x2, x3] + rest) == Run(st.(dimension := Some(Head(dimLine))), rest)
  {
    DimensionLine(st, dimLine);
    StepThenSkips(st, [dimLine, x1, x2, x3], rest, st.(dimension := Some(Head(dimLine))));
  }

  /** The first value line of a dimension, with the cell after it. */
  lemma MenorRows(st: ParserState, d: string, v1: string, x4: string, rest: seq<string>, t1: PhpArray)
    requires Tabled(st, d) && ValueLine(v1)
    requires !IsSetPath(st.tree, [Name(st.section), ArrayKey(d), Name("menor")])
    requires WritePath(st.tree, [Name(st.section), ArrayKey(d), Name("menor")], Str(Trim(v1))) == Ok(t1)
    ensures Run(st, [v1, x4] + rest) == Run(st.(tree := t1), rest)
  {
    MenorLine(st, v1, d);
    StepThenSkips(st, [v1, x4], rest, st.(tree := t1));
  }

  /** The second value line of a dimension. */
  lemma MaiorRow(st: ParserState, d: string, v2: string, rest: seq<string>, t2: PhpArray)
    requires Tabled(st, d) && ValueLine(v2)
    requires IsSetPath(st.tree, [Name(st.section), ArrayKey(d), Name("menor")])
    requires !IsSetPath(st.tree, [Name(st.section), ArrayKey(d), Name("maior")])
    requires WritePath(st.tree, [Name(st.section), ArrayKey(d), Name("maior")], Str(Trim(v2))) == Ok(t2)
    ensures Run(st, [v2] + rest) == Run(st.(tree := t2), rest)
  {
    MaiorLine(st, v2, d);
    RunCons(st, v2, rest, st.(tree := t2));
  }

  /** Writing `menor` and then `maior` under a dimension that is not there yet: each write
      finds its value unset, neither is refused, the record {menor, maior} results, and no
      other section changes. */
  lemma DimensionWrites(tree: PhpArray, sec: Key, d: Key, a: Value, b: Value) returns (t1: PhpArray, t2: PhpArray)
    requires d.Name? && a != Null
    requires GetPath(tree, [sec, d]) == None && (HasKey(tree, sec) ==> Get(tree, sec).value.Arr?)
    ensures !IsSetPath(tree, [sec, d, Name("menor")])
    ensures WritePath(tree, [sec, d, Name("menor")], a) == Ok(t1)
    ensures IsSetPath(t1, [sec, d, Name("menor")]) && !IsSetPath(t1, [sec, d, Name("maior")])
    ensures WritePath(t1, [sec, d, Name("maior")], b) == Ok(t2)
    ensures GetPath(t2, [sec, d]) == Some(Arr([Entry(Name("menor"), a), Entry(Name("maior"), b)]))
    ensures forall k :: k != sec ==> Get(t2, k) == Get(tree, k)
  {
    MenorWrite(tree, sec, d, a);
    t1 := WritePath(tree, [sec, d, Name("menor")], a).value;
    MaiorWrite(t1, sec, d, a, b);
    t2 := WritePath(t1, [sec, d, Name("maior")], b).value;
  }

  /** The two value lines of a dimension, with the cell between them, store `menor` and
      then `maior` when neither is set yet. */
  lemma ValueRows(st: ParserState, d: string, v1: string, x4: string, v2: string, rest: seq<string>,
                  t1: PhpArray, t: PhpArray)
    requires Tabled(st, d) && ValueLine(v1) && ValueLine(v2)
    requires !IsSetPath(st.tree, [Name(st.section), ArrayKey(d), Name("menor")])
    requires WritePath(st.tree, [Name(st.section), ArrayKey(d), Name("menor")], Str(Trim(v1))) == Ok(t1)
    requires IsSetPath(t1, [Name(st.section), ArrayKey(d), Name("menor")])
    requires !IsSetPath(t1, [Name(st.section), ArrayKey(d), Name("maior")])
    requires WritePath(t1, [Name(st.section), ArrayKey(d), Name("maior")], Str(Trim(v2))) == Ok(t)
    ensures Run(st, [v1, x4, v2] + rest) == Run(st.(tree := t), rest)
  {
    var s1 := st.(tree := t1);
    MenorRows(st, d, v1, x4, [v2] + rest, t1);
    assert Tabled(s1, d);
    MaiorRow(s1, d, v2, rest, t);
    RegroupTwoOne(v1, x4, v2, rest);
  }

  /** The two value lines of a new dimension, with the cell between them, store the record
      {menor, maior} and change nothing outside the section. */
  lemma DimensionValues(st: ParserState, d: string, v1: string, x4: string, v2: string, rest: seq<string>)
    returns (t: PhpArray)
    requires Tabled(st, d) && ArrayKey(d) == Name(d) && ValueLine(v1) && ValueLine(v2)
    requires GetPath(st.tree, [Name(st.section), Name(d)]) == None
    requires HasKey(st.tree, Name(st.section)) ==> Get(st.tree, Name(st.section)).value.Arr?
    ensures Run(st, [v1, x4, v2] + rest) == Run(st.(tree := t), rest)
    ensures GetPath(t, [Name(st.section), Name(d)])
            == Some(Arr([Entry(Name("menor"), Str(Trim(v1))), Entry(Name("maior"), Str(Trim(v2)))]))
    ensures forall k :: k != Name(st.section) ==> Get(t, k) == Get(st.tree, k)
  {
    var t1;
    t1, t := DimensionWrites(st.tree, Name(st.section), Name(d), Str(Trim(v1)), Str(Trim(v2)));
    ValueRows(st, d, v1, x4, v2, rest, t1, t);
  }

  /** A dimension is stored under its own name. */
  lemma DimensionNameKey(d: string)
    requires d in DimensionNames
    ensures ArrayKey(d) == Name(d)
  {
    NameKey(d);
  }

  /** A dimension block: the dimension's name, three caption cells, the smaller value, one
      more cell and the larger value. The two values land under the dimension as
      {menor, maior}, in that order, and nothing outside the section changes
      (document_importer.php:1285-1304). */
  lemma DimensionBlock(st: ParserState, dimLine: string, x1: string, x2: string, x3: string,
                       v1: string, x4: string, v2: string, rest: seq<string>)
    returns (r: ParserState)
    requires st.skip == 0 && st.inTable && !st.inLocations && st.section in SectionNames
    requires HasKey(st.tree, Name(st.section)) ==> Get(st.tree, Name(st.section)).value.Arr?
    requires Head(dimLine) in DimensionNames && ValueLine(v1) && ValueLine(v2)
    requires GetPath(st.tree, [Name(st.section), Name(Head(dimLine))]) == None
    ensures Run(st, [dimLine, x1, x2, x3, v1, x4, v2] + rest) == Run(r, rest)
    ensures r == st.(tree := r.tree, dimension := Some(Head(dimLine)))
    ensures GetPath(r.tree, [Name(st.section), Name(Head(dimLine))])
            == Some(Arr([Entry(Name("menor"), Str(Trim(v1))), Entry(Name("maior"), Str(Trim(v2)))]))
    ensures forall k :: k != Name(st.section) ==> Get(r.tree, k) == Get(st.tree, k)
  {
    SectionNameFacts(st.section);
    DimensionNameKey(Head(dimLine));
    DimensionHead(st, dimLine, x1, x2, x3, [v1, x4, v2] + rest);
    var st4 := st.(dimension := Some(Head(dimLine)));
    var t := DimensionValues(st4, Head(dimLine), v1, x4, v2, rest);
    r := st4.(tree := t);
    RegroupFourThree(dimLine, x1, x2, x3, v1, x4, v2, rest);
  }

  /** The field that ends the location table opens the section `Outros`, is stored there,
      and ends location mode (document_importer.php:1308-1313). */
  lemma LocationTableEnd(st: ParserState, line: string)
    requires Inv(st) && st.skip == 0 && st.inLocations && Head(line) == LocationSentinel
    ensures Step(st, line).Ok?
    ensures var r := Step(st, line).value;
            && r == st.(section := OtherSection, inLocations := false, tree := r.tree)
            && GetPath(r.tree, [Name(OtherSection), Name(LocationSentinel)]) == Some(Str(ColonValue(line)))
            && forall k :: k != Name(OtherSection) ==> Get(r.tree, k) == Get(st.tree, k)
  {
    SectionNameFacts(OtherSection);
    NameKey(LocationSentinel);
    var path := [Name(OtherSection), Name(LocationSentinel)];
    assert !PathBlocked(st.tree, path) by {
      if HasKey(st.tree, Name(OtherSection)) {
        assert Get(st.tree, Name(OtherSection)).value.Arr?;
      }
    }
  }

  /** Captions of the location table, and an empty first cell, are dropped
      (document_importer.php:1315-1317). */
  lemma LocationCaption(st: ParserState, line: string)
    requires Inv(st) && st.skip == 0 && st.inLocations && Head(line) !in SectionHeaders
    requires Head(line) in LocationLabels || (st.slot == 0 && Head(line) == "")
    ensures Step(st, line) == Ok(st)
  {
    LocationStep(st, line);
    SentinelNotCaption();
    assert Head(line) != LocationSentinel;
  }

  /** A line the location block takes as a cell of the table. */
  predicate CellLine(c: string) {
    && ':' !in c && c != "" && !IsPhpSpace(c[0]) && !IsPhpSpace(c[|c| - 1])
    && c !in SectionHeaders && c !in LocationLabels && c != LocationSentinel
  }

  /** In location mode, with the table block closed, a line goes to the location block. */
  lemma LocationStep(st: ParserState, line: string)
    requires st.skip == 0 && !st.inTable && st.inLocations
    ensures var head := Head(line);
            var cur := if head in SectionHeaders then st.(section := Normalise(head)) else st;
            Step(st, line) == LocationLine(cur, line, head)
  {
  }

  /** A cell is written at the current position of the cycle, which then advances, and the
      caption line after it is skipped (document_importer.php:1319-1333). */
  lemma CellStep(s: ParserState, c: string)
    requires s.skip == 0 && s.inLocations && !s.inTable && s.section in SectionNames && CellLine(c)
    requires LocationWrite(s.tree, Name(s.section), s.slot, c).Ok?
    ensures Step(s, c) == Ok(s.(tree := LocationWrite(s.tree, Name(s.section), s.slot, c).value,
                                slot := NextSlot(s.slot), skip := 1))
  {
    assert Head(c) == c by {
      PlainLine(c);
    }
    assert Step(s, c) == LocationLine(s, c, c) by {
      LocationStep(s, c);
    }
    SectionNameFacts(s.section);
  }

  lemma CellThenSkip(s: ParserState, c: string, x: string, rest: seq<string>, t: PhpArray)
    requires s.skip == 0 && s.inLocations && !s.inTable && s.section in SectionNames && CellLine(c)
    requires LocationWrite(s.tree, Name(s.section), s.slot, c) == Ok(t)
    ensures Run(s, [c, x] + rest) == Run(s.(tree := t, slot := NextSlot(s.slot)), rest)
  {
    CellStep(s, c);
    StepThenSkips(s, [c, x], rest, s.(tree := t, slot := NextSlot(s.slot)));
  }

  /** The four cells of a row, each with the line skipped after it, one pair at a time. */
  lemma RowCells(st: ParserState, list: PhpArray, cells: seq<string>,
                 x0: string, x1: string, x2: string, x3: string, rest: seq<string>)
    returns (s1: ParserState, s2: ParserState, s3: ParserState)
    requires st.skip == 0 && st.inLocations && !st.inTable && st.slot == 0 && st.section in SectionNames
    requires Get(st.tree, Name(st.section)) == Some(Arr(list)) && IsList(list)
    requires |cells| == 4 && forall i :: 0 <= i < 4 ==> CellLine(cells[i])
    ensures Run(st, [cells[0], x0] + ([cells[1], x1, cells[2], x2, cells[3], x3] + rest))
            == Run(s1, [cells[1], x1, cells[2], x2, cells[3], x3] + rest)
    ensures Run(s1, [cells[1], x1] + ([cells[2], x2, cells[3], x3] + rest))
            == Run(s2, [cells[2], x2, cells[3], x3] + rest)
    ensures Run(s2, [cells[2], x2] + ([cells[3], x3] + rest)) == Run(s3, [cells[3], x3] + rest)
    ensures Run(s3, [cells[3], x3] + rest)
            == Run(st.(tree := Set(st.tree, Name(st.section), Arr(RowAfter(list, cells)))), rest)
  {
    var sec := Name(st.section);
    FullRow(st.tree, sec, list, cells);
    var t4 := Set(st.tree, sec, Arr(RowAfter(list, cells)));
    var t1, t2, t3 := RowWrites(st.tree, sec, cells, t4);
    s1 := st.(tree := t1, slot := 1);
    s2 := st.(tree := t2, slot := 2);
    s3 := st.(tree := t3, slot := 3);
    CellThenSkip(st, cells[0], x0, [cells[1], x1, cells[2], x2, cells[3], x3] + rest, t1);
    CellThenSkip(s1, cells[1], x1, [cells[2], x2, cells[3], x3] + rest, t2);
    CellThenSkip(s2, cells[2], x2, [cells[3], x3] + rest, t3);
    CellThenSkip(s3, cells[3], x3, rest, t4);
    assert s3.(tree := t4, slot := NextSlot(s3.slot)) == st.(tree := t4);
  }

  /** A row of the location table: four cells, each followed by one skipped line, appends
      the record {Localização, Saída, Retornar, Responsável} to the section's list and
      brings the cycle back to its first position (document_importer.php:1319-1333). */
  lemma LocationRow(st: ParserState, list: PhpArray, cells: seq<string>,
                    x0: string, x1: string, x2: string, x3: string, rest: seq<string>)
    requires st.skip == 0 && st.inLocations && !st.inTable && st.slot == 0 && st.section in SectionNames
    requires Get(st.tree, Name(st.section)) == Some(Arr(list)) && IsList(list)
    requires |cells| == 4 && forall i :: 0 <= i < 4 ==> CellLine(cells[i])
    ensures Run(st, [cells[0], x0, cells[1], x1, cells[2], x2, cells[3], x3] + rest)
            == Run(st.(tree := Set(st.tree, Name(st.section), Arr(RowAfter(list, cells)))), rest)
  {
    var s1, s2, s3 := RowCells(st, list, cells, x0, x1, x2, x3, rest);
    RunFourPairs(st, cells[0], x0, cells[1], x1, cells[2], x2, cells[3], x3, rest, s1, s2, s3,
                 st.(tree := Set(st.tree, Name(st.section), Arr(RowAfter(list, cells)))));
  }

  /** Eight lines of the location table: four cells, each followed by the line skipped
      after it. */
  predicate RowBlock(row: seq<string>) {
    |row| == 8 && CellLine(row[0]) && CellLine(row[2]) && CellLine(row[4]) && CellLine(row[6])
  }

  /** The four cells of a row block. */
  function CellsOf(row: seq<string>): (r: seq<string>)
    requires RowBlock(row)
    ensures |r| == 4 && forall i :: 0 <= i < 4 ==> r[i] == row[2 * i]
  {
    [row[0], row[2], row[4], row[6]]
  }

  /** The row blocks one after another. */
  function Flatten(rows: seq<seq<string>>): seq<string> {
    if rows == [] then [] else rows[0] + Flatten(rows[1..])
  }

  /** The records the row blocks append to a list of n records: record j has index n + j
      and holds the cells of block j. */
  function NewRecords(n: nat, rows: seq<seq<string>>): (r: PhpArray)
    requires forall j :: 0 <= j < |rows| ==> RowBlock(rows[j])
    ensures |r| == |rows|
    ensures forall j :: 0 <= j < |rows| ==> r[j] == Entry(Index(n + j), Arr(RecordOf(CellsOf(rows[j]))))
  {
    seq(|rows|, j requires 0 <= j < |rows| && (forall i :: 0 <= i < |rows| ==> RowBlock(rows[i]))
                  => Entry(Index(n + j), Arr(RecordOf(CellsOf(rows[j])))))
  }

  /** The records of the first block, then those of the others. */
  lemma NewRecordsCons(list: PhpArray, rows: seq<seq<string>>)
    requires |rows| >= 1 && forall j :: 0 <= j < |rows| ==> RowBlock(rows[j])
    ensures RowAfter(list, CellsOf(rows[0])) + NewRecords(|list| + 1, rows[1..]) == list + NewRecords(|list|, rows)
  {
    var a := RowAfter(list, CellsOf(rows[0])) + NewRecords(|list| + 1, rows[1..]);
    var b := list + NewRecords(|list|, rows);
    assert |a| == |b|;
    forall i | 0 <= i < |a| ensures a[i] == b[i] {
      if i > |list| {
        assert rows[1..][i - |list| - 1] == rows[i - |list|];
      }
    }
  }

  /** Row blocks in location mode, at the first position of the cycle, append one record
      per block to the section's list, in order, and leave the cycle at its first position
      (document_importer.php:1319-1333). */
  lemma {:induction false} LocationRows(st: ParserState, list: PhpArray, rows: seq<seq<string>>, rest: seq<string>)
    requires st.skip == 0 && st.inLocations && !st.inTable && st.slot == 0 && st.section in SectionNames
    requires Get(st.tree, Name(st.section)) == Some(Arr(list)) && IsList(list)
    requires |rows| >= 1 && forall j :: 0 <= j < |rows| ==> RowBlock(rows[j])
    ensures Run(st, Flatten(rows) + rest)
            == Run(st.(tree := Set(st.tree, Name(st.section), Arr(list + NewRecords(|list|, rows)))), rest)
    decreases |rows|
  {
    var sec := Name(st.section);
    var after := RowAfter(list, CellsOf(rows[0]));
    var st1 := st.(tree := Set(st.tree, sec, Arr(after)));
    RowBlockSplit(rows, rest);
    RowOf(st, list, rows[0], Flatten(rows[1..]) + rest);
    if |rows| == 1 {
      LastRow(list, rows, rest);
    } else {
      ListAfterRow(list, rows[0]);
      LocationRows(st1, after, rows[1..], rest);
      RowsAfterFirst(st, list, rows);
    }
  }

  /** The section rewritten with the first record, and then with the records of the other
      blocks, holds the records of all blocks. */
  lemma RowsAfterFirst(st: ParserState, list: PhpArray, rows: seq<seq<string>>)
    requires |rows| >= 2 && forall j :: 0 <= j < |rows| ==> RowBlock(rows[j])
    ensures var sec := Name(st.section);
            var after := RowAfter(list, CellsOf(rows[0]));
            var st1 := st.(tree := Set(st.tree, sec, Arr(after)));
            st1.(tree := Set(st1.tree, sec, Arr(after + NewRecords(|after|, rows[1..]))))
            == st.(tree := Set(st.tree, sec, Arr(list + NewRecords(|list|, rows))))
  {
    var sec := Name(st.section);
    var after := RowAfter(list, CellsOf(rows[0]));
    NewRecordsCons(list, rows);
    assert |after| == |list| + 1;
    SetTwice(st.tree, sec, Arr(after), Arr(after + NewRecords(|after|, rows[1..])));
  }

  /** After the last block come only the remaining lines, and no further records. */
  lemma LastRow(list: PhpArray, rows: seq<seq<string>>, rest: seq<string>)
    requires |rows| == 1 && RowBlock(rows[0])
    ensures Flatten(rows[1..]) + rest == rest
    ensures RowAfter(list, CellsOf(rows[0])) == list + NewRecords(|list|, rows)
  {
    assert rows[1..] == [];
    assert NewRecords(|list|, rows) == [Entry(Index(|list|), Arr(RecordOf(CellsOf(rows[0]))))];
  }

  /** A list with one more record appended is again a list. */
  lemma ListAfterRow(list: PhpArray, row: seq<string>)
    requires IsList(list) && RowBlock(row)
    ensures IsList(RowAfter(list, CellsOf(row)))
  {
  }

  /** The lines of the first block, followed by the others. */
  lemma RowBlockSplit(rows: seq<seq<string>>, rest: seq<string>)
    requires |rows| >= 1
    ensures Flatten(rows) + rest == rows[0] + (Flatten(rows[1..]) + rest)
  {
  }

  /** One row block appends its record to the section's list. */
  lemma RowOf(st: ParserState, list: PhpArray, row: seq<string>, more: seq<string>)
    requires st.skip == 0 && st.inLocations && !st.inTable && st.slot == 0 && st.section in SectionNames
    requires Get(st.tree, Name(st.section)) == Some(Arr(list)) && IsList(list) && RowBlock(row)
    ensures Run(st, row + more)
            == Run(st.(tree := Set(st.tree, Name(st.section), Arr(RowAfter(list, CellsOf(row))))), more)
  {
    assert row == [row[0], row[1], row[2], row[3], row[4], row[5], row[6], row[7]];
    LocationRow(st, list, CellsOf(row), row[1], row[3], row[5], row[7], more);
  }

  /** A colon-free PARECER line in property mode opens the section `Parecer`, empties it and
      enters location mode (document_importer.php:1268-1272). */
  lemma LocationsOpen(st: ParserState, heading: string, more: seq<string>) returns (next: ParserState)
    requires st.skip == 0 && !st.inTable && !st.inLocations
    requires !HasColon(heading) && Head(heading) == LocationsHeading
    ensures next == st.(section := "Parecer", inLocations := true, tree := Set(st.tree, Name("Parecer"), Arr([])))
    ensures Run(st, [heading] + more) == Run(next, more)
  {
    PlainModeLine(st, heading);
    ModeHeadings();
    SectionNameFacts("Parecer");
    assert SectionAfterHead(st, heading) == "Parecer";
    next := st.(section := "Parecer", inLocations := true, tree := Set(st.tree, Name("Parecer"), Arr([])));
    RunCons(st, heading, more, next);
  }

  /** A whole location table: the PARECER heading, row blocks and the field that ends the
      table leave the records of the rows, in order, as the list under `Parecer`, store the
      closing field under `Outros`, make `Outros` current, end location mode and leave every
      other section as it was (document_importer.php:1268-1333). */
  lemma LocationTable(st: ParserState, heading: string, rows: seq<seq<string>>, last: string)
    requires Inv(st) && st.skip == 0 && !st.inTable && !st.inLocations && st.slot == 0
    requires !HasColon(heading) && Head(heading) == LocationsHeading
    requires |rows| >= 1 && forall j :: 0 <= j < |rows| ==> RowBlock(rows[j])
    requires Head(last) == LocationSentinel
    ensures Run(st, [heading] + Flatten(rows) + [last]).Ok?
    ensures var r := Run(st, [heading] + Flatten(rows) + [last]).value;
            && r == st.(section := OtherSection, tree := r.tree)
            && Get(r.tree, Name("Parecer")) == Some(Arr(NewRecords(0, rows)))
            && GetPath(r.tree, [Name(OtherSection), Name(LocationSentinel)]) == Some(Str(ColonValue(last)))
            && forall k :: k != Name("Parecer") && k != Name(OtherSection) ==> Get(r.tree, k) == Get(st.tree, k)
  {
    var filled := LocationsRows(st, heading, rows, last);
    LocationsClose(st, filled, rows, last);
  }

  /** The PARECER heading and the row blocks, from the state before the heading to the
      state before the closing field. */
  lemma LocationsRows(st: ParserState, heading: string, rows: seq<seq<string>>, last: string)
    returns (filled: ParserState)
    requires st.skip == 0 && !st.inTable && !st.inLocations && st.slot == 0
    requires !HasColon(heading) && Head(heading) == LocationsHeading
    requires |rows| >= 1 && forall j :: 0 <= j < |rows| ==> RowBlock(rows[j])
    ensures filled == st.(section := "Parecer", inLocations := true,
                          tree := Set(Set(st.tree, Name("Parecer"), Arr([])), Name("Parecer"), Arr(NewRecords(0, rows))))
    ensures Run(st, [heading] + Flatten(rows) + [last]) == Run(filled, [last])
  {
    var entered := LocationsOpen(st, heading, Flatten(rows) + [last]);
    assert [heading] + Flatten(rows) + [last] == [heading] + (Flatten(rows) + [last]);
    SectionNameFacts("Parecer");
    LocationRows(entered, [], rows, [last]);
    assert [] + NewRecords(0, rows) == NewRecords(0, rows);
    filled := entered.(tree := Set(entered.tree, Name("Parecer"), Arr(NewRecords(0, rows))));
  }

  /** The closing field after the rows, from the state the rows leave. */
  lemma LocationsClose(st: ParserState, filled: ParserState, rows: seq<seq<string>>, last: string)
    requires Inv(st) && st.skip == 0 && !st.inTable && !st.inLocations && forall j :: 0 <= j < |rows| ==> RowBlock(rows[j])
    requires filled == st.(section := "Parecer", inLocations := true,
                           tree := Set(Set(st.tree, Name("Parecer"), Arr([])), Name("Parecer"), Arr(NewRecords(0, rows))))
    requires Head(last) == LocationSentinel
    ensures Run(filled, [last]).Ok?
    ensures var r := Run(filled, [last]).value;
            && r == st.(section := OtherSection, tree := r.tree)
            && Get(r.tree, Name("Parecer")) == Some(Arr(NewRecords(0, rows)))
            && GetPath(r.tree, [Name(OtherSection), Name(LocationSentinel)]) == Some(Str(ColonValue(last)))
            && forall k :: k != Name("Parecer") && k != Name(OtherSection) ==> Get(r.tree, k) == Get(st.tree, k)
  {
    ShapeAfterSet(st.tree, "Parecer", []);
    ShapeAfterSet(Set(st.tree, Name("Parecer"), Arr([])), "Parecer", NewRecords(0, rows));
    LocationsEnd(filled, last);
    ClosedTree(st, filled, rows, Run(filled, [last]).value);
  }

  /** What the table leaves, compared with the state before its heading. */
  lemma ClosedTree(st: ParserState, filled: ParserState, rows: seq<seq<string>>, r: ParserState)
    requires !st.inLocations && forall j :: 0 <= j < |rows| ==> RowBlock(rows[j])
    requires filled == st.(section := "Parecer", inLocations := true,
                           tree := Set(Set(st.tree, Name("Parecer"), Arr([])), Name("Parecer"), Arr(NewRecords(0, rows))))
    requires r == filled.(section := OtherSection, inLocations := false, tree := r.tree)
    requires forall k :: k != Name(OtherSection) ==> Get(r.tree, k) == Get(filled.tree, k)
    ensures r == st.(section := OtherSection, tree := r.tree)
    ensures Get(r.tree, Name("Parecer")) == Some(Arr(NewRecords(0, rows)))
    ensures forall k :: k != Name("Parecer") && k != Name(OtherSection) ==> Get(r.tree, k) == Get(st.tree, k)
  {
    assert Name("Parecer") != Name(OtherSection);
  }

  /** The field that ends the table, as the last line of a run. */
  lemma LocationsEnd(st: ParserState, last: string)
    requires Inv(st) && st.skip == 0 && st.inLocations && Head(last) == LocationSentinel
    ensures Run(st, [last]).Ok?
    ensures var r := Run(st, [last]).value;
            && r == st.(section := OtherSection, inLocations := false, tree := r.tree)
            && GetPath(r.tree, [Name(OtherSection), Name(LocationSentinel)]) == Some(Str(ColonValue(last)))
            && forall k :: k != Name(OtherSection) ==> Get(r.tree, k) == Get(st.tree, k)
  {
    RunOne(st, [last]);
    LocationTableEnd(st, last);
  }
}
