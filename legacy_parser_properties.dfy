/** What the legacy parser of ImportTest/index.php promises, line by line. */
module LegacyParserProperties {
  import opened Results
  import opened Text
  import opened PhpArrays
  import opened Literals
  import opened Lines
  import opened LocationRecords
  import opened LegacyParser
  import DocumentParserProperties

  /** The state a line is interpreted in: a heading first makes its section current. */
  function LegacyCurrent(st: LegacyState, line: string): (cur: LegacyState)
    ensures Head(line) in SectionHeaders ==> cur == st.(section := Some(Normalise(Head(line))))
    ensures Head(line) !in SectionHeaders ==> cur == st
  {
    if Head(line) in SectionHeaders then st.(section := Some(Normalise(Head(line)))) else st
  }

  /** The skip check comes first: while lines are to be skipped a line only counts down,
      even when it is a heading (ImportTest/index.php:80-83). */
  lemma LegacySkipLine(st: LegacyState, line: string)
    requires st.skip > 0
    ensures LegacyStep(st, line) == Ok(st.(skip := st.skip - 1))
  {
  }

  /** A skip counter of n passes over the next n lines, whatever they hold, and only
      counts down. */
  lemma {:induction false} LegacySkipped(st: LegacyState, xs: seq<string>)
    requires st.skip >= |xs|
    ensures LegacyRun(st, xs) == Ok(st.(skip := st.skip - |xs|))
    decreases |xs|
  {
    if xs != [] {
      LegacySkipped(st, xs[..|xs| - 1]);
    }
  }

  /** A heading makes its normalised section current, in every mode, unless it is the
      sentinel that unsets it (which no heading is) (ImportTest/index.php:85-87). */
  lemma LegacySectionHeading(st: LegacyState, line: string)
    requires st.skip == 0 && Head(line) in SectionHeaders && LegacyStep(st, line).Ok?
    ensures LegacyStep(st, line).value.section == Some(Normalise(Head(line)))
  {
    var head := Head(line);
    var cur := st.(section := Some(Normalise(head)));
    DocumentParserProperties.HeadingIsNoLabel(head);
    if !cur.inTable && !cur.inLocations && HasColon(line) {
      var w := WritePath(cur.tree, [ArrayKey(cur.section.value), ArrayKey(head)], Str(ColonValue(line)));
      assert LegacyStep(st, line) == Ok(cur.(tree := w.value));
    } else if !cur.inTable && !cur.inLocations && head == TableHeading {
      assert LegacyStep(st, line) == Ok(cur.(inTable := true));
    } else if !cur.inTable && !cur.inLocations && head == LocationsHeading {
      assert LegacyStep(st, line) == Ok(cur.(inLocations := true, tree := Set(cur.tree, SectionKey(cur.section), Arr([]))));
    } else if cur.inTable && LegacyTableLine(cur, line, head).Some? {
      assert LegacyStep(st, line) == LegacyTableLine(cur, line, head).value;
      LegacyTableLineModes(cur, line, head);
    } else if cur.inLocations {
      assert LegacyStep(st, line) == LegacyLocationLine(cur, line, head);
      LegacyLocationLineModes(cur, line, head);
    } else {
      assert LegacyStep(st, line) == Ok(cur);
    }
  }

  /** In property mode, with no section current, a "field: value" line is stored at the top
      level of the tree under the field, whatever stood there before; nothing else changes
      (ImportTest/index.php:93-95). */
  lemma LegacyUnsetSectionField(st: LegacyState, line: string)
    requires st.skip == 0 && !st.inTable && !st.inLocations && st.section.None?
    requires HasColon(line) && Head(line) !in SectionHeaders
    ensures LegacyStep(st, line) == Ok(st.(tree := Set(st.tree, ArrayKey(Head(line)), Str(ColonValue(line)))))
    ensures Get(LegacyStep(st, line).value.tree, ArrayKey(Head(line))) == Some(Str(ColonValue(line)))
  {
  }

  /** In property mode, with a section current, a "field: value" line is stored under that
      section, and only a string standing in the way makes it fail; no mode changes
      (ImportTest/index.php:89-92). */
  lemma LegacySectionField(st: LegacyState, line: string)
    requires st.skip == 0 && !st.inTable && !st.inLocations && HasColon(line)
    requires LegacyCurrent(st, line).section.Some?
    ensures var sec := ArrayKey(LegacyCurrent(st, line).section.value);
            var r := LegacyStep(st, line);
            && (r.Err? <==> PathBlocked(st.tree, [sec, ArrayKey(Head(line))]))
            && (r.Ok? ==> (r.value == LegacyCurrent(st, line).(tree := r.value.tree)
                           && GetPath(r.value.tree, [sec, ArrayKey(Head(line))]) == Some(Str(ColonValue(line)))))
  {
  }

  /** In property mode only a colon-free DIMENSÕES line enters table mode and only a
      colon-free PARECER line enters location mode, which empties the current section
      (ImportTest/index.php:99-109). */
  lemma LegacyModeEntry(st: LegacyState, line: string)
    requires st.skip == 0 && !st.inTable && !st.inLocations && LegacyStep(st, line).Ok?
    ensures var r := LegacyStep(st, line).value;
            && (r.inTable <==> !HasColon(line) && Head(line) == TableHeading)
            && (r.inLocations <==> !HasColon(line) && Head(line) == LocationsHeading)
            && (r.inLocations ==> Get(r.tree, Name("Parecer")) == Some(Arr([])))
  {
    var head := Head(line);
    if HasColon(line) {
      ColonStaysOut(st, line);
    } else if head == TableHeading {
      TableHeadingEnters(st, line);
    } else if head == LocationsHeading {
      LocationsHeadingEnters(st, line);
    } else {
      OtherStaysOut(st, line);
    }
  }

  lemma ColonStaysOut(st: LegacyState, line: string)
    requires st.skip == 0 && !st.inTable && !st.inLocations && LegacyStep(st, line).Ok? && HasColon(line)
    ensures !LegacyStep(st, line).value.inTable && !LegacyStep(st, line).value.inLocations
  {
    var cur := LegacyCurrent(st, line);
    var head := Head(line);
    var r := LegacyStep(st, line).value;
    if cur.section.Some? {
      var w := WritePath(cur.tree, [ArrayKey(cur.section.value), ArrayKey(head)], Str(ColonValue(line)));
      assert w.Ok? && r == cur.(tree := w.value);
    } else {
      assert r == cur.(tree := Set(cur.tree, ArrayKey(head), Str(ColonValue(line))));
    }
  }

  lemma TableHeadingEnters(st: LegacyState, line: string)
    requires st.skip == 0 && !st.inTable && !st.inLocations && !HasColon(line) && Head(line) == TableHeading
    ensures LegacyStep(st, line).Ok? && LegacyStep(st, line).value.inTable && !LegacyStep(st, line).value.inLocations
  {
    ModeHeadings();
  }

  lemma LocationsHeadingEnters(st: LegacyState, line: string)
    requires st.skip == 0 && !st.inTable && !st.inLocations && !HasColon(line) && Head(line) == LocationsHeading
    ensures LegacyStep(st, line).Ok?
    ensures var r := LegacyStep(st, line).value;
            !r.inTable && r.inLocations && Get(r.tree, Name("Parecer")) == Some(Arr([]))
  {
    ModeHeadings();
    NameKey("Parecer");
  }

  lemma OtherStaysOut(st: LegacyState, line: string)
    requires st.skip == 0 && !st.inTable && !st.inLocations && !HasColon(line)
    requires Head(line) != TableHeading && Head(line) != LocationsHeading
    ensures LegacyStep(st, line).Ok? && !LegacyStep(st, line).value.inTable && !LegacyStep(st, line).value.inLocations
  {
  }

  /** In table mode a line goes to the table block, and to nothing else while that block
      consumes it. */
  lemma LegacyTableStep(st: LegacyState, line: string)
    requires st.skip == 0 && st.inTable && !st.inLocations
    ensures var cur := LegacyCurrent(st, line);
            LegacyStep(st, line) == if LegacyTableLine(cur, line, Head(line)).Some?
                                     then LegacyTableLine(cur, line, Head(line)).value else Ok(cur)
  {
  }

  /** FORMA DE AQUISIÇÃO ends table mode (ImportTest/index.php:112-115). */
  lemma LegacyTableEnd(st: LegacyState, line: string)
    requires st.skip == 0 && st.inTable && !st.inLocations && Head(line) == TableEnd
    ensures LegacyStep(st, line) == Ok(st.(section := Some("Forma de aquisição"), inTable := false))
  {
    LegacyTableStep(st, line);
    var cur := st.(section := Some("Forma de aquisição"));
    assert LegacyTableLine(cur, line, TableEnd) == Some(Ok(cur.(inTable := false)));
  }

  /** A dimension name becomes the current dimension and the three caption cells after it
      are skipped (ImportTest/index.php:121-125). */
  lemma LegacyDimensionLine(st: LegacyState, line: string)
    requires st.skip == 0 && st.inTable && !st.inLocations && Head(line) in DimensionNames
    ensures LegacyStep(st, line) == Ok(st.(dimension := Some(Head(line)), skip := 3))
  {
    LegacyTableStep(st, line);
    DocumentParserProperties.LabelIsNoHeading(Head(line));
    DocumentParserProperties.DimensionIsNoCaption(Head(line));
    assert LegacyTableLine(st, line, Head(line)) == Some(Ok(st.(dimension := Some(Head(line)), skip := 3)));
  }

  /** A line the table block takes as a value of the current dimension. */
  predicate LegacyValueLine(v: string) {
    Head(v) !in SectionHeaders && Head(v) !in IgnoreTableHeaders && Head(v) !in DimensionNames
  }

  /** The first value line of a dimension is stored, trimmed, as the flat field
      "<dimension> menor" of the section, and the next line is skipped
      (ImportTest/index.php:131-135). */
  lemma LegacyMenorLine(st: LegacyState, v: string, d: string)
    requires st.skip == 0 && st.inTable && !st.inLocations && st.dimension == Some(d) && LegacyValueLine(v)
    requires !IsSetPath(st.tree, [SectionKey(st.section), FlatKey(d, "menor")])
    requires LegacyStep(st, v).Ok?
    ensures var r := LegacyStep(st, v).value;
            && r == st.(tree := r.tree, skip := 1)
            && GetPath(r.tree, [SectionKey(st.section), FlatKey(d, "menor")]) == Some(Str(Trim(v)))
  {
    LegacyTableStep(st, v);
    assert Head(v) != TableEnd by {
      assert TableEnd in SectionHeaders;
    }
  }

  /** The second value line is stored as "<dimension> maior", and no line is skipped after
      it (ImportTest/index.php:137-140). */
  lemma LegacyMaiorLine(st: LegacyState, v: string, d: string)
    requires st.skip == 0 && st.inTable && !st.inLocations && st.dimension == Some(d) && LegacyValueLine(v)
    requires IsSetPath(st.tree, [SectionKey(st.section), FlatKey(d, "menor")])
    requires !IsSetPath(st.tree, [SectionKey(st.section), FlatKey(d, "maior")])
    requires LegacyStep(st, v).Ok?
    ensures var r := LegacyStep(st, v).value;
            && r == st.(tree := r.tree)
            && GetPath(r.tree, [SectionKey(st.section), FlatKey(d, "maior")]) == Some(Str(Trim(v)))
  {
    LegacyTableStep(st, v);
    assert Head(v) != TableEnd by {
      assert TableEnd in SectionHeaders;
    }
  }

  /** Once both values of the dimension are set, further value lines change nothing
      (ImportTest/index.php:131-141). */
  lemma LegacyValuesFull(st: LegacyState, v: string, d: string)
    requires st.skip == 0 && st.inTable && !st.inLocations && st.dimension == Some(d) && LegacyValueLine(v)
    requires IsSetPath(st.tree, [SectionKey(st.section), FlatKey(d, "menor")])
    requires IsSetPath(st.tree, [SectionKey(st.section), FlatKey(d, "maior")])
    ensures LegacyStep(st, v) == Ok(st)
  {
    LegacyTableStep(st, v);
    assert Head(v) != TableEnd by {
      assert TableEnd in SectionHeaders;
    }
    assert LegacyTableLine(st, v, Head(v)).None?;
  }

  /** The field that ends the location table unsets the section, is stored at the top level
      of the tree, and ends location mode (ImportTest/index.php:144-149). */
  lemma LegacySentinel(st: LegacyState, line: string)
    requires st.skip == 0 && st.inLocations && !st.inTable && Head(line) == LocationSentinel
    ensures LegacyStep(st, line)
            == Ok(st.(section := None, inLocations := false,
                      tree := Set(st.tree, ArrayKey(LocationSentinel), Str(ColonValue(line)))))
  {
    assert LocationSentinel !in SectionHeaders;
  }

  /** Location captions, and an empty first cell, are dropped (ImportTest/index.php:151-153). */
  lemma LegacyLocationCaption(st: LegacyState, line: string)
    requires st.skip == 0 && st.inLocations && !st.inTable && Head(line) !in SectionHeaders
    requires Head(line) in LocationLabels || (st.slot == 0 && Head(line) == "")
    ensures LegacyStep(st, line) == Ok(st)
  {
    SentinelNotCaption();
    assert LegacyCurrent(st, line) == st;
    assert LegacyStep(st, line) == LegacyLocationLine(st, line, Head(line));
  }

  /** Any other line of the location table is written at the current position of the cycle
      Localização, Saída, Retornar, Responsável; the position advances, wrapping from the
      fourth to the first, and the next line is skipped (ImportTest/index.php:155-170). */
  lemma LegacyLocationCell(st: LegacyState, line: string)
    requires st.skip == 0 && st.inLocations && !st.inTable && Head(line) !in SectionHeaders
    requires Head(line) != LocationSentinel && Head(line) !in LocationLabels && !(st.slot == 0 && Head(line) == "")
    ensures var w := LocationWrite(st.tree, SectionKey(st.section), st.slot, Head(line));
            && (LegacyStep(st, line).Err? <==> w.Err?)
            && (w.Ok? ==> LegacyStep(st, line).value
                          == st.(tree := w.value, skip := 1, slot := (st.slot + 1) % 4))
  {
  }
}
