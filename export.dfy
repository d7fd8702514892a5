/** The writing side of the importer: add_file (document_importer.php:1015-1043) turns the
    parsed properties into a header per group, and document_to_csv
    (document_importer.php:1150-1190) writes the header row and the data row. */
module Export {
  import opened Results
  import opened Text
  import opened PhpArrays
  import opened Literals
  import opened Privacy
  import opened PrivacyProperties
  import opened Compound
  import opened Csv
  import opened ColumnTypes

  /** The default `$max_properties` of document_to_csv. */
  const MaxProperties: nat := 20

  const AttachmentKey: Key := Name("attachment")
  const TitleKey: Key := Name("Título")
  const TechnicalSection: Key := Name("Dados técnicos")
  const SpecialDocument: string := "special_document"

  /** A value as PHP turns it into text, in a CSV field or a string: null is empty and an array
      is the word `Array`. */
  function CellText(v: Value): (t: string)
    ensures v.Str? ==> t == v.s
    ensures v.Null? ==> t == []
  {
    match v
    case Null => ""
    case Str(s) => s
    case Arr(_) => "Array"
  }

  /** The fields fputcsv writes for an array. */
  function CellTexts(a: PhpArray): (ts: seq<string>)
    ensures |ts| == |a| && forall i :: 0 <= i < |a| ==> ts[i] == CellText(a[i].value)
  {
    seq(|a|, i requires 0 <= i < |a| => CellText(a[i].value))
  }

  /** The CSV line str_putcsv makes of an array. */
  function MemberLine(v: Value): string
    requires v.Arr?
  {
    StrPutCsv(CellTexts(v.entries))
  }

  /** str_putcsv on each member of a group whose members are arrays; a member that is not an
      array makes fputcsv throw. */
  function MemberLines(g: PhpArray): (r: Result<seq<string>, Fault>)
    ensures r.Ok? <==> AllArrays(g)
    ensures r.Ok? ==> |r.value| == |g| && forall i :: 0 <= i < |g| ==> r.value[i] == MemberLine(g[i].value)
  {
    if AllArrays(g) then Ok(seq(|g|, i requires 0 <= i < |g| && AllArrays(g) => MemberLine(g[i].value)))
    else Err(NotAnArray)
  }

  /** The data cell of one property (document_importer.php:1165-1177): a group with array
      members is its members' CSV lines joined by the multi-value delimiter, another group is
      one CSV line, and anything else is written as it is. */
  function DataCell(v: Value, md: string): (r: Result<string, Fault>)
    ensures !IsCompound(v) ==> r == Ok(CellText(v))
    ensures IsCompound(v) && !HasArrayValues(v.entries) ==> r == Ok(StrPutCsv(CellTexts(v.entries)))
    ensures IsCompound(v) && HasArrayValues(v.entries) && AllArrays(v.entries)
            ==> r == Ok(Join(md, MemberLines(v.entries).value))
    ensures r.Err? <==> IsCompound(v) && HasArrayValues(v.entries) && !AllArrays(v.entries)
  {
    if IsCompound(v) then
      if HasArrayValues(v.entries) then
        var lines :- MemberLines(v.entries);
        Ok(Join(md, lines))
      else Ok(StrPutCsv(CellTexts(v.entries)))
    else Ok(CellText(v))
  }

  /** The data cell of each property. */
  function DataCells(ps: PhpArray, md: string): (cells: seq<Result<string, Fault>>)
    ensures |cells| == |ps| && forall i :: 0 <= i < |ps| ==> cells[i] == DataCell(ps[i].value, md)
  {
    seq(|ps|, i requires 0 <= i < |ps| => DataCell(ps[i].value, md))
  }

  /** Every cell can be made. */
  predicate AllOk(cells: seq<Result<string, Fault>>) {
    forall i :: 0 <= i < |cells| ==> cells[i].Ok?
  }

  /** The cells written in order; the first that cannot be made stops the row with its
      fault. */
  function Row(cells: seq<Result<string, Fault>>): (r: Result<seq<string>, Fault>)
    ensures r.Ok? <==> AllOk(cells)
    ensures r.Ok? ==> |r.value| == |cells|
    decreases |cells|
  {
    if cells == [] then Ok([])
    else
      var n := |cells| - 1;
      var front := cells[..n];
      assert AllOk(cells) <==> AllOk(front) && cells[n].Ok? by {
        assert forall i :: 0 <= i < n ==> front[i] == cells[i];
      }
      var prev :- Row(front);
      var cell :- cells[n];
      Ok(prev + [cell])
  }

  /** Each cell of a row that can be made is the cell in its place. */
  lemma {:induction false} RowAt(cells: seq<Result<string, Fault>>, i: nat)
    requires AllOk(cells) && i < |cells|
    ensures cells[i] == Ok(Row(cells).value[i])
    decreases |cells|
  {
    var n := |cells| - 1;
    var front := cells[..n];
    assert forall j :: 0 <= j < n ==> front[j] == cells[j];
    assert AllOk(front);
    if i < n {
      RowAt(front, i);
    }
  }

  /** One more cell that can be made is added to the row. */
  lemma RowStep(cells: seq<Result<string, Fault>>, i: nat, data: seq<string>)
    requires i < |cells| && Row(cells[..i]) == Ok(data) && cells[i].Ok?
    ensures Row(cells[..i + 1]) == Ok(data + [cells[i].value])
  {
    assert cells[..i + 1][..i] == cells[..i];
  }

  /** A cell that cannot be made stops the row with its fault. */
  lemma RowStops(cells: seq<Result<string, Fault>>, i: nat, n: nat)
    requires i < n <= |cells| && Row(cells[..i]).Ok? && cells[i].Err?
    ensures Row(cells[..n]) == Err(cells[i].error)
  {
    assert cells[..i + 1][..i] == cells[..i];
    RowFails(cells[..i + 1], cells[i + 1..n]);
    assert cells[..i + 1] + cells[i + 1..n] == cells[..n];
  }

  /** Once a cell cannot be made, nothing after it changes the outcome. */
  lemma {:induction false} RowFails(a: seq<Result<string, Fault>>, b: seq<Result<string, Fault>>)
    requires Row(a).Err?
    ensures Row(a + b) == Row(a)
    decreases |b|
  {
    if b == [] {
      assert a + b == a;
    } else {
      assert (a + b)[..|a + b| - 1] == a + b[..|b| - 1];
      RowFails(a, b[..|b| - 1]);
    }
  }

  function Min(a: nat, b: nat): nat {
    if a <= b then a else b
  }

  /** The file document_to_csv writes: the first twenty header values, then the first twenty
      data cells. */
  function CsvFile(properties: PhpArray, headers: PhpArray, md: string): (r: Result<string, Fault>)
    ensures r.Ok? <==> AllOk(DataCells(properties, md)[..Min(MaxProperties, |properties|)])
  {
    var row :- Row(DataCells(properties, md)[..Min(MaxProperties, |properties|)]);
    Ok(TwoLines(CellTexts(headers)[..Min(MaxProperties, |headers|)], row))
  }

  /** What document_to_csv does: return false when the file cannot be opened, or write it. */
  datatype Written = OpenFailed | Wrote(contents: string)

  /** A written file, or the fault that stopped the writing. */
  function Outcome(f: Result<string, Fault>): Result<Written, Fault> {
    match f
    case Ok(contents) => Ok(Wrote(contents))
    case Err(e) => Err(e)
  }

  /** document_to_csv. Whether fopen succeeds is a parameter; the multi-value delimiter is the
      importer's option. */
  method DocumentToCsv(properties: PhpArray, headers: PhpArray, md: string, fileOpens: bool)
    returns (r: Result<Written, Fault>)
    ensures !fileOpens ==> r == Ok(OpenFailed)
    ensures fileOpens ==> r == Outcome(CsvFile(properties, headers, md))
  {
    if !fileOpens {
      return Ok(OpenFailed);
    }
    var headerLine := CsvLine(CellTexts(headers)[..Min(MaxProperties, |headers|)]);
    ghost var cells := DataCells(properties, md);
    var data: seq<string> := [];
    var count := 0;
    var i := 0;
    while i < |properties|
      invariant 0 <= i <= |properties| && count == i && i <= MaxProperties
      invariant Row(cells[..i]) == Ok(data)
    {
      if count >= MaxProperties {
        break;
      }
      count := count + 1;
      var cell := DataCell(properties[i].value, md);
      if cell.Err? {
        RowStops(cells, i, Min(MaxProperties, |properties|));
        return Err(cell.error);
      }
      RowStep(cells, i, data);
      data := data + [cell.value];
      i := i + 1;
    }
    assert cells[..i] == cells[..Min(MaxProperties, |properties|)];
    r := Ok(Wrote(headerLine + CsvLine(data)));
  }

  /** The header of one group (document_importer.php:1028-1035): a compound value gets a
      compound header, shown unless the key is a private group; anything else is
      `key|type`, where the type is always `text`. */
  function HeaderCell(e: Entry): (r: Result<string, Fault>)
    ensures IsCompound(e.value) ==> r == CompoundHeader(MetadatumMapping, e.key, e.value.entries, !IsPrivateName(e.key))
    ensures !IsCompound(e.value) ==> r == Ok(KeyText(e.key) + "|text")
  {
    PlainTypeText(e.key);
    assert KeyText(e.key) + "|" + "text" == KeyText(e.key) + "|text";
    if IsCompound(e.value) then CompoundHeader(MetadatumMapping, e.key, e.value.entries, !IsPrivateName(e.key))
    else Ok(KeyText(e.key) + "|" + PlainType(e.key))
  }

  /** The header of each group. */
  function HeaderCells(ps: PhpArray): (cells: seq<Result<string, Fault>>)
    ensures |cells| == |ps| && forall i :: 0 <= i < |ps| ==> cells[i] == HeaderCell(ps[i])
  {
    seq(|ps|, i requires 0 <= i < |ps| => HeaderCell(ps[i]))
  }

  /** `$headers += [$key => $cell]` for each key and its cell in turn; the first cell that
      cannot be made stops the loop with its fault. */
  function Collect(keys: seq<Key>, cells: seq<Result<string, Fault>>): (r: Result<PhpArray, Fault>)
    requires |keys| == |cells|
    ensures r.Ok? <==> forall i :: 0 <= i < |cells| ==> cells[i].Ok?
    decreases |keys|
  {
    if keys == [] then Ok([])
    else
      var n := |keys| - 1;
      assert forall i :: 0 <= i < n ==> cells[..n][i] == cells[i];
      var prev :- Collect(keys[..n], cells[..n]);
      var h :- cells[n];
      Ok(UnionOne(prev, Entry(keys[n], Str(h))))
  }

  /** The headers of the groups, in order (document_importer.php:1028-1035). */
  function Headers(ps: PhpArray): Result<PhpArray, Fault> {
    Collect(Keys(ps), HeaderCells(ps))
  }

  /** One more cell that can be made adds its header. */
  lemma CollectStep(keys: seq<Key>, cells: seq<Result<string, Fault>>, i: nat, acc: PhpArray)
    requires |keys| == |cells| && i < |keys| && Collect(keys[..i], cells[..i]) == Ok(acc) && cells[i].Ok?
    ensures Collect(keys[..i + 1], cells[..i + 1]) == Ok(UnionOne(acc, Entry(keys[i], Str(cells[i].value))))
  {
    assert keys[..i + 1][..i] == keys[..i];
    assert cells[..i + 1][..i] == cells[..i];
  }

  /** A cell that cannot be made stops the loop with its fault. */
  lemma {:induction false} CollectStops(keys: seq<Key>, cells: seq<Result<string, Fault>>, i: nat)
    requires |keys| == |cells| && i < |keys| && Collect(keys[..i], cells[..i]).Ok? && cells[i].Err?
    ensures Collect(keys, cells) == Err(cells[i].error)
    decreases |keys|
  {
    var n := |keys| - 1;
    var prev := Collect(keys[..n], cells[..n]);
    if i < n {
      assert keys[..n][..i] == keys[..i] && cells[..n][..i] == cells[..i];
      CollectStops(keys[..n], cells[..n], i);
      assert prev.Err?;
    } else {
      assert prev.Ok? && cells[n].Err?;
    }
  }

  /** The header loop of add_file. */
  method BuildHeaders(processed: PhpArray) returns (r: Result<PhpArray, Fault>)
    ensures r == Headers(processed)
  {
    ghost var keys := Keys(processed);
    ghost var cells := HeaderCells(processed);
    var headers: PhpArray := [];
    var i := 0;
    while i < |processed|
      invariant 0 <= i <= |processed|
      invariant Collect(keys[..i], cells[..i]) == Ok(headers)
    {
      var h := HeaderCell(processed[i]);
      assert h == cells[i] && processed[i].key == keys[i];
      if h.Err? {
        CollectStops(keys, cells, i);
        return Err(h.error);
      }
      CollectStep(keys, cells, i, headers);
      headers := UnionOne(headers, Entry(processed[i].key, Str(h.value)));
      i := i + 1;
    }
    assert keys[..i] == keys && cells[..i] == cells;
    r := Ok(headers);
  }

  /** With distinct keys, there is one header per key, in the keys' order. */
  lemma {:induction false} CollectAlign(keys: seq<Key>, cells: seq<Result<string, Fault>>)
    requires |keys| == |cells| && Collect(keys, cells).Ok?
    requires forall i, j :: 0 <= i < j < |keys| ==> keys[i] != keys[j]
    ensures var h := Collect(keys, cells).value;
            && |h| == |keys|
            && forall i :: 0 <= i < |keys| ==> cells[i].Ok? && h[i] == Entry(keys[i], Str(cells[i].value))
    decreases |keys|
  {
    if keys != [] {
      var n := |keys| - 1;
      var ks := keys[..n];
      var cs := cells[..n];
      assert forall i :: 0 <= i < n ==> ks[i] == keys[i] && cs[i] == cells[i];
      CollectAlign(ks, cs);
      var prev := Collect(ks, cs).value;
      forall j | 0 <= j < |prev| ensures prev[j].key != keys[n] {
        assert prev[j].key == keys[j];
      }
      assert !HasKey(prev, keys[n]);
    }
  }

  /** There is one header per group, under the group's key and in the groups' order, each the
      header HeaderCell makes for its group. */
  lemma HeadersAlign(ps: PhpArray)
    requires UniqueKeys(ps) && Headers(ps).Ok?
    ensures var h := Headers(ps).value;
            && |h| == |ps|
            && forall i :: 0 <= i < |ps| ==> HeaderCell(ps[i]).Ok? && h[i] == Entry(ps[i].key, Str(HeaderCell(ps[i]).value))
  {
    CollectAlign(Keys(ps), HeaderCells(ps));
  }

  /** A header ends in `suffix`. */
  predicate EndsWith(s: string, suffix: string) {
    |suffix| <= |s| && s[|s| - |suffix|..] == suffix
  }

  /** A compound header is shown (`|display_yes`) exactly when its group is not a private
      group, and hidden (`|display_no`) exactly when it is. */
  lemma DisplayIffPublic(e: Entry)
    requires IsCompound(e.value) && HeaderCell(e).Ok?
    ensures EndsWith(HeaderCell(e).value, "|display_yes") <==> !IsPrivateName(e.key)
    ensures EndsWith(HeaderCell(e).value, "|display_no") <==> IsPrivateName(e.key)
  {
    var h := HeaderCell(e).value;
    var display := !IsPrivateName(e.key);
    var multi := HasArrayValues(e.value.entries);
    var head := h[..|h| - |Flags(multi, display)|];
    FlagsEnd(head, multi, display);
  }

  /** The last characters of the flags decide the display. */
  lemma FlagsEnd(head: string, multi: bool, display: bool)
    ensures EndsWith(head + Flags(multi, display), "|display_yes") <==> display
    ensures EndsWith(head + Flags(multi, display), "|display_no") <==> !display
  {
    var s := head + Flags(multi, display);
    var d := if display then "|display_yes" else "|display_no";
    var mark := if multi then "|multiple" else "";
    assert Flags(multi, display) == mark + d;
    assert s == (head + mark) + d;
    assert s[|s| - |d|..] == d;
    assert s[|s| - 1] == d[|d| - 1];
    assert "|display_yes"[11] == 's' && "|display_no"[10] == 'o';
  }

  /** `$properties["Dados técnicos"]["Título"]`: null when the section or the field is
      missing; a section that is a string cannot be read by a string key. */
  function TitleOf(props: PhpArray): (r: Result<Value, Fault>)
    ensures r.Err? <==> Get(props, TechnicalSection).Some? && Get(props, TechnicalSection).value.Str?
  {
    match Get(props, TechnicalSection)
    case None => Ok(Null)
    case Some(Null) => Ok(Null)
    case Some(Str(_)) => Err(StringOffset)
    case Some(Arr(g)) => Ok(Get(g, TitleKey).GetOr(Null))
  }

  /** What add_file hands to document_to_csv: the split properties with the title and the
      document, and the headers. */
  datatype Rows = Rows(properties: PhpArray, headers: PhpArray)

  /** The properties add_file writes before the document column
      (document_importer.php:1020-1026): the attachment is taken out, the properties are
      split by privacy and the title is copied to the top. */
  function TitledProperties(props: PhpArray): Result<PhpArray, Fault> {
    var properties := Unset(props, AttachmentKey);
    var processed :- SplitPrivate(MetadatumMapping, properties);
    var title :- TitleOf(properties);
    Ok(Set(processed, TitleKey, title))
  }

  /** add_file (document_importer.php:1015-1043) after the document is read: one header is
      made per group of the titled properties, and the document column closes both. */
  function AddFileRows(props: PhpArray): Result<Rows, Fault> {
    var titled :- TitledProperties(props);
    var headers :- Headers(titled);
    var attachment := Get(props, AttachmentKey).GetOr(Null);
    Ok(Rows(Set(titled, Name(SpecialDocument), Str("file:" + CellText(attachment))),
            UnionOne(headers, Entry(Index(0), Str(SpecialDocument)))))
  }

  /** add_file once the file is read; the CSV is written when the file opens. */
  method AddFile(props: PhpArray, md: string, fileOpens: bool) returns (r: Result<Written, Fault>)
    ensures AddFileRows(props).Err? ==> r == Err(AddFileRows(props).error)
    ensures AddFileRows(props).Ok? && !fileOpens ==> r == Ok(OpenFailed)
    ensures AddFileRows(props).Ok? && fileOpens ==>
              var rows := AddFileRows(props).value;
              r == Outcome(CsvFile(rows.properties, rows.headers, md))
  {
    var attachment := Get(props, AttachmentKey).GetOr(Null);
    var properties := Unset(props, AttachmentKey);
    var processed := SplitPropertiesPrivate(MetadatumMapping, properties);
    if processed.Err? {
      return Err(processed.error);
    }
    var title := TitleOf(properties);
    if title.Err? {
      return Err(title.error);
    }
    var titled := Set(processed.value, TitleKey, title.value);
    var headers := BuildHeaders(titled);
    if headers.Err? {
      return Err(headers.error);
    }
    var allHeaders := UnionOne(headers.value, Entry(Index(0), Str(SpecialDocument)));
    var withDocument := Set(titled, Name(SpecialDocument), Str("file:" + CellText(attachment)));
    r := DocumentToCsv(withDocument, allHeaders, md, fileOpens);
  }

  /** Every key is a string. */
  predicate NamedKeys(a: PhpArray) {
    forall i :: 0 <= i < |a| ==> a[i].key.Name?
  }

  /** Splitting properties with string keys other than the document column gives distinct
      string keys, none of them the document column. */
  lemma ProcessedKeys(m: Mapping, properties: PhpArray)
    requires SplitReady(m, properties)
    requires forall i :: 0 <= i < |properties| ==> properties[i].key.Name? && properties[i].key != Name(SpecialDocument)
    ensures SplitPrivate(m, properties).Ok?
    ensures var out := SplitPrivate(m, properties).value;
            UniqueKeys(out) && forall k :: HasKey(out, k) ==> k.Name? && k != Name(SpecialDocument)
  {
    SplitChunks(m, properties);
    var out := SplitPrivate(m, properties).value;
    forall k | HasKey(out, k) ensures k.Name? && k != Name(SpecialDocument) {
      TouchedAllMember(m, properties, k);
      var i :| 0 <= i < |properties| && k in Touched(m, properties[i]);
      if k != properties[i].key {
        PrivateKeyNotDocument(properties[i].key.name);
      }
    }
  }

  /** The titled properties of a document's properties have distinct string keys, none of
      them the document column. */
  lemma TitledKeys(props: PhpArray)
    requires SplitReady(MetadatumMapping, Unset(props, AttachmentKey))
    requires NamedKeys(props) && !HasKey(props, Name(SpecialDocument))
    requires TitledProperties(props).Ok?
    ensures var titled := TitledProperties(props).value;
            NamedKeys(titled) && !HasKey(titled, Name(SpecialDocument)) && UniqueKeys(titled)
  {
    var properties := Unset(props, AttachmentKey);
    forall i | 0 <= i < |properties| ensures properties[i].key.Name? && properties[i].key != Name(SpecialDocument) {
      var j :| 0 <= j < |props| && properties[i] == props[j];
    }
    ProcessedKeys(MetadatumMapping, properties);
    var titled := TitledProperties(props).value;
    forall i | 0 <= i < |titled| ensures titled[i].key.Name? {
      assert HasKey(titled, titled[i].key);
    }
  }

  /** The document column: `file:` and the attachment (document_importer.php:1036-1037). */
  function DocumentEntry(props: PhpArray): Entry {
    Entry(Name(SpecialDocument), Str("file:" + CellText(Get(props, AttachmentKey).GetOr(Null))))
  }

  /** One header per property, in the same order, each the header of its group, and the last
      column the given document and its `special_document` header. */
  predicate Aligned(rows: Rows, document: Entry) {
    && |rows.headers| == |rows.properties| >= 1
    && (forall i :: 0 <= i < |rows.properties| - 1 ==>
          HeaderCell(rows.properties[i]).Ok? &&
          rows.headers[i] == Entry(rows.properties[i].key, Str(HeaderCell(rows.properties[i]).value)))
    && rows.properties[|rows.properties| - 1] == document
    && rows.headers[|rows.headers| - 1] == Entry(Index(0), Str(SpecialDocument))
  }

  /** The rows add_file builds line up: for properties read from a document (string keys, no
      document column among them, and the private groups already apart), there is one header
      per property, in the same order, each the header of its group, and the last column is
      the document, `file:` and the attachment. */
  lemma RowsAlign(props: PhpArray)
    requires SplitReady(MetadatumMapping, Unset(props, AttachmentKey))
    requires NamedKeys(props) && !HasKey(props, Name(SpecialDocument))
    requires AddFileRows(props).Ok?
    ensures Aligned(AddFileRows(props).value, DocumentEntry(props))
  {
    TitledKeys(props);
    var titled := TitledProperties(props).value;
    RowsAppend(props);
    AlignedAppend(titled, DocumentEntry(props));
  }

  /** Headers aligned with their properties stay aligned once the document closes both. */
  lemma AlignedAppend(titled: PhpArray, document: Entry)
    requires UniqueKeys(titled) && Headers(titled).Ok?
    ensures Aligned(Rows(titled + [document], Headers(titled).value + [Entry(Index(0), Str(SpecialDocument))]), document)
  {
    HeadersAlign(titled);
    var rows := Rows(titled + [document], Headers(titled).value + [Entry(Index(0), Str(SpecialDocument))]);
    forall i | 0 <= i < |rows.properties| - 1
      ensures HeaderCell(rows.properties[i]).Ok?
      ensures rows.headers[i] == Entry(rows.properties[i].key, Str(HeaderCell(rows.properties[i]).value))
    {
      assert rows.properties[i] == titled[i];
    }
  }

  /** With keys as in RowsAlign, both the document and its header are appended. */
  lemma RowsAppend(props: PhpArray)
    requires AddFileRows(props).Ok? && TitledProperties(props).Ok? && Headers(TitledProperties(props).value).Ok?
    requires var titled := TitledProperties(props).value;
             NamedKeys(titled) && !HasKey(titled, Name(SpecialDocument)) && UniqueKeys(titled)
    ensures var titled := TitledProperties(props).value;
            AddFileRows(props).value == Rows(titled + [DocumentEntry(props)], Headers(titled).value + [Entry(Index(0), Str(SpecialDocument))])
  {
    var titled := TitledProperties(props).value;
    HeadersAlign(titled);
    var headers := Headers(titled).value;
    forall j | 0 <= j < |headers| ensures headers[j].key != Index(0) {
      assert headers[j].key == titled[j].key;
    }
  }

  /** A private group is never the document column. */
  lemma PrivateKeyNotDocument(s: string)
    ensures PrivateKey(s) != Name(SpecialDocument)
  {
    var k := PrivateKey(s);
    assert k.name[|k.name| - 1] == 'O';
  }

  /** The split keeps keys unique. */
  lemma SplitUnique(properties: PhpArray)
    requires SplitReady(MetadatumMapping, properties)
    ensures SplitPrivate(MetadatumMapping, properties).Ok?
    ensures UniqueKeys(SplitPrivate(MetadatumMapping, properties).value)
  {
    SplitChunks(MetadatumMapping, properties);
  }

  /** Reading the written file back gives the header values and the data cells, at most
      twenty of each, each cell the one its property is written as. */
  lemma CsvReadBack(properties: PhpArray, headers: PhpArray, md: string)
    requires CsvFile(properties, headers, md).Ok?
    requires |properties| >= 1 && |headers| >= 1
    ensures var f := CsvFile(properties, headers, md).value;
            var n := Min(MaxProperties, |properties|);
            var (first, rest) := ReadRecord(f);
            var (second, end) := ReadRecord(rest);
            && first == CellTexts(headers)[..Min(MaxProperties, |headers|)]
            && |second| == n && end == []
            && forall i :: 0 <= i < n ==> DataCell(properties[i].value, md) == Ok(second[i])
  {
    var n := Min(MaxProperties, |properties|);
    var cells := DataCells(properties, md)[..n];
    var row := Row(cells).value;
    TwoLinesRoundTrip(CellTexts(headers)[..Min(MaxProperties, |headers|)], row);
    forall i | 0 <= i < n ensures DataCell(properties[i].value, md) == Ok(row[i]) {
      RowAt(cells, i);
    }
  }
}
