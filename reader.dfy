/** The reading side of the importer (document_importer.php:151-194, 241-340): the header row
    is decoded into plain and compound columns, the special columns are told apart, and a row is
    checked against the headers and cut into compound values. */
module Reader {
  import opened Results
  import opened Text
  import opened PhpArrays
  import opened Csv

  predicate IsParen(c: char) {
    c == '(' || c == ')'
  }

  predicate ParenFree(s: string) {
    forall i :: 0 <= i < |s| ==> !IsParen(s[i])
  }

  /** Pieces that are non-empty and free of parentheses. */
  predicate Settled(ps: seq<string>) {
    forall i :: 0 <= i < |ps| ==> ps[i] != [] && ParenFree(ps[i])
  }

  /** The left-to-right scan of preg_split: `cur` is the piece being read, `acc` the pieces
      found; a run of parentheses ends a piece, and an empty piece is dropped. */
  function Pieces(s: string, cur: string, acc: seq<string>): (r: seq<string>)
    requires ParenFree(cur) && Settled(acc)
    ensures |r| >= |acc| && r[..|acc|] == acc
    ensures Settled(r)
    decreases |s|
  {
    if s == [] then (if cur == [] then acc else acc + [cur])
    else if IsParen(s[0]) then Pieces(s[1..], [], if cur == [] then acc else acc + [cur])
    else Pieces(s[1..], cur + [s[0]], acc)
  }

  /** preg_split("/[()]+/", $s, -1, PREG_SPLIT_NO_EMPTY): the non-empty pieces between runs of
      parentheses. */
  function ParenPieces(s: string): (r: seq<string>)
    ensures Settled(r)
  {
    Pieces(s, [], [])
  }

  /** A parenthesis-free stretch is added to the piece being read. */
  lemma {:induction false} PiecesFree(s: string, t: string, cur: string, acc: seq<string>)
    requires ParenFree(s) && ParenFree(cur) && Settled(acc)
    ensures ParenFree(cur + s)
    ensures Pieces(s + t, cur, acc) == Pieces(t, cur + s, acc)
    decreases |s|
  {
    if s == [] {
      assert s + t == t && cur + s == cur;
    } else {
      assert (s + t)[1..] == s[1..] + t;
      assert cur + s == (cur + [s[0]]) + s[1..];
      assert ParenFree(s[1..]) && !IsParen(s[0]);
      PiecesFree(s[1..], t, cur + [s[0]], acc);
    }
  }

  /** A parenthesis closes the piece being read. */
  lemma ParenStep(t: string, cur: string, acc: seq<string>)
    requires t != [] && IsParen(t[0]) && cur != [] && ParenFree(cur)
    requires Settled(acc)
    ensures Pieces(t, cur, acc) == Pieces(t[1..], [], acc + [cur])
  {
  }

  /** A non-empty parenthesis-free piece read in full, then a parenthesis. */
  lemma PieceThenParen(s: string, t: string, acc: seq<string>)
    requires s != [] && ParenFree(s) && t != [] && IsParen(t[0])
    requires Settled(acc)
    ensures Pieces(s + t, [], acc) == Pieces(t[1..], [], acc + [s])
  {
    PiecesFree(s, t, [], acc);
    assert [] + s == s;
    ParenStep(t, s, acc);
  }

  /** `b)c` after the pieces `acc` adds `b` and `c`. */
  lemma LastTwoPieces(b: string, c: string, acc: seq<string>)
    requires b != [] && c != [] && ParenFree(b) && ParenFree(c)
    requires Settled(acc)
    ensures Pieces(b + ")" + c, [], acc) == acc + [b, c]
  {
    var t := ")" + c;
    assert b + ")" + c == b + t && t[1..] == c;
    PieceThenParen(b, t, acc);
    LastPiece(c, acc + [b]);
    assert acc + [b] + [c] == acc + [b, c];
  }

  /** A last non-empty parenthesis-free piece is added as it is. */
  lemma LastPiece(c: string, acc: seq<string>)
    requires c != [] && ParenFree(c)
    requires Settled(acc)
    ensures Pieces(c, [], acc) == acc + [c]
  {
    PiecesFree(c, [], [], acc);
    assert c + [] == c && [] + c == c;
  }

  /** `a(b)c` splits into `a`, `b` and `c` when the three are non-empty and free of
      parentheses. */
  lemma ThreePieces(a: string, b: string, c: string)
    requires a != [] && b != [] && c != [] && ParenFree(a) && ParenFree(b) && ParenFree(c)
    ensures ParenPieces(a + "(" + b + ")" + c) == [a, b, c]
  {
    var t := "(" + b + ")" + c;
    assert a + "(" + b + ")" + c == a + t && t[1..] == b + ")" + c;
    PieceThenParen(a, t, []);
    LastTwoPieces(b, c, [a]);
    assert [] + [a] == [a] && [a] + [b, c] == [a, b, c];
  }

  /** preg_match('/.*\|compound\(.*\)/', $h): `|compound(` occurs, and a `)` follows it on the
      same line (`.` does not match a line feed). */
  predicate IsCompoundHeader(h: string) {
    exists i: nat, j: nat :: OccursAt(h, "|compound(", i) && i + 10 <= j < |h| && h[j] == ')'
                             && forall p :: i + 10 <= p < j ==> h[p] != '\n'
  }

  /** A header as the importer reads it: a plain column, or a compound column with the name
      it is matched by and its raw child list. */
  datatype Column = Plain(header: string) | CompoundColumn(header: string, children: string)

  /** The header decoding of process_item (document_importer.php:245-253): the name of a
      compound header is its first piece followed by its third, if any; its children are the
      second piece. A missing piece reads as PHP's null, the empty string. */
  function DecodeHeader(h: string): (c: Column)
    ensures !IsCompoundHeader(h) ==> c == Plain(h)
  {
    if IsCompoundHeader(h) then
      var d := ParenPieces(h);
      CompoundColumn((if |d| > 0 then d[0] else "") + (if |d| > 2 then d[2] else ""),
                     if |d| > 1 then d[1] else "")
    else Plain(h)
  }

  /** A header written as `name|compound(children)flags` decodes to `name|compoundflags` and
      `children` when its parts are free of parentheses and the child list is not empty. */
  lemma DecodeCompound(name: string, children: string, flags: string)
    requires ParenFree(name) && ParenFree(children) && ParenFree(flags)
    requires children != [] && flags != [] && '\n' !in children
    ensures DecodeHeader(name + "|compound(" + children + ")" + flags)
            == CompoundColumn(name + "|compound" + flags, children)
  {
    var h := name + "|compound(" + children + ")" + flags;
    var a := name + "|compound";
    assert h == a + "(" + children + ")" + flags;
    assert ParenFree(a) by {
      assert ParenFree("|compound");
      forall i | 0 <= i < |a| ensures !IsParen(a[i]) {
        if i >= |name| {
          assert a[i] == "|compound"[i - |name|];
        }
      }
    }
    ThreePieces(a, children, flags);
    var i := |name|;
    var j := |name| + 10 + |children|;
    assert h[i..i + 10] == "|compound(";
    assert h[j] == ')';
    forall p | i + 10 <= p < j ensures h[p] != '\n' {
      assert h[p] == children[p - i - 10];
    }
    assert OccursAt(h, "|compound(", i);
  }

  /** The names the columns are matched by. */
  function HeaderNames(raw: seq<string>): (names: seq<string>)
    ensures |names| == |raw|
    ensures forall i :: 0 <= i < |raw| ==> names[i] == DecodeHeader(raw[i]).header
  {
    seq(|raw|, i requires 0 <= i < |raw| => DecodeHeader(raw[i]).header)
  }

  /** `$compoundHeaders`: the child list of each compound column under its name; a later
      column of the same name replaces an earlier one's list. */
  function CompoundHeaders(raw: seq<string>): (r: PhpArray)
    ensures UniqueKeys(r)
    decreases |raw|
  {
    if raw == [] then []
    else
      var prev := CompoundHeaders(raw[..|raw| - 1]);
      match DecodeHeader(raw[|raw| - 1])
      case CompoundColumn(name, children) => Set(prev, ArrayKey(name), Str(children))
      case Plain(_) => prev
  }

  /** Why process_item gives up on a row: it returns false on a count mismatch, and under
      PHP 8 explode throws a ValueError when the multi-value delimiter is empty. */
  datatype RowError = ColumnCountMismatch | ChildCountMismatch | EmptyDelimiter

  /** The row check (document_importer.php:288-299): a row must have one value per header. */
  function CheckRow(headers: seq<string>, values: seq<string>): (r: Result<(), RowError>)
    ensures r.Ok? <==> |headers| == |values|
  {
    if |headers| != |values| then Err(ColumnCountMismatch) else Ok(())
  }

  /** The column a mapped metadatum reads (document_importer.php:304-313): the last header of
      that name, since the loop does not stop at the first. */
  function FindColumn(headers: seq<string>, name: string): (r: Option<nat>)
    ensures r.None? <==> name !in headers
    ensures r.Some? ==> r.value < |headers| && headers[r.value] == name
    ensures r.Some? ==> forall j :: r.value < j < |headers| ==> headers[j] != name
    decreases |headers|
  {
    if headers == [] then None
    else if headers[|headers| - 1] == name then Some(|headers| - 1)
    else
      var r := FindColumn(headers[..|headers| - 1], name);
      assert forall j :: 0 <= j < |headers| - 1 ==> headers[..|headers| - 1][j] == headers[j];
      r
  }

  /** The values of a compound column: split on the multi-value delimiter when the metadatum
      is multiple, one value otherwise (document_importer.php:319-321). The delimiter is used
      only for a multiple metadatum, and then an empty one makes explode throw. */
  function ValuePieces(value: string, multiple: bool, md: string): (r: Result<seq<string>, RowError>)
    ensures r.Err? <==> multiple && |md| == 0
    ensures r.Err? ==> r.error == EmptyDelimiter
    ensures r.Ok? ==> |r.value| >= 1
    ensures r.Ok? && multiple ==> Join(md, r.value) == value
    ensures !multiple ==> r == Ok([value])
  {
    if !multiple then Ok([value])
    else if |md| == 0 then Err(EmptyDelimiter)
    else Ok(Explode(md, value))
  }

  /** `$tmp[$childrenHeaders[$i]] = $value` for each child (document_importer.php:334-337). */
  function Zip(names: seq<string>, values: seq<string>): PhpArray
    requires |names| == |values|
  {
    Combine(ArrayKeys(names), values)
  }

  /** The array key of each name. */
  function ArrayKeys(names: seq<string>): (ks: seq<Key>)
    ensures |ks| == |names| && forall i :: 0 <= i < |names| ==> ks[i] == ArrayKey(names[i])
  {
    seq(|names|, i requires 0 <= i < |names| => ArrayKey(names[i]))
  }

  /** Each value set under its key in turn. */
  function Combine(keys: seq<Key>, values: seq<string>): PhpArray
    requires |keys| == |values|
    decreases |keys|
  {
    if keys == [] then []
    else
      var n := |keys| - 1;
      Set(Combine(keys[..n], values[..n]), keys[n], Str(values[n]))
  }

  /** One more value set under its key. */
  lemma CombineStep(keys: seq<Key>, values: seq<string>, i: nat)
    requires |keys| == |values| && i < |keys|
    ensures Combine(keys[..i + 1], values[..i + 1]) == Set(Combine(keys[..i], values[..i]), keys[i], Str(values[i]))
  {
    assert keys[..i + 1][..i] == keys[..i];
    assert values[..i + 1][..i] == values[..i];
  }

  /** The record has distinct keys. */
  lemma {:induction false} CombineUnique(keys: seq<Key>, values: seq<string>)
    requires |keys| == |values|
    ensures UniqueKeys(Combine(keys, values))
    decreases |keys|
  {
    if keys != [] {
      CombineUnique(keys[..|keys| - 1], values[..|keys| - 1]);
    }
  }

  /** The record has an entry for every key, and no other. */
  lemma {:induction false} CombineKeys(keys: seq<Key>, values: seq<string>)
    requires |keys| == |values|
    ensures forall k :: HasKey(Combine(keys, values), k) <==> k in keys
    decreases |keys|
  {
    if keys != [] {
      var n := |keys| - 1;
      CombineKeys(keys[..n], values[..n]);
      assert keys == keys[..n] + [keys[n]];
    }
  }

  /** The record of a row has distinct keys, one for each child name. */
  lemma ZipKeys(names: seq<string>, values: seq<string>)
    requires |names| == |values|
    ensures UniqueKeys(Zip(names, values))
    ensures forall k :: HasKey(Zip(names, values), k) <==> k in ArrayKeys(names)
  {
    CombineUnique(ArrayKeys(names), values);
    CombineKeys(ArrayKeys(names), values);
  }

  /** The cells of each value, read as CSV. */
  function CellRows(ps: seq<string>): (rows: seq<seq<string>>)
    ensures |rows| == |ps|
    ensures forall i :: 0 <= i < |ps| ==> rows[i] == StrGetCsv(ps[i])
  {
    seq(|ps|, i requires 0 <= i < |ps| => StrGetCsv(ps[i]))
  }

  /** Every row has one cell per child. */
  predicate AllFit(names: seq<string>, rows: seq<seq<string>>) {
    forall i :: 0 <= i < |rows| ==> |rows[i]| == |names|
  }

  /** The record of each row: the children zipped with its cells. */
  function ZipRows(names: seq<string>, rows: seq<seq<string>>): (recs: seq<PhpArray>)
    requires AllFit(names, rows)
    ensures |recs| == |rows| && forall i :: 0 <= i < |rows| ==> recs[i] == Zip(names, rows[i])
  {
    seq(|rows|, i requires 0 <= i < |rows| && AllFit(names, rows) => Zip(names, rows[i]))
  }

  /** `$returnValue[] = $record` for each record in turn. */
  function PushAll(records: seq<PhpArray>): (r: PhpArray)
    ensures |r| == |records|
    decreases |records|
  {
    if records == [] then []
    else Push(PushAll(records[..|records| - 1]), Arr(records[|records| - 1]))
  }

  /** The records of a compound column; the column fails when some row has another number of
      cells than there are children (the importer returns false at the first such row, and
      nothing it pushed before is kept). */
  function Records(names: seq<string>, rows: seq<seq<string>>): (r: Result<PhpArray, RowError>)
    ensures r.Ok? <==> AllFit(names, rows)
    ensures r.Err? ==> r.error == ChildCountMismatch
  {
    if AllFit(names, rows) then Ok(PushAll(ZipRows(names, rows))) else Err(ChildCountMismatch)
  }

  /** A compound column's value as process_item turns it into records
      (document_importer.php:318-340). */
  function CompoundValue(children: string, value: string, multiple: bool, md: string): Result<PhpArray, RowError>
  {
    var values :- ValuePieces(value, multiple, md);
    Records(StrGetCsv(children), CellRows(values))
  }

  /** Record i is pushed under key i. */
  lemma {:induction false} PushAllAt(records: seq<PhpArray>, i: nat)
    requires i < |records|
    ensures PushAll(records)[i] == Entry(Index(i), Arr(records[i]))
    decreases |records|
  {
    var n := |records| - 1;
    var front := records[..n];
    PushAllIndices(front);
    assert PushAll(records) == PushAll(front) + [Entry(Index(n), Arr(records[n]))];
    if i < n {
      PushAllAt(front, i);
      assert front[i] == records[i];
    }
  }

  /** The records are pushed under 0, 1, 2, ... */
  lemma {:induction false} PushAllIndices(records: seq<PhpArray>)
    ensures NextIndex(PushAll(records)) == |records|
    decreases |records|
  {
    if records != [] {
      var n := |records| - 1;
      PushAllIndices(records[..n]);
      NextIndexAppend(PushAll(records[..n]), n, Arr(records[n]));
    }
  }

  /** array_push onto an array whose next index is n uses n, and the next one is n + 1. */
  lemma NextIndexAppend(a: PhpArray, n: nat, v: Value)
    requires NextIndex(a) == n
    ensures NextIndex(a + [Entry(Index(n), v)]) == n + 1
  {
    var b := a + [Entry(Index(n), v)];
    assert b[..|b| - 1] == a;
  }

  /** The record made from row i is the children zipped with its cells, pushed under key i. */
  lemma BuildAt(names: seq<string>, rows: seq<seq<string>>, i: nat)
    requires AllFit(names, rows) && i < |rows|
    ensures Records(names, rows).Ok?
    ensures Records(names, rows).value[i] == Entry(Index(i), Arr(Zip(names, rows[i])))
  {
    PushAllAt(ZipRows(names, rows), i);
  }

  /** One more row that fits adds its record to those built. */
  lemma BuildStep(names: seq<string>, rows: seq<seq<string>>, index: nat)
    requires index < |rows| && AllFit(names, rows[..index]) && |rows[index]| == |names|
    ensures AllFit(names, rows[..index + 1])
    ensures ZipRows(names, rows[..index + 1]) == ZipRows(names, rows[..index]) + [Zip(names, rows[index])]
  {
    var next := rows[..index + 1];
    forall j | 0 <= j < index + 1 ensures |next[j]| == |names| {
      if j < index {
        assert next[j] == rows[..index][j];
      }
    }
  }

  /** One more record is pushed. */
  lemma PushAllStep(records: seq<PhpArray>, r: PhpArray)
    ensures PushAll(records + [r]) == Push(PushAll(records), Arr(r))
  {
    assert (records + [r])[..|records|] == records;
  }

  /** A compound column's value as process_item reads it: the value is split into its pieces,
      and then each piece is read into a record. */
  method ReadCompoundValue(children: string, value: string, multiple: bool, md: string)
    returns (r: Result<PhpArray, RowError>)
    ensures r == CompoundValue(children, value, multiple, md)
  {
    var pieces := ValuePieces(value, multiple, md);
    if pieces.Err? {
      return Err(pieces.error);
    }
    r := ReadRecords(children, pieces.value);
  }

  /** The loop of process_item over the values of a compound column: the child list is read
      for each value, a count mismatch returns false at once, and each record is pushed. */
  method ReadRecords(children: string, values: seq<string>) returns (r: Result<PhpArray, RowError>)
    ensures r == Records(StrGetCsv(children), CellRows(values))
  {
    ghost var names := StrGetCsv(children);
    ghost var rows := CellRows(values);
    var returnValue: PhpArray := [];
    var index := 0;
    while index < |values|
      invariant 0 <= index <= |values|
      invariant AllFit(names, rows[..index])
      invariant returnValue == PushAll(ZipRows(names, rows[..index]))
    {
      var childrenHeaders := StrGetCsv(children);
      var childrenValue := StrGetCsv(values[index]);
      if |childrenHeaders| != |childrenValue| {
        assert rows[index] == childrenValue;
        MisfitFails(names, rows, index);
        return Err(ChildCountMismatch);
      }
      assert rows[index] == childrenValue;
      var tmp := ZipRow(childrenHeaders, childrenValue);
      RecordStep(names, rows, index, tmp);
      returnValue := Push(returnValue, Arr(tmp));
      index := index + 1;
    }
    assert rows[..index] == rows;
    r := Ok(returnValue);
  }

  /** One more row that fits pushes its record onto those built. */
  lemma RecordStep(names: seq<string>, rows: seq<seq<string>>, index: nat, tmp: PhpArray)
    requires index < |rows| && AllFit(names, rows[..index]) && |rows[index]| == |names|
    requires tmp == Zip(names, rows[index])
    ensures AllFit(names, rows[..index + 1])
    ensures PushAll(ZipRows(names, rows[..index + 1])) == Push(PushAll(ZipRows(names, rows[..index])), Arr(tmp))
  {
    BuildStep(names, rows, index);
    PushAllStep(ZipRows(names, rows[..index]), tmp);
  }

  /** A row whose cell count differs from the child count makes the whole value fail. */
  lemma MisfitFails(names: seq<string>, rows: seq<seq<string>>, index: nat)
    requires index < |rows| && |rows[index]| != |names|
    ensures Records(names, rows) == Err(ChildCountMismatch)
  {
  }

  /** The inner loop of process_item (document_importer.php:334-337): each cell is set under
      the key of its child name. */
  method ZipRow(childrenHeaders: seq<string>, childrenValue: seq<string>) returns (tmp: PhpArray)
    requires |childrenHeaders| == |childrenValue|
    ensures tmp == Zip(childrenHeaders, childrenValue)
  {
    tmp := [];
    var i := 0;
    while i < |childrenValue|
      invariant 0 <= i <= |childrenValue|
      invariant tmp == Combine(ArrayKeys(childrenHeaders)[..i], childrenValue[..i])
    {
      CombineStep(ArrayKeys(childrenHeaders), childrenValue, i);
      tmp := Set(tmp, ArrayKey(childrenHeaders[i]), Str(childrenValue[i]));
      i := i + 1;
    }
    assert ArrayKeys(childrenHeaders)[..i] == ArrayKeys(childrenHeaders) && childrenValue[..i] == childrenValue;
  }

  /** The special columns the importer recognises (document_importer.php:164-179). */
  datatype Special =
    | DocumentColumn
    | AttachmentColumn(operation: string)
    | ItemStatusColumn
    | ItemIdColumn
    | CommentStatusColumn
    | OtherSpecial

  /** The three headers of an attachment column. */
  const AttachmentHeaders: set<string> :=
    {"special_attachments", "special_attachments|APPEND", "special_attachments|REPLACE"}

  /** The operation of an attachment column: what follows `|`, `APPEND` when nothing does. */
  function AttachmentOperation(raw: string): string {
    var parts := Explode("|", raw);
    if |parts| == 2 then parts[1] else "APPEND"
  }

  /** What a header starting with `special_` stands for; other headers are no special
      column. */
  function ClassifySpecial(raw: string): (r: Option<Special>)
    ensures r.Some? <==> StartsWith(raw, "special_")
  {
    if !StartsWith(raw, "special_") then None
    else if raw == "special_document" then Some(DocumentColumn)
    else if raw in AttachmentHeaders then Some(AttachmentColumn(AttachmentOperation(raw)))
    else if raw == "special_item_status" then Some(ItemStatusColumn)
    else if raw == "special_item_id" then Some(ItemIdColumn)
    else if raw == "special_comment_status" then Some(CommentStatusColumn)
    else Some(OtherSpecial)
  }

  /** Two pipe-free parts joined by `|` explode back into the two. */
  lemma ExplodePipe(p: string, q: string)
    requires '|' !in p && '|' !in q
    ensures Explode("|", p + "|" + q) == [p, q]
  {
    ExplodeJoin("|", [p, q]);
    assert [p, q][1..] == [q];
  }

  /** An attachment header without `|` appends; one with a single `|` names its operation
      (`special_attachments|REPLACE` replaces). */
  lemma AttachmentOperations(p: string, op: string)
    requires '|' !in p && '|' !in op
    ensures AttachmentOperation(p) == "APPEND"
    ensures AttachmentOperation(p + "|" + op) == op
  {
    ExplodeJoin("|", [p]);
    ExplodePipe(p, op);
  }

  /** The options get_source_metadata sets: the index of each special column and the
      attachment operation. */
  datatype SourceOptions = SourceOptions(
    document: Option<nat>,
    attachment: Option<nat>,
    attachmentOperation: Option<string>,
    itemStatus: Option<nat>,
    itemId: Option<nat>,
    commentStatus: Option<nat>)

  /** The option update for the special column at `index`. */
  function NoteSpecial(opts: SourceOptions, s: Special, index: nat): SourceOptions {
    match s
    case DocumentColumn => opts.(document := Some(index))
    case AttachmentColumn(op) => opts.(attachment := Some(index), attachmentOperation := Some(op))
    case ItemStatusColumn => opts.(itemStatus := Some(index))
    case ItemIdColumn => opts.(itemId := Some(index))
    case CommentStatusColumn => opts.(commentStatus := Some(index))
    case OtherSpecial => opts
  }

  /** A column of the source as get_source_metadata lists it: a compound column becomes its
      name and its children, split on the delimiter. */
  datatype SourceColumn = SourceColumn(header: string) | SourceCompound(parent: string, children: seq<string>)

  function SourceColumnOf(raw: string): SourceColumn {
    match DecodeHeader(raw)
    case Plain(h) => SourceColumn(h)
    case CompoundColumn(parent, children) => SourceCompound(parent, Explode([Delimiter], children))
  }

  /** get_source_metadata over the first `n` headers, from options `opts`. */
  function SourceMetadata(opts: SourceOptions, raw: seq<string>): (r: (SourceOptions, seq<SourceColumn>))
    decreases |raw|
  {
    if raw == [] then (opts, [])
    else
      var n := |raw| - 1;
      var prev := SourceMetadata(opts, raw[..n]);
      match ClassifySpecial(raw[n])
      case Some(s) => (NoteSpecial(prev.0, s, n), prev.1)
      case None => (prev.0, prev.1 + [SourceColumnOf(raw[n])])
  }

  /** The importer's loop over the header row. */
  method GetSourceMetadata(opts: SourceOptions, rawColumns: seq<string>)
    returns (options: SourceOptions, columns: seq<SourceColumn>)
    ensures (options, columns) == SourceMetadata(opts, rawColumns)
  {
    options := opts;
    columns := [];
    var index := 0;
    while index < |rawColumns|
      invariant 0 <= index <= |rawColumns|
      invariant (options, columns) == SourceMetadata(opts, rawColumns[..index])
    {
      assert rawColumns[..index + 1][..index] == rawColumns[..index];
      var rawColumn := rawColumns[index];
      var special := ClassifySpecial(rawColumn);
      if special.Some? {
        options := NoteSpecial(options, special.value, index);
      } else {
        columns := columns + [SourceColumnOf(rawColumn)];
      }
      index := index + 1;
    }
    assert rawColumns[..index] == rawColumns;
  }

  /** The columns listed are the headers that are not special, in order; each special column
      records the index of its last occurrence, and the attachment operation is that of the
      last attachment header. Options whose column is absent keep their value. */
  lemma {:induction false} SourceColumns(opts: SourceOptions, raw: seq<string>)
    ensures var r := SourceMetadata(opts, raw);
            && |r.1| == |NonSpecial(raw)|
            && forall i :: 0 <= i < |r.1| ==> r.1[i] == SourceColumnOf(NonSpecial(raw)[i])
    ensures var o := SourceMetadata(opts, raw).0;
            && o.document == LastOr(raw, {"special_document"}, opts.document)
            && o.attachment == LastOr(raw, AttachmentHeaders, opts.attachment)
            && o.itemStatus == LastOr(raw, {"special_item_status"}, opts.itemStatus)
            && o.itemId == LastOr(raw, {"special_item_id"}, opts.itemId)
            && o.commentStatus == LastOr(raw, {"special_comment_status"}, opts.commentStatus)
    ensures var o := SourceMetadata(opts, raw).0;
            o.attachmentOperation == (if Occurs(raw, AttachmentHeaders)
                                      then Some(AttachmentOperation(raw[LastIndex(raw, AttachmentHeaders)]))
                                      else opts.attachmentOperation)
    decreases |raw|
  {
    if raw != [] {
      var n := |raw| - 1;
      SourceColumns(opts, raw[..n]);
      assert forall i :: 0 <= i < n ==> raw[..n][i] == raw[i];
      LastStep(raw, {"special_document"}, opts.document);
      LastStep(raw, AttachmentHeaders, opts.attachment);
      LastStep(raw, {"special_item_status"}, opts.itemStatus);
      LastStep(raw, {"special_item_id"}, opts.itemId);
      LastStep(raw, {"special_comment_status"}, opts.commentStatus);
      SpecialHeaders(raw[n]);
    }
  }

  /** The special headers start with `special_`, so ClassifySpecial sees them. */
  lemma SpecialHeaders(h: string)
    ensures h == "special_document" ==> ClassifySpecial(h) == Some(DocumentColumn)
    ensures h in AttachmentHeaders ==> ClassifySpecial(h) == Some(AttachmentColumn(AttachmentOperation(h)))
    ensures h == "special_item_status" ==> ClassifySpecial(h) == Some(ItemStatusColumn)
    ensures h == "special_item_id" ==> ClassifySpecial(h) == Some(ItemIdColumn)
    ensures h == "special_comment_status" ==> ClassifySpecial(h) == Some(CommentStatusColumn)
  {
    if h == "special_document" || h in AttachmentHeaders || h == "special_item_status"
       || h == "special_item_id" || h == "special_comment_status" {
      assert h[..8] == "special_";
    }
  }

  /** Whether one of the headers `xs` occurs. */
  predicate Occurs(raw: seq<string>, xs: set<string>) {
    exists i :: 0 <= i < |raw| && raw[i] in xs
  }

  /** An option a special column sets: the index of the last header in `xs`, and `before`
      when there is none. */
  function LastOr(raw: seq<string>, xs: set<string>, before: Option<nat>): Option<nat> {
    if Occurs(raw, xs) then Some(LastIndex(raw, xs)) else before
  }

  /** One more header: it is the last occurrence when it is in `xs`, and otherwise the last
      occurrence is that of the headers before it. */
  lemma LastStep(raw: seq<string>, xs: set<string>, before: Option<nat>)
    requires |raw| > 0
    ensures var n := |raw| - 1;
            LastOr(raw, xs, before) == if raw[n] in xs then Some(n) else LastOr(raw[..n], xs, before)
    ensures var n := |raw| - 1;
            raw[n] !in xs ==> (Occurs(raw, xs) <==> Occurs(raw[..n], xs))
    ensures var n := |raw| - 1;
            raw[n] !in xs && Occurs(raw, xs) ==> LastIndex(raw, xs) == LastIndex(raw[..n], xs) < n
  {
    var n := |raw| - 1;
    if raw[n] !in xs {
      if Occurs(raw, xs) {
        var k :| 0 <= k < |raw| && raw[k] in xs;
        assert raw[..n][k] == raw[k];
      }
      if Occurs(raw[..n], xs) {
        var k :| 0 <= k < n && raw[..n][k] in xs;
        assert raw[k] == raw[..n][k];
      }
    }
  }

  /** The headers that are not special columns, in order. */
  function NonSpecial(raw: seq<string>): seq<string>
    decreases |raw|
  {
    if raw == [] then []
    else if StartsWith(raw[|raw| - 1], "special_") then NonSpecial(raw[..|raw| - 1])
    else NonSpecial(raw[..|raw| - 1]) + [raw[|raw| - 1]]
  }

  /** The index of the last occurrence of one of the headers `xs`. */
  function LastIndex(raw: seq<string>, xs: set<string>): (i: nat)
    requires Occurs(raw, xs)
    ensures i < |raw| && raw[i] in xs && forall j :: i < j < |raw| ==> raw[j] !in xs
    decreases |raw|
  {
    if raw[|raw| - 1] in xs then |raw| - 1
    else
      var front := raw[..|raw| - 1];
      var k :| 0 <= k < |raw| && raw[k] in xs;
      assert front[k] in xs;
      LastIndex(front, xs)
  }
}
