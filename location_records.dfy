/** The location records both parsers build under the current section: a list of records
    {Localização, Saída, Retornar, Responsável} filled one cell at a time, in that order
    (document_importer.php:1320-1325, ImportTest/index.php:155-161). */
module LocationRecords {
  import opened Results
  import opened PhpArrays
  import opened Literals

  /** Position in the location cycle: which of the four LocationLabels the next cell fills. */
  type Slot = s: nat | s < 4

  function NextSlot(s: Slot): (r: Slot)
    ensures r == (s + 1) % 4
  {
    if s == 3 then 0 else s + 1
  }

  /** Cell `slot` of a location row: the first cell opens a new record with array_push; the
      others set their label on the record at index count - 1. Both need the section to hold
      an array (array_push and count throw otherwise). */
  function LocationWrite(tree: PhpArray, sec: Key, slot: Slot, cell: string): Result<PhpArray, Fault> {
    match Get(tree, sec)
    case Some(Arr(list)) =>
      if slot == 0 then Ok(Set(tree, sec, Arr(Push(list, Arr([Entry(Name(LocationLabels[0]), Str(cell))])))))
      else WritePath(tree, [sec, Index(|list| - 1), Name(LocationLabels[slot])], Str(cell))
    case _ => Err(NotAnArray)
  }

  /** A PHP list: the keys are 0, 1, 2, ... in order. */
  predicate IsList(list: PhpArray) {
    forall i :: 0 <= i < |list| ==> list[i].key == Index(i)
  }

  /** The record a row of cells makes: the first |cells| labels, each with its cell. */
  function RecordOf(cells: seq<string>): (r: PhpArray)
    requires |cells| <= 4
    ensures |r| == |cells|
    ensures forall i :: 0 <= i < |cells| ==> r[i] == Entry(Name(LocationLabels[i]), Str(cells[i]))
  {
    seq(|cells|, i requires 0 <= i < |cells| => Entry(Name(LocationLabels[i]), Str(cells[i])))
  }

  lemma {:induction false} NextIndexOfList(list: PhpArray)
    requires IsList(list)
    ensures NextIndex(list) == |list|
    decreases |list|
  {
    if |list| > 0 {
      NextIndexOfList(list[..|list| - 1]);
    }
  }

  /** The first cell of a row appends a new record holding it under `Localização`. */
  lemma FirstCell(tree: PhpArray, sec: Key, list: PhpArray, cell: string)
    requires Get(tree, sec) == Some(Arr(list)) && IsList(list)
    ensures LocationWrite(tree, sec, 0, cell)
            == Ok(Set(tree, sec, Arr(list + [Entry(Index(|list|), Arr(RecordOf([cell])))])))
  {
    NextIndexOfList(list);
    assert RecordOf([cell]) == [Entry(Name(LocationLabels[0]), Str(cell))];
  }

  /** Cell `k` of a row (k = 1, 2, 3) adds label k to the record the row opened. */
  lemma NextCell(tree: PhpArray, sec: Key, list: PhpArray, cells: seq<string>, k: Slot)
    requires 1 <= k < |cells| <= 4
    requires Get(tree, sec) == Some(Arr(list + [Entry(Index(|list|), Arr(RecordOf(cells[..k])))]))
    requires IsList(list)
    ensures LocationWrite(tree, sec, k, cells[k])
            == Ok(Set(tree, sec, Arr(list + [Entry(Index(|list|), Arr(RecordOf(cells[..k + 1])))])))
  {
    var r := RecordOf(cells[..k]);
    var list' := list + [Entry(Index(|list|), Arr(r))];
    var lbl := Name(LocationLabels[k]);
    RecordGrows(cells, k);
    LastRecordWrite(list, r, lbl, Str(cells[k]));
    WriteBelow(tree, sec, list', [Index(|list|), lbl], Str(cells[k]));
    assert [sec] + [Index(|list|), lbl] == [sec, Index(|list'| - 1), lbl];
  }

  /** The next label is not yet in the record, and setting it extends the record by a cell. */
  lemma RecordGrows(cells: seq<string>, k: Slot)
    requires k < |cells| <= 4
    ensures !HasKey(RecordOf(cells[..k]), Name(LocationLabels[k]))
    ensures Set(RecordOf(cells[..k]), Name(LocationLabels[k]), Str(cells[k])) == RecordOf(cells[..k + 1])
  {
    var r := RecordOf(cells[..k]);
    var lbl := Name(LocationLabels[k]);
    assert !HasKey(r, lbl) by {
      forall i | 0 <= i < |r| ensures r[i].key != lbl {
        assert r[i].key == Name(LocationLabels[i]);
      }
    }
  }

  /** `$list[count($list) - 1][$lbl] = $x` on a list: the last record gets the label. */
  lemma LastRecordWrite(list: PhpArray, r: PhpArray, lbl: Key, x: Value)
    requires IsList(list)
    ensures var list' := list + [Entry(Index(|list|), Arr(r))];
            WritePath(list', [Index(|list|), lbl], x) == Ok(list + [Entry(Index(|list|), Arr(Set(r, lbl, x)))])
  {
    var list' := list + [Entry(Index(|list|), Arr(r))];
    FindFirst(list', Index(|list|), |list|);
    assert WritePath(list', [Index(|list|), lbl], x) == Ok(Set(list', Index(|list|), Arr(Set(r, lbl, x))));
    assert Set(list', Index(|list|), Arr(Set(r, lbl, x))) == list + [Entry(Index(|list|), Arr(Set(r, lbl, x)))];
  }

  /** The four cells of one row written at slots 0 to 3; the first fault ends it. */
  function WriteRow(tree: PhpArray, sec: Key, cells: seq<string>): Result<PhpArray, Fault>
    requires |cells| == 4
  {
    var t1 :- LocationWrite(tree, sec, 0, cells[0]);
    var t2 :- LocationWrite(t1, sec, 1, cells[1]);
    var t3 :- LocationWrite(t2, sec, 2, cells[2]);
    LocationWrite(t3, sec, 3, cells[3])
  }

  /** A row written in full went through four cell writes, one per position of the cycle. */
  lemma RowWrites(tree: PhpArray, sec: Key, cells: seq<string>, t: PhpArray) returns (t1: PhpArray, t2: PhpArray, t3: PhpArray)
    requires |cells| == 4 && WriteRow(tree, sec, cells) == Ok(t)
    ensures LocationWrite(tree, sec, 0, cells[0]) == Ok(t1)
    ensures LocationWrite(t1, sec, 1, cells[1]) == Ok(t2)
    ensures LocationWrite(t2, sec, 2, cells[2]) == Ok(t3)
    ensures LocationWrite(t3, sec, 3, cells[3]) == Ok(t)
  {
    t1 := LocationWrite(tree, sec, 0, cells[0]).value;
    t2 := LocationWrite(t1, sec, 1, cells[1]).value;
    t3 := LocationWrite(t2, sec, 2, cells[2]).value;
  }

  /** The row after `list`: the list with the record of `cells` appended. */
  function RowAfter(list: PhpArray, cells: seq<string>): PhpArray
    requires |cells| <= 4
  {
    list + [Entry(Index(|list|), Arr(RecordOf(cells)))]
  }

  /** A full row of four cells appends one complete record to a list of records, and the
      result is again a list. */
  lemma FullRow(tree: PhpArray, sec: Key, list: PhpArray, cells: seq<string>)
    requires |cells| == 4 && Get(tree, sec) == Some(Arr(list)) && IsList(list)
    ensures WriteRow(tree, sec, cells) == Ok(Set(tree, sec, Arr(RowAfter(list, cells))))
    ensures IsList(RowAfter(list, cells))
  {
    RowSteps(tree, sec, list, cells);
    assert cells[..4] == cells;
  }

  lemma RowSteps(tree: PhpArray, sec: Key, list: PhpArray, cells: seq<string>)
    requires |cells| == 4 && Get(tree, sec) == Some(Arr(list)) && IsList(list)
    ensures WriteRow(tree, sec, cells) == Ok(Set(tree, sec, Arr(RowAfter(list, cells[..4]))))
  {
    RowStart(tree, sec, list, cells);
    RowContinues(tree, sec, list, cells, 1);
    RowContinues(tree, sec, list, cells, 2);
    RowContinues(tree, sec, list, cells, 3);
  }

  lemma RowStart(tree: PhpArray, sec: Key, list: PhpArray, cells: seq<string>)
    requires |cells| == 4 && Get(tree, sec) == Some(Arr(list)) && IsList(list)
    ensures LocationWrite(tree, sec, 0, cells[0]) == Ok(Set(tree, sec, Arr(RowAfter(list, cells[..1]))))
  {
    FirstCell(tree, sec, list, cells[0]);
    assert [cells[0]] == cells[..1];
  }

  lemma RowContinues(tree: PhpArray, sec: Key, list: PhpArray, cells: seq<string>, k: Slot)
    requires |cells| == 4 && IsList(list) && 1 <= k
    ensures var t := Set(tree, sec, Arr(RowAfter(list, cells[..k])));
            LocationWrite(t, sec, k, cells[k]) == Ok(Set(tree, sec, Arr(RowAfter(list, cells[..k + 1]))))
  {
    var t := Set(tree, sec, Arr(RowAfter(list, cells[..k])));
    NextCell(t, sec, list, cells, k);
    SetTwice(tree, sec, Arr(RowAfter(list, cells[..k])), Arr(RowAfter(list, cells[..k + 1])));
  }
}
