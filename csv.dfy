/** The CSV layer of the importer with its defaults: fields separated by a comma and enclosed
    in double quotes. Writing follows PHP's fputcsv (and str_putcsv, document_importer.php:21-31,
    which is fputcsv into a buffer without the final line feed); reading follows fgetcsv and
    str_getcsv for the records the writer produces. */
module Csv {
  import opened Text

  const Delimiter: char := ','
  const Enclosure: char := '"'
  const EscapeChar: char := '\\'

  /** The characters that make fputcsv enclose a field: the delimiter, the enclosure, the
      escape character and the white space characters line feed, carriage return, tab and
      space. */
  predicate IsSpecial(c: char) {
    c == Delimiter || c == Enclosure || c == EscapeChar || c == '\n' || c == '\r' || c == '\t' || c == ' '
  }

  predicate NeedsEnclosure(f: string) {
    exists i :: 0 <= i < |f| && IsSpecial(f[i])
  }

  /** The field with each enclosure character doubled. */
  function Doubled(f: string): string {
    if f == [] then []
    else (if f[0] == Enclosure then [Enclosure, Enclosure] else [f[0]]) + Doubled(f[1..])
  }

  /** One field as fputcsv writes it: as is, or enclosed with its enclosures doubled. */
  function EncodeField(f: string): (e: string)
    ensures !NeedsEnclosure(f) ==> e == f
    ensures NeedsEnclosure(f) ==> |e| >= 2 && e[0] == Enclosure && e[|e| - 1] == Enclosure
  {
    if NeedsEnclosure(f) then [Enclosure] + Doubled(f) + [Enclosure] else f
  }

  function EncodeFields(fs: seq<string>): (es: seq<string>)
    ensures |es| == |fs|
  {
    if fs == [] then [] else [EncodeField(fs[0])] + EncodeFields(fs[1..])
  }

  /** A record as fputcsv writes it, without its terminating line feed. */
  function EncodeRecord(fs: seq<string>): string {
    Join([Delimiter], EncodeFields(fs))
  }

  /** The line fputcsv writes. */
  function CsvLine(fs: seq<string>): string {
    EncodeRecord(fs) + "\n"
  }

  /** rtrim($s, "\n"). */
  function TrimLineFeeds(s: string): (r: string)
    ensures |r| <= |s| && r == s[..|r|]
    ensures r == [] || r[|r| - 1] != '\n'
    decreases |s|
  {
    if s != [] && s[|s| - 1] == '\n' then TrimLineFeeds(s[..|s| - 1]) else s
  }

  /** An encoded record never ends in a line feed: an enclosed field ends in the enclosure,
      a bare one holds no line feed, and an empty last field leaves the delimiter last. */
  lemma {:induction false} RecordEnd(fs: seq<string>)
    ensures EncodeRecord(fs) == [] || EncodeRecord(fs)[|EncodeRecord(fs)| - 1] != '\n'
    decreases |fs|
  {
    if |fs| == 1 {
      var f := fs[0];
      if !NeedsEnclosure(f) && f != [] {
        assert !IsSpecial(f[|f| - 1]);
      }
    } else if |fs| > 1 {
      RecordEnd(fs[1..]);
      var rest := EncodeRecord(fs[1..]);
      assert EncodeRecord(fs) == EncodeField(fs[0]) + [Delimiter] + rest;
    }
  }

  /** str_putcsv: fputcsv into a buffer, with the trailing line feeds cut off. What it
      returns is exactly the encoded record: the cut takes the terminator and nothing else. */
  function StrPutCsv(fs: seq<string>): (r: string)
    ensures r == EncodeRecord(fs)
  {
    RecordEnd(fs);
    var line := CsvLine(fs);
    assert line[..|line| - 1] == EncodeRecord(fs);
    assert TrimLineFeeds(line) == TrimLineFeeds(EncodeRecord(fs)) == EncodeRecord(fs);
    TrimLineFeeds(line)
  }

  /** The reader's position within a field: at its start, inside a bare field, inside an
      enclosed field, or just after an enclosure inside an enclosed field. */
  datatype Mode = Fresh | Bare | Enclosed | Closing

  /** The record reader. `eol` says whether an unenclosed line feed ends the record (fgetcsv)
      or is data (str_getcsv). An enclosure opening a field starts an enclosed field, in which
      a doubled enclosure stands for one; text after the closing enclosure is kept. Returns
      the fields and the input after the record. */
  function Scan(s: string, eol: bool, mode: Mode, cur: string, acc: seq<string>): (r: (seq<string>, string))
    ensures |r.0| > |acc| && |r.1| <= |s|
    decreases |s|
  {
    if s == [] then (acc + [cur], [])
    else
      var c := s[0];
      if mode == Enclosed then
        if c == Enclosure then Scan(s[1..], eol, Closing, cur, acc)
        else Scan(s[1..], eol, Enclosed, cur + [c], acc)
      else if mode == Fresh && c == Enclosure then Scan(s[1..], eol, Enclosed, cur, acc)
      else if mode == Closing && c == Enclosure then Scan(s[1..], eol, Enclosed, cur + [Enclosure], acc)
      else if c == Delimiter then Scan(s[1..], eol, Fresh, [], acc + [cur])
      else if eol && c == '\n' then (acc + [cur], s[1..])
      else Scan(s[1..], eol, Bare, cur + [c], acc)
  }

  /** fgetcsv: the fields of the first record and the input after it; there is always at
      least one field. Where PHP returns `[null]` (a blank line) this reader returns `[""]`. */
  function ReadRecord(s: string): (r: (seq<string>, string))
    ensures |r.0| >= 1 && |r.1| <= |s|
  {
    Scan(s, true, Fresh, [], [])
  }

  /** str_getcsv: the fields of the whole string; `[""]` for the empty string, where PHP
      returns `[null]`. */
  function StrGetCsv(s: string): (fs: seq<string>)
    ensures |fs| >= 1
  {
    Scan(s, false, Fresh, [], []).0
  }

  /** Where a field ends: at the end of the input, at a delimiter, or at a line feed that
      ends the record. */
  predicate AtBoundary(t: string, eol: bool) {
    t == [] || t[0] == Delimiter || (eol && t[0] == '\n')
  }

  /** At a boundary it does not matter how the field was read, only what it holds. */
  lemma Boundary(t: string, eol: bool, mode: Mode, cur: string, acc: seq<string>)
    requires AtBoundary(t, eol) && mode != Enclosed
    ensures Scan(t, eol, mode, cur, acc) == Scan(t, eol, Bare, cur, acc)
  {
  }

  /** A field free of delimiters and line feeds is read as it stands, unless it starts a
      field with an enclosure. */
  lemma {:induction false} ScanBare(f: string, t: string, eol: bool, mode: Mode, cur: string, acc: seq<string>)
    requires mode == Bare || mode == Fresh
    requires mode == Fresh && f != [] ==> f[0] != Enclosure
    requires forall i :: 0 <= i < |f| ==> f[i] != Delimiter && f[i] != '\n'
    ensures Scan(f + t, eol, mode, cur, acc) == Scan(t, eol, if f == [] then mode else Bare, cur + f, acc)
    decreases |f|
  {
    if f == [] {
      assert f + t == t && cur + f == cur;
    } else {
      assert (f + t)[1..] == f[1..] + t;
      assert cur + f == (cur + [f[0]]) + f[1..];
      ScanBare(f[1..], t, eol, Bare, cur + [f[0]], acc);
    }
  }

  /** The inside of an enclosed field, up to and including its closing enclosure, gives back
      the field. */
  lemma {:induction false} ScanDoubled(f: string, t: string, eol: bool, cur: string, acc: seq<string>)
    ensures Scan(Doubled(f) + [Enclosure] + t, eol, Enclosed, cur, acc) == Scan(t, eol, Closing, cur + f, acc)
    decreases |f|
  {
    if f == [] {
      assert Doubled(f) + [Enclosure] + t == [Enclosure] + t;
      assert cur + f == cur;
    } else {
      var rest := Doubled(f[1..]) + [Enclosure] + t;
      ScanDoubled(f[1..], t, eol, cur + [f[0]], acc);
      assert cur + f == (cur + [f[0]]) + f[1..];
      if f[0] == Enclosure {
        var s := Doubled(f) + [Enclosure] + t;
        assert s == [Enclosure, Enclosure] + rest;
        assert s[1..] == [Enclosure] + rest;
        assert s[1..][1..] == rest;
      } else {
        var s := Doubled(f) + [Enclosure] + t;
        assert s == [f[0]] + rest;
        assert s[1..] == rest;
      }
    }
  }

  /** An encoded field is read back as the field, whatever follows it at a boundary. */
  lemma ScanField(f: string, t: string, eol: bool, acc: seq<string>)
    requires AtBoundary(t, eol)
    ensures Scan(EncodeField(f) + t, eol, Fresh, [], acc) == Scan(t, eol, Bare, f, acc)
  {
    if NeedsEnclosure(f) {
      ScanEnclosedField(f, t, eol, acc);
    } else {
      ScanPlainField(f, t, eol, acc);
    }
  }

  lemma ScanEnclosedField(f: string, t: string, eol: bool, acc: seq<string>)
    requires AtBoundary(t, eol) && NeedsEnclosure(f)
    ensures Scan([Enclosure] + Doubled(f) + [Enclosure] + t, eol, Fresh, [], acc) == Scan(t, eol, Bare, f, acc)
  {
    var s := [Enclosure] + Doubled(f) + [Enclosure] + t;
    assert s[1..] == Doubled(f) + [Enclosure] + t;
    ScanDoubled(f, t, eol, [], acc);
    assert [] + f == f;
    Boundary(t, eol, Closing, f, acc);
  }

  lemma ScanPlainField(f: string, t: string, eol: bool, acc: seq<string>)
    requires AtBoundary(t, eol) && !NeedsEnclosure(f)
    ensures Scan(f + t, eol, Fresh, [], acc) == Scan(t, eol, Bare, f, acc)
  {
    assert forall i :: 0 <= i < |f| ==> !IsSpecial(f[i]);
    ScanBare(f, t, eol, Fresh, [], acc);
    assert [] + f == f;
    Boundary(t, eol, if f == [] then Fresh else Bare, f, acc);
  }

  /** An encoded record is read back field by field. */
  lemma {:induction false} ScanRecord(fs: seq<string>, t: string, eol: bool, acc: seq<string>)
    requires |fs| >= 1 && (t == [] || (eol && t[0] == '\n'))
    ensures Scan(EncodeRecord(fs) + t, eol, Fresh, [], acc) == Scan(t, eol, Bare, fs[|fs| - 1], acc + fs[..|fs| - 1])
    decreases |fs|
  {
    if |fs| == 1 {
      assert EncodeRecord(fs) == EncodeField(fs[0]);
      ScanField(fs[0], t, eol, acc);
      assert acc + fs[..0] == acc;
    } else {
      var rest := EncodeRecord(fs[1..]);
      assert EncodeRecord(fs) == EncodeField(fs[0]) + [Delimiter] + rest;
      var tail := [Delimiter] + rest + t;
      assert EncodeRecord(fs) + t == EncodeField(fs[0]) + tail;
      ScanField(fs[0], tail, eol, acc);
      assert tail[1..] == rest + t;
      ScanRecord(fs[1..], t, eol, acc + [fs[0]]);
      assert fs[1..][..|fs| - 2] == fs[1..|fs| - 1];
      assert acc + [fs[0]] + fs[1..|fs| - 1] == acc + fs[..|fs| - 1];
    }
  }

  /** fgetcsv reads back the record fputcsv wrote, and leaves the rest of the file. */
  lemma RecordRoundTrip(fs: seq<string>, rest: string)
    requires |fs| >= 1
    ensures ReadRecord(CsvLine(fs) + rest) == (fs, rest)
  {
    var t := "\n" + rest;
    assert CsvLine(fs) + rest == EncodeRecord(fs) + t;
    ScanRecord(fs, t, true, []);
    assert [] + fs[..|fs| - 1] + [fs[|fs| - 1]] == fs;
  }

  /** str_getcsv reads back what str_putcsv wrote. */
  lemma StrRoundTrip(fs: seq<string>)
    requires |fs| >= 1
    ensures StrGetCsv(StrPutCsv(fs)) == fs
  {
    assert EncodeRecord(fs) + [] == EncodeRecord(fs);
    ScanRecord(fs, [], false, []);
    assert [] + fs[..|fs| - 1] + [fs[|fs| - 1]] == fs;
  }

  /** A piece that can be read as it stands: no delimiter, no line feed, and no enclosure
      opening it. */
  predicate Plain(p: string) {
    (forall i :: 0 <= i < |p| ==> p[i] != Delimiter && p[i] != '\n') && (p == [] || p[0] != Enclosure)
  }

  /** A plain piece followed by a delimiter is read as one field. */
  lemma PlainPiece(p: string, rest: string, acc: seq<string>)
    requires Plain(p)
    ensures Scan(p + [Delimiter] + rest, false, Fresh, [], acc) == Scan(rest, false, Fresh, [], acc + [p])
  {
    ScanBare(p, [Delimiter] + rest, false, Fresh, [], acc);
    assert p + [Delimiter] + rest == p + ([Delimiter] + rest);
    assert ([Delimiter] + rest)[1..] == rest;
    assert [] + p == p;
  }

  /** str_getcsv splits a comma-joined list of plain pieces back into the pieces. */
  lemma {:induction false} PlainList(parts: seq<string>, acc: seq<string>)
    requires |parts| >= 1 && forall i :: 0 <= i < |parts| ==> Plain(parts[i])
    ensures Scan(Join([Delimiter], parts), false, Fresh, [], acc) == (acc + parts, [])
    decreases |parts|
  {
    var p := parts[0];
    assert Plain(p);
    if |parts| == 1 {
      ScanBare(p, [], false, Fresh, [], acc);
      assert p + [] == p && [] + p == p;
      assert acc + parts == acc + [p];
    } else {
      var rest := Join([Delimiter], parts[1..]);
      assert Join([Delimiter], parts) == p + [Delimiter] + rest;
      PlainPiece(p, rest, acc);
      assert forall i :: 0 <= i < |parts[1..]| ==> Plain(parts[1..][i]) by {
        forall i | 0 <= i < |parts[1..]| ensures Plain(parts[1..][i]) {
          assert parts[1..][i] == parts[i + 1];
        }
      }
      PlainList(parts[1..], acc + [p]);
      assert acc + [p] + parts[1..] == acc + parts;
    }
  }

  /** The file fputcsv leaves after writing two records, one line each. */
  function TwoLines(first: seq<string>, second: seq<string>): string {
    CsvLine(first) + CsvLine(second)
  }

  /** Reading the file back gives the two records, and nothing is left. */
  lemma TwoLinesRoundTrip(first: seq<string>, second: seq<string>)
    requires |first| >= 1 && |second| >= 1
    ensures ReadRecord(TwoLines(first, second)) == (first, CsvLine(second))
    ensures ReadRecord(CsvLine(second)) == (second, [])
  {
    RecordRoundTrip(first, CsvLine(second));
    RecordRoundTrip(second, []);
    assert CsvLine(second) + [] == CsvLine(second);
  }
}
