/** The small rules the importer applies to one row: the document cell's prefix
    (document_importer.php:440-462), the item status (572-582), the comment status (587-597)
    and the emptiness test that skips a metadatum's values (829-836). */
module ItemRules {
  import opened PhpArrays
  import opened Text

  /** handle_item_status: `public` is stored as WordPress's `publish`, any other status as
      it is. */
  function ItemStatus(status: string): (r: string)
    ensures r != "public"
    ensures r == "publish" <==> status == "public" || status == "publish"
    ensures status != "public" ==> r == status
  {
    if status == "public" then "publish" else status
  }

  /** The status rule changes nothing the second time. */
  lemma {:induction false} ItemStatusIdempotent(status: string)
    ensures ItemStatus(ItemStatus(status)) == ItemStatus(status)
  {
    assert ItemStatus(status) != "public";
  }

  /** handle_item_comment_status: `open` and `closed` are kept, anything else becomes
      `closed`. */
  function CommentStatus(c: string): (r: string)
    ensures r == "open" || r == "closed"
    ensures r == c <==> c == "open" || c == "closed"
  {
    if c in ["open", "closed"] then c else "closed"
  }

  /** The comment rule changes nothing the second time. */
  lemma {:induction false} CommentStatusIdempotent(c: string)
    ensures CommentStatus(CommentStatus(c)) == CommentStatus(c)
  {
    var r := CommentStatus(c);
    assert r == "open" || r == "closed";
  }

  /** PHP's truthiness for the values a row holds: null, "", "0" and the empty array are
      false, everything else is true. */
  predicate Truthy(v: Value) {
    match v
    case Null => false
    case Str(s) => s != "" && s != "0"
    case Arr(a) => a != []
  }

  /** array_filter($a) with no callback: the entries whose value is truthy, with their keys,
      in order. */
  function ArrayFilter(a: PhpArray): (r: PhpArray)
    ensures |r| <= |a|
    ensures forall i :: 0 <= i < |r| ==> Truthy(r[i].value) && r[i] in a
    decreases |a|
  {
    if a == [] then []
    else (if Truthy(a[0].value) then [a[0]] else []) + ArrayFilter(a[1..])
  }

  /** array_filter keeps every truthy entry, so it comes out empty exactly when no value is
      truthy. */
  lemma {:induction false} FilterKeepsTruthy(a: PhpArray)
    ensures forall i :: 0 <= i < |a| && Truthy(a[i].value) ==> a[i] in ArrayFilter(a)
    ensures ArrayFilter(a) == [] <==> forall i :: 0 <= i < |a| ==> !Truthy(a[i].value)
    decreases |a|
  {
    if a != [] {
      FilterKeepsTruthy(a[1..]);
      forall i | 0 <= i < |a| && Truthy(a[i].value)
        ensures a[i] in ArrayFilter(a)
      {
        if i > 0 {
          assert a[i] == a[1..][i - 1];
        }
      }
      if forall i :: 0 <= i < |a| ==> !Truthy(a[i].value) {
        assert forall i :: 0 <= i < |a| - 1 ==> a[1..][i] == a[i + 1];
      }
    }
  }

  /** is_empty_value: an array is empty when array_filter leaves nothing, anything else when
      it trims to the empty string (trim(null) is ""). */
  function IsEmptyValue(v: Value): (r: bool)
    ensures v.Arr? ==> (r <==> forall i :: 0 <= i < |v.entries| ==> !Truthy(v.entries[i].value))
    ensures v.Str? ==> (r <==> AllSpace(v.s))
    ensures v.Null? ==> r
  {
    match v
    case Arr(a) => FilterKeepsTruthy(a); ArrayFilter(a) == []
    case Str(s) => Trim(s) == ""
    case Null => true
  }

  /** The two branches disagree on blanks and on "0": a lone blank cell is empty and a list
      of blank cells is not, while a lone "0" is not empty and a list of "0" cells is. */
  lemma BlankAndZeroCells()
    ensures IsEmptyValue(Str(" ")) && !IsEmptyValue(Arr([Entry(Index(0), Str(" "))]))
    ensures !IsEmptyValue(Str("0")) && IsEmptyValue(Arr([Entry(Index(0), Str("0"))]))
  {
    assert !AllSpace("0") by {
      assert !IsPhpSpace("0"[0]);
    }
    assert Truthy(Str(" "));
  }

  /** Where handle_document takes the item's document from, by the prefix of the cell. */
  datatype DocumentSource =
    | UrlDocument(url: string)
    | TextDocument(text: string)
    | FileDocument(path: string)
    | NoDocument

  /** handle_document's choice: `url:`, `text:` or `file:` at the start of the cell, in that
      order, with the rest of the cell trimmed; any other cell sets no document. */
  function DocumentOf(cell: string): (d: DocumentSource)
    ensures d.NoDocument? <==> !StartsWith(cell, "url:") && !StartsWith(cell, "text:") && !StartsWith(cell, "file:")
    ensures d.UrlDocument? ==> d.url == Trim(d.url)
    ensures d.TextDocument? ==> d.text == Trim(d.text)
    ensures d.FileDocument? ==> d.path == Trim(d.path)
  {
    if StartsWith(cell, "url:") then UrlDocument(Trimmed(cell[4..]))
    else if StartsWith(cell, "text:") then TextDocument(Trimmed(cell[5..]))
    else if StartsWith(cell, "file:") then FileDocument(Trimmed(cell[5..]))
    else NoDocument
  }

  /** trim($s), which trimming again leaves as it is. */
  function Trimmed(s: string): (r: string)
    ensures r == Trim(s) && Trim(r) == r
  {
    Trim(s)
  }

  /** The cell that names a document source: its prefix and the value. */
  function DocumentCell(d: DocumentSource): string {
    match d
    case UrlDocument(u) => "url:" + u
    case TextDocument(t) => "text:" + t
    case FileDocument(p) => "file:" + p
    case NoDocument => ""
  }

  /** A value without surrounding blanks, written with its prefix, is read back as it was. */
  lemma DocumentRoundTrip(d: DocumentSource)
    requires d.UrlDocument? ==> Trim(d.url) == d.url
    requires d.TextDocument? ==> Trim(d.text) == d.text
    requires d.FileDocument? ==> Trim(d.path) == d.path
    ensures DocumentOf(DocumentCell(d)) == d
  {
    match d
    case UrlDocument(u) => UrlCell(u);
    case TextDocument(t) => TextCell(t);
    case FileDocument(p) => SpecialDocumentCell(p);
    case NoDocument =>
  }

  /** A `url:` cell is read as a URL document named by the trimmed rest. */
  lemma UrlCell(u: string)
    ensures DocumentOf("url:" + u) == UrlDocument(Trim(u))
  {
    var cell := "url:" + u;
    assert cell[..4] == "url:" && cell[4..] == u;
  }

  /** A `text:` cell is read as an inline text document named by the trimmed rest. */
  lemma TextCell(t: string)
    ensures DocumentOf("text:" + t) == TextDocument(Trim(t))
  {
    var cell := "text:" + t;
    assert !StartsWith(cell, "url:") by {
      assert cell[0] == 't';
    }
    assert cell[..5] == "text:" && cell[5..] == t;
  }

  /** The `special_document` cell add_file writes (`file:` and the attachment) is read back
      as a file document named by the trimmed attachment. */
  lemma SpecialDocumentCell(attachment: string)
    ensures DocumentOf("file:" + attachment) == FileDocument(Trim(attachment))
  {
    var cell := "file:" + attachment;
    assert cell[..4] != "url:" && cell[..5] != "text:" by {
      assert cell[0] == 'f';
    }
    assert cell[..5] == "file:" && cell[5..] == attachment;
  }
}
