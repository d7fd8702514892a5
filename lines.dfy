/** How both parsers read one line of the extracted document text: the line is exploded on
    ':'; the trimmed first piece is the line's head; the remaining pieces, concatenated
    without their colons and trimmed, are its value. */
module Lines {
  import opened Text

  /** explode(":", $line). */
  function Parts(line: string): (p: seq<string>)
    ensures |p| >= 1 && Join(":", p) == line
    ensures forall i :: 0 <= i < |p| ==> ':' !in p[i]
  {
    Explode(":", line)
  }

  /** count(explode(":", $line)) >= 2 */
  predicate HasColon(line: string) {
    |Parts(line)| >= 2
  }

  /** trim($exploded_line[0]) */
  function Head(line: string): string {
    Trim(Parts(line)[0])
  }

  /** trim(implode("", array_slice($exploded_line, 1))) */
  function ColonValue(line: string): string {
    Trim(Concat(Parts(line)[1..]))
  }

  /** A line has at least two pieces exactly when it holds a colon. */
  lemma HasColonIff(line: string)
    ensures HasColon(line) <==> ':' in line
  {
    var p := Parts(line);
    if |p| >= 2 {
      assert line == p[0] + ":" + Join(":", p[1..]);
      assert line[|p[0]|] == ':';
    }
  }

  /** A line "k:v" whose key holds no colon: its head is the trimmed key and its value is the
      trimmed rest with every further colon dropped. */
  lemma FieldLine(k: string, v: string)
    requires ':' !in k
    ensures HasColon(k + ":" + v)
    ensures Head(k + ":" + v) == Trim(k)
    ensures ColonValue(k + ":" + v) == Trim(RemoveChar(v, ':'))
  {
    ExplodeFreePrefix(":", k, ":" + v);
    ExplodeAtSeparator(":", v);
    assert k + ":" + v == k + (":" + v);
    var p := Parts(k + ":" + v);
    assert p == [k + ""] + Explode(":", v);
    assert k + "" == k;
    assert p[1..] == Explode(":", v);
    ConcatExplode(':', v);
  }

  /** A line without a colon is all head. */
  lemma PlainLine(line: string)
    requires ':' !in line
    ensures !HasColon(line) && Head(line) == Trim(line)
  {
    HasColonIff(line);
    assert Join(":", Parts(line)) == Parts(line)[0];
  }
}
