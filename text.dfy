/** The PHP string functions the importer relies on, over `string` (a sequence of characters).
    The importer only ever cuts text at ASCII characters (':', ',', '|', '"', blanks), so
    working on characters instead of UTF-8 bytes gives the same pieces. */
module Text {

  /** The characters PHP's trim() strips when no character list is given: " \t\n\r\0\x0B". */
  predicate IsPhpSpace(c: char) {
    c == ' ' || c == '\t' || c == '\n' || c == '\r' || c == '\0' || c == '\U{000B}'
  }

  predicate AllSpace(s: string) {
    forall i :: 0 <= i < |s| ==> IsPhpSpace(s[i])
  }

  function TrimLeft(s: string): (r: string)
    ensures |r| <= |s| && r == s[|s| - |r|..]
    ensures r == [] || !IsPhpSpace(r[0])
    ensures AllSpace(s[..|s| - |r|])
  {
    if |s| > 0 && IsPhpSpace(s[0]) then TrimLeft(s[1..]) else s
  }

  function TrimRight(s: string): (r: string)
    ensures |r| <= |s| && r == s[..|r|]
    ensures r == [] || !IsPhpSpace(r[|r| - 1])
    ensures AllSpace(s[|r|..])
  {
    if |s| > 0 && IsPhpSpace(s[|s| - 1]) then
      var r := TrimRight(s[..|s| - 1]);
      assert s[|r|..] == s[..|s| - 1][|r|..] + [s[|s| - 1]];
      r
    else s
  }

  /** trim($s): the text between the leading and the trailing blanks. */
  function Trim(s: string): (r: string)
    ensures r == [] || (!IsPhpSpace(r[0]) && !IsPhpSpace(r[|r| - 1]))
    ensures r == [] <==> AllSpace(s)
    ensures s == [] || (!IsPhpSpace(s[0]) && !IsPhpSpace(s[|s| - 1])) ==> r == s
  {
    var l := TrimLeft(s);
    var r := TrimRight(l);
    assert r == [] ==> AllSpace(s) by {
      if r == [] {
        assert AllSpace(l[|r|..]);
        assert s == s[..|s| - |l|] + l;
      }
    }
    r
  }

  /** implode($sep, $parts). */
  function Join(sep: string, parts: seq<string>): string {
    if |parts| == 0 then ""
    else if |parts| == 1 then parts[0]
    else parts[0] + sep + Join(sep, parts[1..])
  }

  /** One more part joins on after a separator. */
  lemma {:induction false} JoinSnoc(sep: string, parts: seq<string>, x: string)
    requires |parts| >= 1
    ensures Join(sep, parts + [x]) == Join(sep, parts) + sep + x
    decreases |parts|
  {
    if |parts| == 1 {
      assert (parts + [x])[1..] == [x];
    } else {
      assert (parts + [x])[1..] == parts[1..] + [x];
      JoinSnoc(sep, parts[1..], x);
    }
  }

  /** implode("", $parts). */
  function Concat(parts: seq<string>): string {
    Join("", parts)
  }

  /** explode($sep, $s) for a non-empty separator: the pieces between the occurrences of
      `sep`, found left to right without overlap; at least one piece, and joining them
      back with `sep` gives `s`. */
  function Explode(sep: string, s: string): (parts: seq<string>)
    requires |sep| > 0
    ensures |parts| >= 1
    ensures Join(sep, parts) == s
    ensures |sep| == 1 ==> forall i :: 0 <= i < |parts| ==> sep[0] !in parts[i]
    decreases |s|
  {
    if |s| < |sep| then [s]
    else if s[..|sep|] == sep then
      var rest := Explode(sep, s[|sep|..]);
      assert s == sep + s[|sep|..];
      JoinCons(sep, "", rest);
      FreePrepend(sep, [], rest);
      [""] + rest
    else
      var rest := Explode(sep, s[1..]);
      assert s == [s[0]] + s[1..];
      JoinPrepend(sep, [s[0]], rest);
      FreePrepend(sep, [s[0]], rest);
      [[s[0]] + rest[0]] + rest[1..]
  }

  /** A part in front of at least one other joins on before a separator. */
  lemma JoinCons(sep: string, a: string, rest: seq<string>)
    requires |rest| >= 1
    ensures Join(sep, [a] + rest) == a + sep + Join(sep, rest)
  {
    assert ([a] + rest)[1..] == rest;
  }

  /** Prepending text free of a one-character separator to the first part keeps every
      part free of it; an empty part in front is free of it too. */
  lemma FreePrepend(sep: string, c: string, rest: seq<string>)
    requires |sep| > 0 && |rest| >= 1 && |c| <= 1
    requires |sep| == 1 ==> (forall i :: 0 <= i < |rest| ==> sep[0] !in rest[i]) && sep[0] !in c
    ensures |sep| == 1 ==> forall i :: 0 <= i < |rest| ==> sep[0] !in ([c + rest[0]] + rest[1..])[i]
    ensures |sep| == 1 ==> forall i :: 0 <= i < |rest| + 1 ==> sep[0] !in ([""] + rest)[i]
  {
  }

  /** Text put before the first part comes first in the joined string. */
  lemma JoinPrepend(sep: string, c: string, rest: seq<string>)
    requires |rest| >= 1
    ensures Join(sep, [c + rest[0]] + rest[1..]) == c + Join(sep, rest)
  {
    if |rest| > 1 {
      JoinCons(sep, c + rest[0], rest[1..]);
      JoinCons(sep, rest[0], rest[1..]);
      assert [rest[0]] + rest[1..] == rest;
    }
  }

  lemma {:induction false} ExplodeFreePrefix(sep: string, p: string, t: string)
    requires |sep| > 0 && sep[0] !in p
    ensures Explode(sep, p + t) == [p + Explode(sep, t)[0]] + Explode(sep, t)[1..]
    decreases |p|
  {
    if p != [] {
      var s := p + t;
      assert s[1..] == p[1..] + t;
      ExplodeFreePrefix(sep, p[1..], t);
      if |s| >= |sep| {
        assert s[0] != sep[0];
        assert s[..|sep|] != sep;
      } else {
        assert Explode(sep, t) == [t];
      }
      assert [s[0]] + (p[1..] + Explode(sep, t)[0]) == p + Explode(sep, t)[0];
    } else {
      var e := Explode(sep, t);
      assert p + t == t && p + e[0] == e[0];
      assert [e[0]] + e[1..] == e;
    }
  }

  lemma ExplodeAtSeparator(sep: string, t: string)
    requires |sep| > 0
    ensures Explode(sep, sep + t) == [""] + Explode(sep, t)
  {
    var s := sep + t;
    assert s[..|sep|] == sep;
    assert s[|sep|..] == t;
  }

  /** explode undoes implode when no piece holds the separator's first character. */
  lemma {:induction false} ExplodeJoin(sep: string, parts: seq<string>)
    requires |sep| > 0 && |parts| >= 1
    requires forall i :: 0 <= i < |parts| ==> sep[0] !in parts[i]
    ensures Explode(sep, Join(sep, parts)) == parts
    decreases |parts|
  {
    if |parts| == 1 {
      ExplodeFreePrefix(sep, parts[0], "");
      assert parts[0] + "" == parts[0];
    } else {
      var rest := Join(sep, parts[1..]);
      ExplodeJoin(sep, parts[1..]);
      assert Join(sep, parts) == parts[0] + (sep + rest);
      ExplodeFreePrefix(sep, parts[0], sep + rest);
      ExplodeAtSeparator(sep, rest);
      assert parts[0] + "" == parts[0];
    }
  }

  lemma JoinEmptyCons(a: string, t: seq<string>)
    ensures Join("", [a] + t) == a + Join("", t)
  {
    if t == [] {
      assert [a] + t == [a];
    } else {
      assert ([a] + t)[1..] == t;
    }
  }

  /** Concatenating the pieces of explode($c, $s) is $s with every `c` removed. */
  lemma {:induction false} ConcatExplode(c: char, s: string)
    ensures Concat(Explode([c], s)) == RemoveChar(s, c)
    decreases |s|
  {
    if |s| >= 1 {
      var rest := Explode([c], s[1..]);
      ConcatExplode(c, s[1..]);
      if s[..1] == [c] {
        JoinEmptyCons("", rest);
      } else {
        assert [rest[0]] + rest[1..] == rest;
        JoinEmptyCons([s[0]] + rest[0], rest[1..]);
        JoinEmptyCons(rest[0], rest[1..]);
      }
    }
  }

  /** `p` occurs in `s` at position `i`. */
  predicate OccursAt(s: string, p: string, i: nat) {
    i + |p| <= |s| && s[i..i + |p|] == p
  }

  /** strpos($s, $p) !== false */
  predicate Contains(s: string, p: string) {
    exists i: nat :: i <= |s| && OccursAt(s, p, i)
  }

  /** A text free of `p` stays free of it with one character put in front, unless `p` then
      starts it. */
  lemma ContainsCons(c: char, t: string, p: string)
    requires |p| > 0 && !Contains(t, p)
    requires |p| <= |t| + 1 ==> ([c] + t)[..|p|] != p
    ensures !Contains([c] + t, p)
  {
    var u := [c] + t;
    forall i: nat | i <= |u| ensures !OccursAt(u, p, i) {
      if i == 0 {
        if |p| <= |u| {
          assert u[0..|p|] == u[..|p|];
        }
      } else if i + |p| <= |u| {
        assert u[i..i + |p|] == t[i - 1..i - 1 + |p|];
        assert !OccursAt(t, p, i - 1);
      }
    }
  }

  /** No piece of the explosion holds the separator, and no piece but the last runs into it
      across the cut that follows: each piece with all but the last character of the
      separator appended is still free of it. */
  ghost predicate Leftmost(sep: string, parts: seq<string>)
    requires |sep| > 0
    decreases |parts|
  {
    if |parts| <= 1 then parts == [] || !Contains(parts[0], sep)
    else !Contains(parts[0] + sep[..|sep| - 1], sep) && Leftmost(sep, parts[1..])
  }

  /** Leftmost, piece by piece. */
  lemma {:induction false} LeftmostEach(sep: string, parts: seq<string>)
    requires |sep| > 0 && |parts| >= 1 && Leftmost(sep, parts)
    ensures forall i :: 0 <= i < |parts| - 1 ==> !Contains(parts[i] + sep[..|sep| - 1], sep)
    ensures !Contains(parts[|parts| - 1], sep)
    decreases |parts|
  {
    if |parts| > 1 {
      var tail := parts[1..];
      LeftmostEach(sep, tail);
      forall i | 1 <= i < |parts| - 1 ensures !Contains(parts[i] + sep[..|sep| - 1], sep) {
        assert parts[i] == tail[i - 1];
      }
      assert parts[|parts| - 1] == tail[|tail| - 1];
    }
  }

  /** explode cuts at the leftmost occurrences of the separator. With `Join(sep, parts) == s`
      this fixes the pieces: "a|||b" on "||" gives "a" and "|b". */
  lemma {:induction false} ExplodeLeftmost(sep: string, s: string)
    requires |sep| > 0
    ensures Leftmost(sep, Explode(sep, s))
    decreases |s|
  {
    var lead := sep[..|sep| - 1];
    if |s| < |sep| {
      ShortFree(s, sep);
    } else if s[..|sep|] == sep {
      ExplodeLeftmost(sep, s[|sep|..]);
      ExplodeSeparatorStep(sep, s);
      assert "" + lead == lead;
      ShortFree(lead, sep);
      LeftmostCons(sep, "", Explode(sep, s[|sep|..]));
    } else {
      ExplodeLeftmost(sep, s[1..]);
      ExplodeCharacterStep(sep, s);
      LeftmostPastCharacter(sep, s, Explode(sep, s[1..]));
    }
  }

  /** A text shorter than the separator cannot hold it. */
  lemma ShortFree(t: string, sep: string)
    requires |t| < |sep|
    ensures !Contains(t, sep)
  {
    forall i: nat | i <= |t| ensures !OccursAt(t, sep, i) {}
  }

  lemma ExplodeSeparatorStep(sep: string, s: string)
    requires |sep| > 0 && |sep| <= |s| && s[..|sep|] == sep
    ensures Explode(sep, s) == [""] + Explode(sep, s[|sep|..])
  {
  }

  lemma ExplodeCharacterStep(sep: string, s: string)
    requires |sep| > 0 && |sep| <= |s| && s[..|sep|] != sep
    ensures var rest := Explode(sep, s[1..]);
            Explode(sep, s) == [[s[0]] + rest[0]] + rest[1..]
  {
  }

  lemma LeftmostCons(sep: string, x: string, rest: seq<string>)
    requires |sep| > 0 && |rest| >= 1
    requires !Contains(x + sep[..|sep| - 1], sep) && Leftmost(sep, rest)
    ensures Leftmost(sep, [x] + rest)
  {
    assert ([x] + rest)[1..] == rest;
  }

  /** Pieces of `s[1..]` cut at leftmost separators stay so with the first character of `s`
      put in front of the first piece, when no separator starts `s`. */
  lemma LeftmostPastCharacter(sep: string, s: string, rest: seq<string>)
    requires |sep| > 0 && |sep| <= |s| && s[..|sep|] != sep
    requires |rest| >= 1 && Join(sep, rest) == s[1..] && Leftmost(sep, rest)
    ensures Leftmost(sep, [[s[0]] + rest[0]] + rest[1..])
  {
    if |rest| == 1 {
      assert s == [s[0]] + rest[0];
      ContainsCons(s[0], rest[0], sep);
    } else {
      LeftmostPastCharacterMany(sep, s, rest);
    }
  }

  lemma LeftmostPastCharacterMany(sep: string, s: string, rest: seq<string>)
    requires |sep| > 0 && |sep| <= |s| && s[..|sep|] != sep
    requires |rest| >= 2 && Join(sep, rest) == s[1..] && Leftmost(sep, rest)
    ensures Leftmost(sep, [[s[0]] + rest[0]] + rest[1..])
  {
    var u := rest[0] + sep[..|sep| - 1];
    assert !Contains(u, sep) && Leftmost(sep, rest[1..]);
    FirstPieceIsPrefix(sep, s, rest);
    assert [s[0]] + rest[0] + sep[..|sep| - 1] == [s[0]] + u;
    FreeBehindHead(sep, s, u);
    LeftmostCons(sep, [s[0]] + rest[0], rest[1..]);
  }

  /** A piece free of the separator stays free with the text's first character in front,
      when the two start a text that the separator does not start. */
  lemma FreeBehindHead(sep: string, s: string, u: string)
    requires |sep| > 0 && |sep| <= |s| && s[..|sep|] != sep
    requires |u| + 1 <= |s| && s[..|u| + 1] == [s[0]] + u
    requires !Contains(u, sep)
    ensures !Contains([s[0]] + u, sep)
  {
    assert |sep| <= |u| + 1 ==> ([s[0]] + u)[..|sep|] == s[..|sep|];
    ContainsCons(s[0], u, sep);
  }

  /** The first piece, then all but the last character of the separator, start the text. */
  lemma FirstPieceIsPrefix(sep: string, s: string, rest: seq<string>)
    requires |sep| > 0 && |s| >= 1
    requires |rest| >= 2 && Join(sep, rest) == s[1..]
    ensures var t := [s[0]] + rest[0] + sep[..|sep| - 1];
            |t| < |s| && s[..|t|] == t
  {
    var t := [s[0]] + rest[0] + sep[..|sep| - 1];
    JoinCons(sep, rest[0], rest[1..]);
    assert [rest[0]] + rest[1..] == rest;
    assert s == [s[0]] + s[1..];
    assert s == t + ([sep[|sep| - 1]] + Join(sep, rest[1..]));
  }

  /** strpos($s, $p) === 0 */
  predicate StartsWith(s: string, p: string) {
    |p| <= |s| && s[..|p|] == p
  }

  /** str_replace($pat, "", $s): every occurrence of `pat`, found left to right without
      overlap, is cut out; the text that results is not searched again. */
  function RemoveAll(s: string, pat: string): (r: string)
    requires |pat| > 0
    ensures |r| <= |s|
    decreases |s|
  {
    if |s| < |pat| then s
    else if s[..|pat|] == pat then RemoveAll(s[|pat|..], pat)
    else [s[0]] + RemoveAll(s[1..], pat)
  }

  /** Cutting a pattern out of text that holds none of its first character changes nothing. */
  lemma {:induction false} RemoveAllAbsent(s: string, pat: string)
    requires |pat| > 0 && pat[0] !in s
    ensures RemoveAll(s, pat) == s
    decreases |s|
  {
    if |s| >= |pat| {
      assert s[0] != pat[0];
      RemoveAllAbsent(s[1..], pat);
      assert s == [s[0]] + s[1..];
    }
  }

  /** str_replace removes an appended pattern whose first character occurs nowhere else
      in the result. */
  lemma {:induction false} RemoveAllSuffix(s: string, pat: string)
    requires |pat| > 0 && pat[0] !in s && pat[0] !in pat[1..]
    ensures RemoveAll(s + pat, pat) == s
    decreases |s|
  {
    var t := s + pat;
    if s == [] {
      assert t[..|pat|] == pat;
      assert t[|pat|..] == [];
    } else {
      assert t[0] == s[0] != pat[0];
      assert t[..|pat|] != pat;
      assert t[1..] == s[1..] + pat;
      RemoveAllSuffix(s[1..], pat);
      assert s == [s[0]] + s[1..];
    }
  }

  /** str_replace($c, "", $s) for a one-character pattern. */
  function RemoveChar(s: string, c: char): (r: string)
    ensures c !in r
    ensures c !in s ==> r == s
    ensures forall x :: x != c ==> (x in r <==> x in s)
  {
    if s == [] then []
    else if s[0] == c then RemoveChar(s[1..], c)
    else [s[0]] + RemoveChar(s[1..], c)
  }

  predicate IsDigit(c: char) {
    '0' <= c <= '9'
  }

  /** The decimal digits of a natural number, without leading zeros. */
  function NatText(n: nat): (r: string)
    ensures |r| >= 1 && (forall i :: 0 <= i < |r| ==> IsDigit(r[i]))
    ensures r[0] == '0' <==> n == 0
    decreases n
  {
    if n < 10 then [(48 + n) as char]
    else NatText(n / 10) + [(48 + n % 10) as char]
  }

  /** (string)$i for an integer. */
  function IntText(i: int): (r: string)
    ensures |r| >= 1
    ensures forall k :: 0 <= k < |r| ==> IsDigit(r[k]) || r[k] == '-'
  {
    if i < 0 then "-" + NatText(-i) else NatText(i)
  }
}
