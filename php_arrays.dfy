/** PHP's ordered arrays, as the importer uses them: a sequence of key/value entries in
    insertion order. Assigning to an existing key replaces its value in place; assigning to a
    new key appends; `+` keeps the left operand's entries and appends the right operand's
    entries whose keys are new; array_push appends under the next free integer key.
    Where PHP 8 throws (a named offset written into a string, array_push or count given a
    non-array, `+` with a non-array operand) the operations return a `Fault`. A write through
    a string also faults when its offset is an integer, where PHP 8 writes one character. */
module PhpArrays {
  import opened Results
  import opened Text

  /** An array key. PHP turns a string key that spells a 64-bit integer in canonical decimal
      form into an integer key; every other string stays a string key. */
  datatype Key = Name(name: string) | Index(index: int)

  datatype Value = Null | Str(s: string) | Arr(entries: seq<Entry>)

  datatype Entry = Entry(key: Key, value: Value)

  type PhpArray = seq<Entry>

  /** The errors PHP 8 throws in the operations modelled here. */
  datatype Fault =
    | StringOffset          // a string where a write or a named read needs an array
    | NotAnArray            // array_push, count or fputcsv given something other than an array
    | UnsupportedOperands   // `+` with an operand that is not an array

  const MaxInt: int := 0x7FFF_FFFF_FFFF_FFFF

  predicate AllDigits(s: string) {
    forall i :: 0 <= i < |s| ==> IsDigit(s[i])
  }

  function DigitsValue(s: string): (n: nat)
    requires AllDigits(s)
    decreases |s|
  {
    if |s| == 0 then 0 else 10 * DigitsValue(s[..|s| - 1]) + (s[|s| - 1] as int - 48)
  }

  /** Digits with no leading zero (the single digit "0" included). */
  predicate IsCanonicalDigits(s: string) {
    |s| >= 1 && AllDigits(s) && (s[0] == '0' ==> |s| == 1)
  }

  /** The strings PHP stores as integer keys. "-0", "01", "+1" and " 1" stay strings. */
  predicate IsIntegerKey(s: string) {
    || (IsCanonicalDigits(s) && DigitsValue(s) <= MaxInt)
    || (|s| >= 2 && s[0] == '-' && s[1] != '0' && IsCanonicalDigits(s[1..])
        && DigitsValue(s[1..]) <= MaxInt + 1)
  }

  /** The key `$a[$s]` stores under. */
  function ArrayKey(s: string): (k: Key)
    ensures k.Name? <==> !IsIntegerKey(s)
    ensures k.Name? ==> k.name == s
  {
    if IsCanonicalDigits(s) && DigitsValue(s) <= MaxInt then Index(DigitsValue(s))
    else if |s| >= 2 && s[0] == '-' && s[1] != '0' && IsCanonicalDigits(s[1..])
         && DigitsValue(s[1..]) <= MaxInt + 1
    then Index(0 - DigitsValue(s[1..]))
    else Name(s)
  }

  /** The key as PHP prints it (string interpolation, str_replace on a key). */
  function KeyText(k: Key): string {
    match k
    case Name(s) => s
    case Index(i) => IntText(i)
  }

  lemma {:induction false} DigitsValuePositive(s: string)
    requires IsCanonicalDigits(s) && s[0] != '0'
    ensures DigitsValue(s) >= 1
    decreases |s|
  {
    if |s| > 1 {
      DigitsValuePositive(s[..|s| - 1]);
    }
  }

  lemma {:induction false} NatTextOfDigits(s: string)
    requires IsCanonicalDigits(s)
    ensures NatText(DigitsValue(s)) == s
    decreases |s|
  {
    if |s| > 1 {
      var p := s[..|s| - 1];
      NatTextOfDigits(p);
      DigitsValuePositive(p);
      var n := DigitsValue(s);
      assert n == 10 * DigitsValue(p) + (s[|s| - 1] as int - 48);
      assert n / 10 == DigitsValue(p) && n % 10 == s[|s| - 1] as int - 48;
      assert s == p + [s[|s| - 1]];
    }
  }

  /** Decimal printing spells the number in canonical digits, and reading them back gives
      the number. */
  lemma {:induction false} DigitsOfNatText(n: nat)
    ensures IsCanonicalDigits(NatText(n)) && DigitsValue(NatText(n)) == n
    decreases n
  {
    if n >= 10 {
      DigitsOfNatText(n / 10);
      var s := NatText(n);
      var p := NatText(n / 10);
      assert s[..|s| - 1] == p;
      assert s[0] == p[0];
    }
  }

  /** Every 64-bit integer key prints as a string that PHP stores back under that same
      integer key. */
  lemma ArrayKeyOfKeyText(i: int)
    requires -MaxInt - 1 <= i <= MaxInt
    ensures ArrayKey(KeyText(Index(i))) == Index(i)
  {
    if i >= 0 {
      DigitsOfNatText(i);
    } else {
      DigitsOfNatText(-i);
      var s := IntText(i);
      assert s[1..] == NatText(-i);
    }
  }

  /** A string that starts with neither a digit nor '-' stays a string key. */
  lemma NameKey(s: string)
    requires |s| > 0 && !IsDigit(s[0]) && s[0] != '-'
    ensures ArrayKey(s) == Name(s)
  {
  }

  /** A key prints back as the string it was stored under. */
  lemma KeyTextOfArrayKey(s: string)
    ensures KeyText(ArrayKey(s)) == s
  {
    if IsCanonicalDigits(s) && DigitsValue(s) <= MaxInt {
      NatTextOfDigits(s);
    } else if |s| >= 2 && s[0] == '-' && s[1] != '0' && IsCanonicalDigits(s[1..])
      && DigitsValue(s[1..]) <= MaxInt + 1 {
      NatTextOfDigits(s[1..]);
      DigitsValuePositive(s[1..]);
      assert s == "-" + s[1..];
    }
  }

  predicate HasKey(a: PhpArray, k: Key) {
    exists i :: 0 <= i < |a| && a[i].key == k
  }

  predicate UniqueKeys(a: PhpArray) {
    forall i, j :: 0 <= i < j < |a| ==> a[i].key != a[j].key
  }

  function Keys(a: PhpArray): (ks: seq<Key>)
    ensures |ks| == |a| && forall i :: 0 <= i < |a| ==> ks[i] == a[i].key
  {
    seq(|a|, i requires 0 <= i < |a| => a[i].key)
  }

  /** The position of the entry with key `k`. */
  function Find(a: PhpArray, k: Key): (r: Option<nat>)
    ensures r.None? <==> !HasKey(a, k)
    ensures r.Some? ==> r.value < |a| && a[r.value].key == k
    ensures r.Some? ==> forall i :: 0 <= i < r.value ==> a[i].key != k
  {
    if |a| == 0 then None
    else if a[0].key == k then Some(0)
    else match Find(a[1..], k)
      case None => None
      case Some(i) => Some(i + 1)
  }

  /** `array_key_exists($k, $a) ? $a[$k] : absent`. */
  lemma {:induction false} FindFirst(a: PhpArray, k: Key, i: nat)
    requires i < |a| && a[i].key == k && forall j :: 0 <= j < i ==> a[j].key != k
    ensures Find(a, k) == Some(i)
    decreases i
  {
    if i > 0 {
      FindFirst(a[1..], k, i - 1);
    }
  }

  lemma HasKeyCons(b: PhpArray, k: Key)
    requires |b| > 0
    ensures HasKey(b, k) <==> b[0].key == k || HasKey(b[1..], k)
  {
    if HasKey(b, k) && b[0].key != k {
      var i :| 0 <= i < |b| && b[i].key == k;
      assert b[1..][i - 1].key == k;
    }
    if HasKey(b[1..], k) {
      var i :| 0 <= i < |b[1..]| && b[1..][i].key == k;
      assert b[i + 1].key == k;
    }
  }

  function Get(a: PhpArray, k: Key): (r: Option<Value>)
    ensures r.Some? <==> HasKey(a, k)
  {
    match Find(a, k)
    case None => None
    case Some(i) => Some(a[i].value)
  }

  lemma GetAt(a: PhpArray, i: nat)
    requires i < |a| && UniqueKeys(a)
    ensures Get(a, a[i].key) == Some(a[i].value)
  {
  }

  lemma GetAppend(a: PhpArray, e: Entry, k: Key)
    ensures Get(a + [e], k) == if HasKey(a, k) then Get(a, k) else if e.key == k then Some(e.value) else None
  {
    var r := Find(a + [e], k);
    if HasKey(a, k) {
      var i := Find(a, k).value;
      assert (a + [e])[i] == a[i];
      assert r.value == i;
    } else if e.key == k {
      assert (a + [e])[|a|].key == k;
    }
  }

  /** `$a[$k] = $v`. */
  function Set(a: PhpArray, k: Key, v: Value): (r: PhpArray)
    ensures Get(r, k) == Some(v)
    ensures forall k' :: k' != k ==> Get(r, k') == Get(a, k')
    ensures forall k' :: HasKey(r, k') <==> HasKey(a, k') || k' == k
    ensures UniqueKeys(a) ==> UniqueKeys(r)
  {
    match Find(a, k)
    case Some(i) =>
      var r := a[i := Entry(k, v)];
      FindFirst(r, k, i);
      forall k' | k' != k ensures Get(r, k') == Get(a, k') {
        if HasKey(a, k') {
          var j := Find(a, k').value;
          assert r[j] == a[j];
          FindFirst(r, k', j);
        } else {
          assert !HasKey(r, k');
        }
      }
      assert forall k' :: HasKey(r, k') <==> HasKey(a, k') || k' == k by {
        forall k' ensures HasKey(r, k') <==> HasKey(a, k') || k' == k {
          if k' != k {
            assert Get(r, k').Some? == Get(a, k').Some?;
          }
        }
      }
      assert Keys(r) == Keys(a);
      r
    case None =>
      var r := a + [Entry(k, v)];
      forall k' ensures Get(r, k') == if k' == k then Some(v) else Get(a, k') {
        GetAppend(a, Entry(k, v), k');
      }
      forall k' ensures HasKey(r, k') <==> HasKey(a, k') || k' == k {
        assert Get(r, k').Some? <==> HasKey(r, k');
      }
      r
  }

  /** A lookup in two arrays laid end to end finds the first one's entry first. */
  lemma {:induction false} GetConcat(a: PhpArray, b: PhpArray, k: Key)
    ensures Get(a + b, k) == if HasKey(a, k) then Get(a, k) else Get(b, k)
    ensures HasKey(a + b, k) <==> HasKey(a, k) || HasKey(b, k)
    decreases |b|
  {
    if b == [] {
      assert a + b == a;
      assert !HasKey(b, k);
    } else {
      var front := b[..|b| - 1];
      var e := b[|b| - 1];
      assert a + b == (a + front) + [e];
      assert b == front + [e];
      GetConcat(a, front, k);
      GetAppend(a + front, e, k);
      GetAppend(front, e, k);
    }
  }

  /** An assignment to a key the first array lacks happens in the second. */
  lemma SetConcat(a: PhpArray, b: PhpArray, k: Key, v: Value)
    requires !HasKey(a, k)
    ensures Set(a + b, k, v) == a + Set(b, k, v)
  {
    GetConcat(a, b, k);
    if HasKey(b, k) {
      ConcatFind(a, b, k);
      SetConcatFound(a, b, k, v);
    } else {
      assert (a + b) + [Entry(k, v)] == a + (b + [Entry(k, v)]);
    }
  }

  lemma SetConcatFound(a: PhpArray, b: PhpArray, k: Key, v: Value)
    requires Find(b, k).Some? && Find(a + b, k) == Some(|a| + Find(b, k).value)
    ensures Set(a + b, k, v) == a + Set(b, k, v)
  {
    UpdateConcat(a, b, Find(b, k).value, Entry(k, v));
  }

  /** An update inside the second of two sequences laid end to end. */
  lemma UpdateConcat(a: PhpArray, b: PhpArray, j: nat, e: Entry)
    requires j < |b|
    ensures (a + b)[|a| + j := e] == a + b[j := e]
  {
  }

  /** A key the first array lacks is found in the second, after the first's entries. */
  lemma {:induction false} ConcatFind(a: PhpArray, b: PhpArray, k: Key)
    requires !HasKey(a, k) && HasKey(b, k)
    ensures Find(a + b, k) == Some(|a| + Find(b, k).value)
    decreases |a|
  {
    if |a| == 0 {
      assert a + b == b;
    } else {
      assert (a + b)[0] == a[0];
      assert (a + b)[1..] == a[1..] + b;
      assert !HasKey(a[1..], k) by {
        forall i | 0 <= i < |a[1..]| ensures a[1..][i].key != k {
          assert a[1..][i] == a[i + 1];
        }
      }
      ConcatFind(a[1..], b, k);
    }
  }

  /** `$a + [$k => $v]` for a key `$a` lacks appends the entry. */
  lemma UnionFresh(a: PhpArray, e: Entry)
    requires !HasKey(a, e.key)
    ensures Union(a, [e]) == a + [e]
  {
    assert [e][1..] == [];
  }

  /** Two arrays with unique keys and no key in common make one with unique keys. */
  lemma UniqueConcat(a: PhpArray, b: PhpArray)
    requires UniqueKeys(a) && UniqueKeys(b)
    requires forall k :: HasKey(a, k) ==> !HasKey(b, k)
    ensures UniqueKeys(a + b)
  {
    forall i, j | 0 <= i < j < |a + b|
      ensures (a + b)[i].key != (a + b)[j].key
    {
      if i < |a| <= j {
        assert (a + b)[i] == a[i] && (a + b)[j] == b[j - |a|];
        assert HasKey(a, a[i].key);
        assert HasKey(b, b[j - |a|].key);
      } else if j < |a| {
        assert (a + b)[i] == a[i] && (a + b)[j] == a[j];
      } else {
        assert (a + b)[i] == b[i - |a|] && (a + b)[j] == b[j - |a|];
      }
    }
  }

  /** An array is its front followed by its last entry. */
  lemma FrontLast(a: PhpArray)
    requires |a| > 0
    ensures a[..|a| - 1] + [a[|a| - 1]] == a
  {
  }

  /** Dropping the last entry of an array with unique keys leaves unique keys, none of them
      the dropped one's. */
  lemma UniqueFront(a: PhpArray)
    requires UniqueKeys(a) && |a| > 0
    ensures UniqueKeys(a[..|a| - 1]) && !HasKey(a[..|a| - 1], a[|a| - 1].key)
  {
    var front := a[..|a| - 1];
    forall i, j | 0 <= i < j < |front| ensures front[i].key != front[j].key {
      assert front[i] == a[i] && front[j] == a[j];
    }
    forall i | 0 <= i < |front| ensures front[i].key != a[|a| - 1].key {
      assert front[i] == a[i];
    }
  }

  /** Assigning the same key twice keeps only the second value, in the first one's place. */
  lemma SetTwice(a: PhpArray, k: Key, v: Value, w: Value)
    ensures Set(Set(a, k, v), k, w) == Set(a, k, w)
  {
    if HasKey(a, k) {
      var i := Find(a, k).value;
      FindFirst(Set(a, k, v), k, i);
    } else {
      FindFirst(Set(a, k, v), k, |a|);
    }
  }

  /** `$a + $b`: the entries of `a`, then those entries of `b` whose keys are not there yet. */
  function Union(a: PhpArray, b: PhpArray): (r: PhpArray)
    ensures forall k :: Get(r, k) == if HasKey(a, k) then Get(a, k) else Get(b, k)
    ensures forall k :: HasKey(r, k) <==> HasKey(a, k) || HasKey(b, k)
    ensures |a| <= |r| && r[..|a|] == a
    ensures UniqueKeys(a) ==> UniqueKeys(r)
    decreases |b|
  {
    if |b| == 0 then a
    else
      var acc := if HasKey(a, b[0].key) then a else a + [b[0]];
      var r := Union(acc, b[1..]);
      forall k ensures Get(r, k) == (if HasKey(a, k) then Get(a, k) else Get(b, k))
                   && (HasKey(r, k) <==> HasKey(a, k) || HasKey(b, k)) {
        UnionStep(a, b, k);
      }
      assert r[..|a|] == acc[..|a|];
      r
  }

  lemma UnionStep(a: PhpArray, b: PhpArray, k: Key)
    requires |b| > 0
    ensures var acc := if HasKey(a, b[0].key) then a else a + [b[0]];
            && (HasKey(acc, k) <==> HasKey(a, k) || k == b[0].key)
            && Get(acc, k) == (if HasKey(a, k) then Get(a, k) else if k == b[0].key then Some(b[0].value) else None)
            && (HasKey(b, k) <==> b[0].key == k || HasKey(b[1..], k))
            && (k != b[0].key ==> Get(b, k) == Get(b[1..], k))
            && (k == b[0].key ==> Get(b, k) == Some(b[0].value))
  {
    GetAppend(a, b[0], k);
    HasKeyCons(b, k);
    var acc := if HasKey(a, b[0].key) then a else a + [b[0]];
    assert Get(acc, k).Some? <==> HasKey(acc, k);
  }

  /** `$a + $b` is `$a` when every key of `$b` is already in `$a`. */
  lemma {:induction false} UnionCovered(a: PhpArray, b: PhpArray)
    requires forall k :: HasKey(b, k) ==> HasKey(a, k)
    ensures Union(a, b) == a
    decreases |b|
  {
    if |b| > 0 {
      assert HasKey(b, b[0].key);
      forall k | HasKey(b[1..], k) ensures HasKey(a, k) {
        HasKeyCons(b, k);
      }
      UnionCovered(a, b[1..]);
    }
  }

  /** `$a + $b` lays the arrays end to end when they share no key and `$b` repeats none. */
  lemma {:induction false} UnionDisjoint(a: PhpArray, b: PhpArray)
    requires UniqueKeys(b) && forall k :: HasKey(b, k) ==> !HasKey(a, k)
    ensures Union(a, b) == a + b
    decreases |b|
  {
    if |b| > 0 {
      assert HasKey(b, b[0].key);
      UnionFirst(a, b);
      DisjointTail(a, b);
      UnionDisjoint(a + [b[0]], b[1..]);
    }
  }

  /** A first entry of `b` whose key `a` lacks is appended. */
  lemma UnionFirst(a: PhpArray, b: PhpArray)
    requires |b| > 0 && !HasKey(a, b[0].key)
    ensures Union(a, b) == Union(a + [b[0]], b[1..])
  {
  }

  /** The rest of `b` shares no key with `a` and its first entry, and repeats none. */
  lemma DisjointTail(a: PhpArray, b: PhpArray)
    requires |b| > 0 && UniqueKeys(b) && forall k :: HasKey(b, k) ==> !HasKey(a, k)
    ensures UniqueKeys(b[1..]) && forall k :: HasKey(b[1..], k) ==> !HasKey(a + [b[0]], k)
    ensures (a + [b[0]]) + b[1..] == a + b
  {
    TailUnique(b);
    TailFresh(a, b);
    assert (a + [b[0]]) + b[1..] == a + ([b[0]] + b[1..]);
    assert [b[0]] + b[1..] == b;
  }

  lemma TailUnique(b: PhpArray)
    requires |b| > 0 && UniqueKeys(b)
    ensures UniqueKeys(b[1..])
  {
    forall i, j | 0 <= i < j < |b[1..]| ensures b[1..][i].key != b[1..][j].key {
      assert b[1..][i] == b[i + 1] && b[1..][j] == b[j + 1];
    }
  }

  lemma TailFresh(a: PhpArray, b: PhpArray)
    requires |b| > 0 && UniqueKeys(b) && forall k :: HasKey(b, k) ==> !HasKey(a, k)
    ensures forall k :: HasKey(b[1..], k) ==> !HasKey(a + [b[0]], k)
  {
    forall k | HasKey(b[1..], k) ensures !HasKey(a + [b[0]], k) {
      HasKeyCons(b, k);
      var i :| 0 <= i < |b[1..]| && b[1..][i].key == k;
      assert b[i + 1].key == k;
      GetAppend(a, b[0], k);
    }
  }

  /** `$a += [$k => $v]` for one entry: kept out when the key is already there. */
  function UnionOne(a: PhpArray, e: Entry): (r: PhpArray)
    ensures UniqueKeys(a) ==> UniqueKeys(r)
  {
    if HasKey(a, e.key) then a else a + [e]
  }

  /** It is the union with the one-entry array. */
  lemma UnionOneIsUnion(a: PhpArray, e: Entry)
    ensures UnionOne(a, e) == Union(a, [e])
  {
    if !HasKey(a, e.key) {
      UnionFresh(a, e);
    } else {
      UnionCovered(a, [e]);
    }
  }

  /** The set of keys of an array. */
  function KeySet(a: PhpArray): (ks: set<Key>)
    ensures forall k :: k in ks <==> HasKey(a, k)
  {
    set i | 0 <= i < |a| :: a[i].key
  }

  /** An array that repeats no key has as many keys as entries. */
  lemma {:induction false} KeySetSize(a: PhpArray)
    requires UniqueKeys(a)
    ensures |KeySet(a)| == |a|
    decreases |a|
  {
    if |a| > 0 {
      var front := a[..|a| - 1];
      UniqueFront(a);
      KeySetSize(front);
      KeySetFront(a);
    }
  }

  /** The keys of an array are those of its front and the last entry's key. */
  lemma KeySetFront(a: PhpArray)
    requires |a| > 0
    ensures KeySet(a) == KeySet(a[..|a| - 1]) + {a[|a| - 1].key}
  {
    var front := a[..|a| - 1];
    forall k ensures k in KeySet(a) <==> k in KeySet(front) + {a[|a| - 1].key} {
      if k in KeySet(a) && k != a[|a| - 1].key {
        var i :| 0 <= i < |a| && a[i].key == k;
        assert front[i] == a[i];
      }
      if k in KeySet(front) {
        var i :| 0 <= i < |front| && front[i].key == k;
        assert a[i] == front[i];
      }
    }
  }

  /** The key array_push uses, as PHP before 8.3 chooses it: one more than the largest integer
      key, and 0 when there is none or all are negative. */
  function NextIndex(a: PhpArray): (n: nat)
    ensures forall i :: 0 <= i < |a| && a[i].key.Index? ==> a[i].key.index < n
    ensures !HasKey(a, Index(n))
  {
    if |a| == 0 then 0
    else
      var m := NextIndex(a[..|a| - 1]);
      var k := a[|a| - 1].key;
      var n := if k.Index? && k.index + 1 > m then k.index + 1 else m;
      assert forall i :: 0 <= i < |a| - 1 ==> a[i] == a[..|a| - 1][i];
      n
  }

  /** The index array_push uses is one more than an integer key unless it is 0, so with the
      bound of NextIndex it is one more than the largest integer key, or 0 when no integer key
      is non-negative. */
  lemma {:induction false} NextIndexValue(a: PhpArray)
    ensures NextIndex(a) > 0 ==> HasKey(a, Index(NextIndex(a) - 1))
    decreases |a|
  {
    if |a| > 0 {
      var front := a[..|a| - 1];
      NextIndexValue(front);
      if NextIndex(a) > 0 {
        if NextIndex(a) == NextIndex(front) {
          var k :| 0 <= k < |front| && front[k].key == Index(NextIndex(front) - 1);
          assert a[k] == front[k];
        } else {
          assert a[|a| - 1].key == Index(NextIndex(a) - 1);
        }
      }
    }
  }

  /** array_push($a, $v). */
  function Push(a: PhpArray, v: Value): (r: PhpArray)
    ensures UniqueKeys(a) ==> UniqueKeys(r)
  {
    a + [Entry(Index(NextIndex(a)), v)]
  }

  /** array_push is the assignment to the next free index. */
  lemma PushIsSet(a: PhpArray, v: Value)
    ensures Push(a, v) == Set(a, Index(NextIndex(a)), v)
  {
  }

  /** `unset($a[$k])`: the entry goes, the others keep their order. */
  function Unset(a: PhpArray, k: Key): (r: PhpArray)
    ensures !HasKey(r, k)
    ensures forall k' :: k' != k ==> Get(r, k') == Get(a, k')
    ensures UniqueKeys(a) ==> UniqueKeys(r)
    ensures !HasKey(a, k) ==> r == a
    ensures forall i :: 0 <= i < |r| ==> exists j :: 0 <= j < |a| && r[i] == a[j]
    decreases |a|
  {
    if a == [] then []
    else
      var n := |a| - 1;
      var front := a[..n];
      var r := Unset(front, k);
      assert forall i :: 0 <= i < n ==> front[i] == a[i];
      assert a == front + [a[n]];
      forall k' | k' != k ensures Get(a, k') == if HasKey(front, k') then Get(front, k') else if a[n].key == k' then Some(a[n].value) else None {
        GetAppend(front, a[n], k');
      }
      if a[n].key == k then r
      else
        forall k' | k' != k ensures Get(r + [a[n]], k') == Get(a, k') {
          GetAppend(r, a[n], k');
        }
        r + [a[n]]
  }

  /** At least one key is a string (has_string_keys). */
  predicate HasStringKeys(a: PhpArray) {
    exists i :: 0 <= i < |a| && a[i].key.Name?
  }

  /** At least one value is an array (has_array_values). */
  predicate HasArrayValues(a: PhpArray) {
    exists i :: 0 <= i < |a| && a[i].value.Arr?
  }

  /** is_compound_value: an array with a string key or an array member. */
  predicate IsCompound(v: Value) {
    v.Arr? && (HasStringKeys(v.entries) || HasArrayValues(v.entries))
  }

  /** is_array_associative: an array with a string key. */
  predicate IsAssociative(v: Value) {
    v.Arr? && HasStringKeys(v.entries)
  }

  /** `$a[$p0][$p1]...` read without auto-creation: absent when a step is missing or not an array. */
  function GetPath(a: PhpArray, path: seq<Key>): Option<Value>
    requires |path| >= 1
    decreases |path|
  {
    match Get(a, path[0])
    case None => None
    case Some(v) =>
      if |path| == 1 then Some(v)
      else if v.Arr? then GetPath(v.entries, path[1..])
      else None
  }

  /** A string stands where the write `$a[$p0]...[$pn] = $x` needs an array. */
  predicate PathBlocked(a: PhpArray, path: seq<Key>)
    requires |path| >= 1
    decreases |path|
  {
    |path| > 1 &&
    match Get(a, path[0])
    case Some(Str(_)) => true
    case Some(Arr(b)) => PathBlocked(b, path[1..])
    case _ => false
  }

  /** The two key paths part ways at some step. */
  predicate Diverge(p: seq<Key>, q: seq<Key>) {
    |p| >= 1 && |q| >= 1 && (p[0] != q[0] || Diverge(p[1..], q[1..]))
  }

  /** `$a[$p0][$p1]...[$pn] = $x`: missing or null steps become new arrays; a string in
      the way makes PHP 8 throw. */
  function WritePath(a: PhpArray, path: seq<Key>, x: Value): (r: Result<PhpArray, Fault>)
    requires |path| >= 1
    ensures r.Err? <==> PathBlocked(a, path)
    ensures r.Ok? ==> GetPath(r.value, path) == Some(x)
    ensures r.Ok? && |path| > 1 ==> Get(r.value, path[0]).Some? && Get(r.value, path[0]).value.Arr?
    ensures r.Ok? ==> forall k :: k != path[0] ==> Get(r.value, k) == Get(a, k)
    ensures r.Ok? ==> forall k :: HasKey(r.value, k) <==> HasKey(a, k) || k == path[0]
    ensures r.Ok? && UniqueKeys(a) ==> UniqueKeys(r.value)
    decreases |path|
  {
    if |path| == 1 then Ok(Set(a, path[0], x))
    else
      var inner: PhpArray :-
        match Get(a, path[0])
        case Some(Str(_)) => Err(StringOffset)
        case Some(Arr(b)) => WritePath(b, path[1..], x)
        case _ => WritePath([], path[1..], x);
      Ok(Set(a, path[0], Arr(inner)))
  }

  /** A write leaves alone every path that parts ways with the written one. */
  lemma {:induction false} WritePathFrame(a: PhpArray, path: seq<Key>, x: Value, q: seq<Key>)
    requires |path| >= 1 && |q| >= 1 && Diverge(path, q)
    requires WritePath(a, path, x).Ok?
    ensures GetPath(WritePath(a, path, x).value, q) == GetPath(a, q)
    decreases |path|
  {
    var r := WritePath(a, path, x).value;
    if path[0] != q[0] {
      assert Get(r, q[0]) == Get(a, q[0]);
    } else {
      assert |path| > 1 && |q| > 1;
      match Get(a, path[0])
      case Some(Arr(b)) =>
        WritePathFrame(b, path[1..], x, q[1..]);
      case Some(Str(_)) =>
      case _ =>
        var inner := WritePath([], path[1..], x).value;
        WritePathFrame([], path[1..], x, q[1..]);
        assert GetPath([], q[1..]) == None;
    }
  }

  /** Two different paths of the same length part ways somewhere. */
  lemma {:induction false} DistinctPathsDiverge(p: seq<Key>, q: seq<Key>)
    requires |p| == |q| >= 1 && p != q
    ensures Diverge(p, q)
    decreases |p|
  {
    if p[0] == q[0] {
      assert |p| > 1;
      assert p == [p[0]] + p[1..] && q == [q[0]] + q[1..];
      DistinctPathsDiverge(p[1..], q[1..]);
    }
  }

  /** One more step along a path that leads to an array is a lookup in that array. */
  lemma {:induction false} GetPathExtend(a: PhpArray, p: seq<Key>, k: Key)
    requires |p| >= 1
    requires GetPath(a, p).Some? && GetPath(a, p).value.Arr?
    ensures GetPath(a, p + [k]) == Get(GetPath(a, p).value.entries, k)
    decreases |p|
  {
    assert (p + [k])[0] == p[0];
    if |p| > 1 {
      assert (p + [k])[1..] == p[1..] + [k];
      GetPathExtend(Get(a, p[0]).value.entries, p[1..], k);
    } else {
      assert (p + [k])[1..] == [k];
    }
  }

  /** The record `$a[$k1][$k2]` that a write `$a[$k1][$k2][$k3] = $x` extends: the array
      stored there, or a new one. */
  function RecordAt(a: PhpArray, k1: Key, k2: Key): PhpArray {
    match GetPath(a, [k1, k2])
    case Some(Arr(r)) => r
    case _ => []
  }

  /** The array a write through `$a[$k]` extends: the one stored there, or a new one. */
  function ArrayAt(a: PhpArray, k: Key): PhpArray {
    match Get(a, k)
    case Some(Arr(b)) => b
    case _ => []
  }

  /** A write below an existing array entry rewrites that entry with the written array. */
  lemma WriteBelow(a: PhpArray, k: Key, b: PhpArray, rest: seq<Key>, x: Value)
    requires Get(a, k) == Some(Arr(b)) && |rest| >= 1 && WritePath(b, rest, x).Ok?
    ensures WritePath(a, [k] + rest, x) == Ok(Set(a, k, Arr(WritePath(b, rest, x).value)))
  {
    assert ([k] + rest)[1..] == rest;
  }

  /** `$a[$s][$k] = $x` for a field `$k` that `$a[$s]` does not hold yet (or with `$a[$s]`
      not there at all): the field is appended to the array under `$s`. */
  lemma WriteFieldAppends(a: PhpArray, s: Key, fields: PhpArray, k: Key, x: Value)
    requires Get(a, s) == Some(Arr(fields)) || (!HasKey(a, s) && fields == [])
    requires !HasKey(fields, k)
    ensures WritePath(a, [s, k], x) == Ok(Set(a, s, Arr(fields + [Entry(k, x)])))
  {
    assert Set(fields, k, x) == fields + [Entry(k, x)];
    if HasKey(a, s) {
      WriteBelow(a, s, fields, [k], x);
    } else {
      assert [s, k][1..] == [k];
    }
  }

  /** A two-step write assigns, under the first key, the extended array. */
  lemma WriteTwo(b: PhpArray, k2: Key, k3: Key, x: Value)
    requires !PathBlocked(b, [k2, k3])
    ensures WritePath(b, [k2, k3], x) == Ok(Set(b, k2, Arr(Set(ArrayAt(b, k2), k3, x))))
  {
    assert [k2, k3][1..] == [k3];
  }

  /** The record two steps down is the array below the array below. */
  lemma RecordAtSteps(a: PhpArray, k1: Key, k2: Key)
    ensures RecordAt(a, k1, k2) == ArrayAt(ArrayAt(a, k1), k2)
  {
    assert [k1, k2][1..] == [k2];
    match Get(a, k1)
    case Some(Arr(b)) =>
      assert GetPath(a, [k1, k2]) == Get(b, k2);
    case _ =>
      assert GetPath(a, [k1, k2]) == None;
  }

  /** A three-step write stores the record extended by the new entry. */
  lemma WriteLeaf(a: PhpArray, k1: Key, k2: Key, k3: Key, x: Value)
    requires !PathBlocked(a, [k1, k2, k3])
    ensures WritePath(a, [k1, k2, k3], x).Ok?
    ensures GetPath(WritePath(a, [k1, k2, k3], x).value, [k1, k2]) == Some(Arr(Set(RecordAt(a, k1, k2), k3, x)))
  {
    var p := [k1, k2, k3];
    assert p[1..] == [k2, k3];
    var b := ArrayAt(a, k1);
    assert !PathBlocked(b, [k2, k3]);
    WriteTwo(b, k2, k3, x);
    var inner := Set(b, k2, Arr(Set(ArrayAt(b, k2), k3, x)));
    assert WritePath(a, p, x) == Ok(Set(a, k1, Arr(inner)));
    RecordAtSteps(a, k1, k2);
    assert [k1, k2][1..] == [k2];
  }

  /** isset() of the offsets `rest` applied to a string of length `len`: only integer offsets
      inside the string are set, and each one yields a one-character string. */
  predicate StringOffsetsSet(len: nat, rest: seq<Key>)
    decreases |rest|
  {
    |rest| == 0 || (rest[0].Index? && 0 - len <= rest[0].index < len && StringOffsetsSet(1, rest[1..]))
  }

  /** isset($a[$p0][$p1]...[$pn]). */
  predicate IsSetPath(a: PhpArray, path: seq<Key>)
    requires |path| >= 1
    decreases |path|
  {
    match Get(a, path[0])
    case None => false
    case Some(Null) => false
    case Some(Str(s)) => StringOffsetsSet(|s|, path[1..])
    case Some(Arr(b)) => |path| == 1 || IsSetPath(b, path[1..])
  }

  /** Along named offsets, isset is "the path leads to a value that is not null". */
  lemma {:induction false} IsSetNamedPath(a: PhpArray, path: seq<Key>)
    requires |path| >= 1 && forall j :: 1 <= j < |path| ==> path[j].Name?
    ensures IsSetPath(a, path) <==> GetPath(a, path).Some? && GetPath(a, path) != Some(Null)
    decreases |path|
  {
    if |path| > 1 {
      match Get(a, path[0])
      case Some(Arr(b)) => IsSetNamedPath(b, path[1..]);
      case _ =>
    }
  }

  /** A write one step below an array that is already there is never refused. */
  lemma {:induction false} OpenBelowArray(a: PhpArray, p: seq<Key>, k: Key)
    requires |p| >= 1 && GetPath(a, p).Some? && GetPath(a, p).value.Arr?
    ensures !PathBlocked(a, p + [k])
    decreases |p|
  {
    assert (p + [k])[0] == p[0];
    if |p| > 1 {
      assert (p + [k])[1..] == p[1..] + [k];
      OpenBelowArray(Get(a, p[0]).value.entries, p[1..], k);
    }
  }
}
