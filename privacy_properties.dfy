/** What the privacy split promises: every field ends up in the group its mapping selects,
    with its value; sections it does not split are copied; and splitting twice is splitting
    once. */
module PrivacyProperties {
  import opened Results
  import opened PhpArrays
  import opened Literals
  import opened Privacy

  /** The fields of `v` that go to the private group (`priv`) or stay (`!priv`), in order. */
  function Part(fields: seq<FieldMapping>, v: PhpArray, priv: bool): PhpArray
    decreases |v|
  {
    if v == [] then []
    else Part(fields, v[..|v| - 1], priv) + (if IsPrivateField(fields, v[|v| - 1].key) == priv then [v[|v| - 1]] else [])
  }

  /** A group as the split leaves it: absent when no field goes to it. */
  function Group(p: PhpArray): Option<Value> {
    if p == [] then None else Some(Arr(p))
  }

  /** A part holds only fields routed its way. */
  lemma {:induction false} PartRouted(fields: seq<FieldMapping>, v: PhpArray, priv: bool)
    ensures forall j :: 0 <= j < |Part(fields, v, priv)| ==> IsPrivateField(fields, Part(fields, v, priv)[j].key) == priv
    decreases |v|
  {
    if v != [] {
      PartRouted(fields, v[..|v| - 1], priv);
    }
  }

  /** A part holds only keys of the section. */
  lemma {:induction false} PartKeys(fields: seq<FieldMapping>, v: PhpArray, priv: bool)
    ensures forall k :: HasKey(Part(fields, v, priv), k) ==> HasKey(v, k)
    decreases |v|
  {
    if v != [] {
      var front := v[..|v| - 1];
      var e := v[|v| - 1];
      PartKeys(fields, front, priv);
      assert v == front + [e];
      forall k | HasKey(Part(fields, v, priv), k)
        ensures HasKey(v, k)
      {
        GetAppend(front, e, k);
        GetAppend(Part(fields, front, priv), e, k);
        if HasKey(Part(fields, front, priv), k) {
          assert HasKey(front, k);
        } else {
          assert Part(fields, v, priv) == Part(fields, front, priv) + [e] || Part(fields, v, priv) == Part(fields, front, priv);
        }
      }
    }
  }

  /** The part of a section with unique keys has unique keys, and holds exactly the fields
      routed its way, each with its value. */
  lemma {:induction false} PartGet(fields: seq<FieldMapping>, v: PhpArray, priv: bool)
    requires UniqueKeys(v)
    ensures UniqueKeys(Part(fields, v, priv))
    ensures forall k :: Get(Part(fields, v, priv), k) == if IsPrivateField(fields, k) == priv then Get(v, k) else None
    decreases |v|
  {
    if v != [] {
      var front := v[..|v| - 1];
      var e := v[|v| - 1];
      var pf := Part(fields, front, priv);
      UniqueFront(v);
      PartGet(fields, front, priv);
      PartKeys(fields, front, priv);
      assert v == front + [e];
      forall k ensures Get(v, k) == if HasKey(front, k) then Get(front, k) else if e.key == k then Some(e.value) else None {
        GetAppend(front, e, k);
      }
      if IsPrivateField(fields, e.key) == priv {
        assert !HasKey(pf, e.key);
        forall k ensures Get(pf + [e], k) == if HasKey(pf, k) then Get(pf, k) else if e.key == k then Some(e.value) else None {
          GetAppend(pf, e, k);
        }
        UniqueConcat(pf, [e]);
      } else {
        assert Part(fields, v, priv) == pf;
        forall k | IsPrivateField(fields, k) == priv ensures !HasKey(pf, k) ==> k != e.key {
        }
      }
    }
  }

  /** One field appended to a group that holds `part` (nothing when `part` is empty), in a
      result that uses only that group's key and one other. */
  lemma GroupStep(prev: PhpArray, t: Key, other: Key, e: Entry, part: PhpArray)
    requires t != other && UniqueKeys(prev) && forall k :: HasKey(prev, k) ==> k == t || k == other
    requires Get(prev, t) == Group(part) && !HasKey(part, e.key)
    ensures var r := AppendNested(prev, t, e.value, e.key);
            && r.Ok? && UniqueKeys(r.value)
            && (forall k :: HasKey(r.value, k) ==> k == t || k == other)
            && Get(r.value, t) == Group(part + [e])
            && Get(r.value, other) == Get(prev, other)
  {
    if part != [] {
      UnionFresh(part, e);
      assert AppendNested(prev, t, e.value, e.key) == Ok(Set(prev, t, Arr(part + [e])));
    } else {
      assert part + [e] == [e];
      assert AppendNested(prev, t, e.value, e.key) == Ok(Set(prev, t, Arr([e])));
    }
  }

  /** The last field of a section extends the part it is routed to, and only that one. */
  lemma PartStep(fields: seq<FieldMapping>, v: PhpArray, priv: bool)
    requires |v| > 0
    ensures Part(fields, v, priv)
            == if IsPrivateField(fields, v[|v| - 1].key) == priv
               then Part(fields, v[..|v| - 1], priv) + [v[|v| - 1]] else Part(fields, v[..|v| - 1], priv)
  {
    assert Part(fields, v[..|v| - 1], priv) + [] == Part(fields, v[..|v| - 1], priv);
  }

  /** The fields of one section, split on their own, make at most the section's group and its
      private group, holding exactly the fields routed to each. */
  lemma {:induction false} SectionChunk(s: string, fields: seq<FieldMapping>, v: PhpArray)
    requires UniqueKeys(v)
    ensures var r := SplitSection([], s, fields, v);
            && r.Ok? && UniqueKeys(r.value)
            && (forall k :: HasKey(r.value, k) ==> k == Name(s) || k == PrivateKey(s))
            && Get(r.value, Name(s)) == Group(Part(fields, v, false))
            && Get(r.value, PrivateKey(s)) == Group(Part(fields, v, true))
    decreases |v|
  {
    if v != [] {
      var front := v[..|v| - 1];
      var e := v[|v| - 1];
      UniqueFront(v);
      SectionChunk(s, fields, front);
      var prev := SplitSection([], s, fields, front).value;
      var p := IsPrivateField(fields, e.key);
      PartKeys(fields, front, p);
      assert SplitSection([], s, fields, v) == AppendNested(prev, Target(s, fields, e.key), e.value, e.key);
      PartStep(fields, v, true);
      PartStep(fields, v, false);
      assert Name(s) != PrivateKey(s);
      if p {
        GroupStep(prev, PrivateKey(s), Name(s), e, Part(fields, front, true));
      } else {
        GroupStep(prev, Name(s), PrivateKey(s), e, Part(fields, front, false));
      }
    }
  }

  /** The fields of a section land after whatever the result already holds, when it holds
      neither of the section's groups. */
  lemma {:induction false} SectionLocal(acc: PhpArray, s: string, fields: seq<FieldMapping>, v: PhpArray)
    requires !HasKey(acc, Name(s)) && !HasKey(acc, PrivateKey(s))
    requires SplitSection([], s, fields, v).Ok?
    ensures SplitSection(acc, s, fields, v) == Ok(acc + SplitSection([], s, fields, v).value)
    decreases |v|
  {
    if v != [] {
      var front := v[..|v| - 1];
      var e := v[|v| - 1];
      SectionLocal(acc, s, fields, front);
      var g := SplitSection([], s, fields, front).value;
      var t := Target(s, fields, e.key);
      GetConcat(acc, g, t);
      assert SplitSection(acc, s, fields, v) == AppendNested(acc + g, t, e.value, e.key);
      assert SplitSection([], s, fields, v) == AppendNested(g, t, e.value, e.key);
      match Get(g, t)
      case Some(Arr(w)) =>
        SetConcat(acc, g, t, Arr(Union(w, [Entry(e.key, e.value)])));
      case Some(_) =>
      case None =>
        SetConcat(acc, g, t, Arr([Entry(e.key, e.value)]));
    } else {
      assert acc + [] == acc;
    }
  }

  /** PHP arrays never repeat a key; for the split, the properties and the arrays in them.
      No key of the properties, and no mapped section, ends with the private suffix. */
  predicate SplitReady(m: Mapping, props: PhpArray) {
    && MappingReady(m)
    && UniqueKeys(props)
    && (forall i :: 0 <= i < |props| ==> !IsPrivateKey(props[i].key))
    && (forall i :: 0 <= i < |props| && props[i].value.Arr? ==> UniqueKeys(props[i].value.entries))
  }

  /** What one entry of the properties contributes to the result. */
  function Chunk(m: Mapping, e: Entry): PhpArray
    requires e.value.Arr? ==> UniqueKeys(e.value.entries)
  {
    if Splits(m, e) then
      SectionChunk(e.key.name, SectionFields(m, e.key).value, e.value.entries);
      SplitSection([], e.key.name, SectionFields(m, e.key).value, e.value.entries).value
    else [e]
  }

  /** The keys an entry's contribution may use. */
  function Touched(m: Mapping, e: Entry): set<Key> {
    if Splits(m, e) then {e.key, PrivateKey(e.key.name)} else {e.key}
  }

  lemma ChunkKeys(m: Mapping, e: Entry)
    requires e.value.Arr? ==> UniqueKeys(e.value.entries)
    ensures UniqueKeys(Chunk(m, e))
    ensures forall k :: HasKey(Chunk(m, e), k) ==> k in Touched(m, e)
  {
    if Splits(m, e) {
      SectionChunk(e.key.name, SectionFields(m, e.key).value, e.value.entries);
    }
  }

  /** An entry's contribution lands after the result so far when that uses none of its keys. */
  lemma EntryLocal(m: Mapping, acc: PhpArray, e: Entry)
    requires e.value.Arr? ==> UniqueKeys(e.value.entries)
    requires forall k :: k in Touched(m, e) ==> !HasKey(acc, k)
    ensures SplitEntry(m, acc, e) == Ok(acc + Chunk(m, e))
  {
    if Splits(m, e) {
      SectionChunk(e.key.name, SectionFields(m, e.key).value, e.value.entries);
      SectionLocal(acc, e.key.name, SectionFields(m, e.key).value, e.value.entries);
    }
  }

  lemma ReadyFront(m: Mapping, props: PhpArray)
    requires SplitReady(m, props) && |props| > 0
    ensures SplitReady(m, props[..|props| - 1])
  {
    UniqueFront(props);
  }

  function Chunks(m: Mapping, props: PhpArray): PhpArray
    requires SplitReady(m, props)
    decreases |props|
  {
    if props == [] then []
    else
      ReadyFront(m, props);
      Chunks(m, props[..|props| - 1]) + Chunk(m, props[|props| - 1])
  }

  function TouchedAll(m: Mapping, props: PhpArray): set<Key>
    decreases |props|
  {
    if props == [] then {} else TouchedAll(m, props[..|props| - 1]) + Touched(m, props[|props| - 1])
  }

  lemma {:induction false} TouchedAllMember(m: Mapping, props: PhpArray, k: Key)
    requires k in TouchedAll(m, props)
    ensures exists i :: 0 <= i < |props| && k in Touched(m, props[i])
    decreases |props|
  {
    var front := props[..|props| - 1];
    if k !in Touched(m, props[|props| - 1]) {
      TouchedAllMember(m, front, k);
      var i :| 0 <= i < |front| && k in Touched(m, front[i]);
      assert props[i] == front[i];
    }
  }

  /** Under SplitReady, two entries never share a key of their contributions. */
  lemma TouchedApart(m: Mapping, e: Entry, d: Entry)
    requires e.key != d.key && !IsPrivateKey(e.key) && !IsPrivateKey(d.key)
    ensures Touched(m, e) !! Touched(m, d)
  {
    TouchedShape(m, e);
    TouchedShape(m, d);
    if e.key.Name? {
      PrivateKeyFacts(e.key.name, e.key.name);
    }
    if d.key.Name? {
      PrivateKeyFacts(d.key.name, d.key.name);
    }
    if e.key.Name? && d.key.Name? {
      PrivateKeyFacts(e.key.name, d.key.name);
    }
  }

  lemma TouchedShape(m: Mapping, e: Entry)
    ensures forall k :: k in Touched(m, e) ==> k == e.key || (e.key.Name? && k == PrivateKey(e.key.name))
  {
  }

  lemma FreshEntry(m: Mapping, props: PhpArray)
    requires SplitReady(m, props) && |props| > 0
    ensures Touched(m, props[|props| - 1]) !! TouchedAll(m, props[..|props| - 1])
  {
    var front := props[..|props| - 1];
    var e := props[|props| - 1];
    forall k | k in Touched(m, e) && k in TouchedAll(m, front)
      ensures false
    {
      TouchedAllMember(m, front, k);
      var i :| 0 <= i < |front| && k in Touched(m, front[i]);
      assert front[i] == props[i];
      TouchedApart(m, e, props[i]);
    }
  }

  /** The split is the contributions of the entries, in order. */
  lemma {:induction false} SplitChunks(m: Mapping, props: PhpArray)
    requires SplitReady(m, props)
    ensures SplitPrivate(m, props) == Ok(Chunks(m, props))
    ensures UniqueKeys(Chunks(m, props))
    ensures forall k :: HasKey(Chunks(m, props), k) ==> k in TouchedAll(m, props)
    decreases |props|
  {
    if props != [] {
      var front := props[..|props| - 1];
      var e := props[|props| - 1];
      ReadyFront(m, props);
      SplitChunks(m, front);
      var acc := Chunks(m, front);
      FreshEntry(m, props);
      EntryLocal(m, acc, e);
      ChunkKeys(m, e);
      var c := Chunk(m, e);
      assert Chunks(m, props) == acc + c;
      forall k ensures HasKey(acc + c, k) <==> HasKey(acc, k) || HasKey(c, k) {
        GetConcat(acc, c, k);
      }
      UniqueConcat(acc, c);
    }
  }

  /** Each key of the split holds what the one entry that may use it contributed. */
  lemma {:induction false} ChunksGet(m: Mapping, props: PhpArray, i: nat, k: Key)
    requires SplitReady(m, props) && i < |props| && k in Touched(m, props[i])
    ensures Get(Chunks(m, props), k) == Get(Chunk(m, props[i]), k)
    decreases |props|
  {
    var front := props[..|props| - 1];
    var e := props[|props| - 1];
    ReadyFront(m, props);
    SplitChunks(m, front);
    ChunkKeys(m, e);
    GetConcat(Chunks(m, front), Chunk(m, e), k);
    assert Chunks(m, props) == Chunks(m, front) + Chunk(m, e);
    if i < |front| {
      assert front[i] == props[i];
      ChunksGet(m, front, i, k);
      TouchedApart(m, e, props[i]);
    } else {
      FreshEntry(m, props);
    }
  }

  /** The split (document_importer.php:1045-1083): it never fails on properties whose keys
      do not already end in the private suffix. A section it splits leaves its public fields,
      the unmapped ones included, in the section's group and its private fields in the
      "<section>- PRIVADO" group, each group in field order and absent when empty. Every
      other entry (an unmapped section, a mapped section without string keys such as the
      location list) is copied unchanged, and the result has no other keys. */
  lemma SplitRouting(m: Mapping, props: PhpArray)
    requires SplitReady(m, props)
    ensures SplitPrivate(m, props).Ok?
    ensures var out := SplitPrivate(m, props).value;
            forall i :: 0 <= i < |props| && Splits(m, props[i]) ==>
              && Get(out, props[i].key) == Group(Part(SectionFields(m, props[i].key).value, props[i].value.entries, false))
              && Get(out, PrivateKey(props[i].key.name)) == Group(Part(SectionFields(m, props[i].key).value, props[i].value.entries, true))
    ensures var out := SplitPrivate(m, props).value;
            forall i :: 0 <= i < |props| && !Splits(m, props[i]) ==> Get(out, props[i].key) == Some(props[i].value)
    ensures var out := SplitPrivate(m, props).value;
            forall k :: HasKey(out, k) ==> exists i :: 0 <= i < |props| && k in Touched(m, props[i])
  {
    SplitChunks(m, props);
    forall i | 0 <= i < |props|
      ensures Splits(m, props[i]) ==>
              && Get(Chunks(m, props), props[i].key) == Group(Part(SectionFields(m, props[i].key).value, props[i].value.entries, false))
              && Get(Chunks(m, props), PrivateKey(props[i].key.name)) == Group(Part(SectionFields(m, props[i].key).value, props[i].value.entries, true))
      ensures !Splits(m, props[i]) ==> Get(Chunks(m, props), props[i].key) == Some(props[i].value)
    {
      EntryRouting(m, props, i);
    }
    forall k | HasKey(Chunks(m, props), k)
      ensures exists i :: 0 <= i < |props| && k in Touched(m, props[i])
    {
      TouchedAllMember(m, props, k);
    }
  }

  /** Where the split puts one entry of the properties. */
  lemma EntryRouting(m: Mapping, props: PhpArray, i: nat)
    requires SplitReady(m, props) && i < |props|
    ensures var e := props[i];
            Splits(m, e) ==>
              && Get(Chunks(m, props), e.key) == Group(Part(SectionFields(m, e.key).value, e.value.entries, false))
              && Get(Chunks(m, props), PrivateKey(e.key.name)) == Group(Part(SectionFields(m, e.key).value, e.value.entries, true))
    ensures !Splits(m, props[i]) ==> Get(Chunks(m, props), props[i].key) == Some(props[i].value)
  {
    var e := props[i];
    ChunksGet(m, props, i, e.key);
    if Splits(m, e) {
      ChunksGet(m, props, i, PrivateKey(e.key.name));
      SectionChunk(e.key.name, SectionFields(m, e.key).value, e.value.entries);
    } else {
      FindFirst([e], e.key, 0);
    }
  }

  /** Every field of a split section keeps its value, in the group its mapping selects, and
      is not in the other group. */
  lemma SplitKeepsFields(m: Mapping, props: PhpArray, i: nat, ik: Key)
    requires SplitReady(m, props) && i < |props| && Splits(m, props[i])
    requires HasKey(props[i].value.entries, ik)
    ensures SplitPrivate(m, props).Ok?
    ensures var s := props[i].key.name;
            var fields := SectionFields(m, props[i].key).value;
            var out := SplitPrivate(m, props).value;
            var g := Get(out, Target(s, fields, ik));
            var other := Get(out, if Target(s, fields, ik) == Name(s) then PrivateKey(s) else Name(s));
            && g.Some? && g.value.Arr? && Get(g.value.entries, ik) == Get(props[i].value.entries, ik)
            && (other.Some? ==> other.value.Arr? && !HasKey(other.value.entries, ik))
  {
    SplitRouting(m, props);
    var e := props[i];
    var fields := SectionFields(m, e.key).value;
    var v := e.value.entries;
    PartGet(fields, v, true);
    PartGet(fields, v, false);
    assert Get(v, ik).Some?;
    if IsPrivateField(fields, ik) {
      assert Get(Part(fields, v, true), ik).Some?;
    } else {
      assert Get(Part(fields, v, false), ik).Some?;
    }
  }

  /** An entry the split leaves as it is: a section it would split holds no private field
      and no repeated key. */
  predicate SettledEntry(m: Mapping, e: Entry) {
    Splits(m, e) ==>
      && UniqueKeys(e.value.entries)
      && forall j :: 0 <= j < |e.value.entries| ==> !IsPrivateField(SectionFields(m, e.key).value, e.value.entries[j].key)
  }

  predicate Settled(m: Mapping, a: PhpArray) {
    UniqueKeys(a) && forall i :: 0 <= i < |a| ==> SettledEntry(m, a[i])
  }

  /** Fields that all stay put rebuild their section's group as it was. */
  lemma {:induction false} PublicSection(acc: PhpArray, s: string, fields: seq<FieldMapping>, v: PhpArray)
    requires !HasKey(acc, Name(s)) && UniqueKeys(v) && |v| > 0
    requires forall j :: 0 <= j < |v| ==> !IsPrivateField(fields, v[j].key)
    ensures SplitSection(acc, s, fields, v) == Ok(acc + [Entry(Name(s), Arr(v))])
    decreases |v|
  {
    var front := v[..|v| - 1];
    var e := v[|v| - 1];
    PublicFront(fields, v);
    if front == [] {
      PublicFirst(acc, s, fields, v);
    } else {
      PublicSection(acc, s, fields, front);
      PublicSnoc(acc, s, fields, v);
    }
  }

  /** The fields before the last of a group that all stay put stay put too. */
  lemma PublicFront(fields: seq<FieldMapping>, v: PhpArray)
    requires UniqueKeys(v) && |v| > 0
    requires forall j :: 0 <= j < |v| ==> !IsPrivateField(fields, v[j].key)
    ensures var front := v[..|v| - 1];
            && UniqueKeys(front) && !HasKey(front, v[|v| - 1].key)
            && !IsPrivateField(fields, v[|v| - 1].key)
            && forall j :: 0 <= j < |front| ==> !IsPrivateField(fields, front[j].key)
  {
    UniqueFront(v);
    var front := v[..|v| - 1];
    assert forall j :: 0 <= j < |front| ==> front[j] == v[j];
  }

  /** The first field that stays put opens its section's group. */
  lemma PublicFirst(acc: PhpArray, s: string, fields: seq<FieldMapping>, v: PhpArray)
    requires |v| == 1 && !HasKey(acc, Name(s)) && !IsPrivateField(fields, v[0].key)
    ensures SplitSection(acc, s, fields, v) == Ok(acc + [Entry(Name(s), Arr(v))])
  {
    var e := v[0];
    assert v[..0] == [];
    assert SplitSection(acc, s, fields, v) == AppendNested(acc, Name(s), e.value, e.key);
    assert [Entry(e.key, e.value)] == v;
  }

  /** A further field that stays put joins the group built so far. */
  lemma PublicSnoc(acc: PhpArray, s: string, fields: seq<FieldMapping>, v: PhpArray)
    requires |v| > 1 && !HasKey(acc, Name(s)) && !HasKey(v[..|v| - 1], v[|v| - 1].key)
    requires !IsPrivateField(fields, v[|v| - 1].key)
    requires SplitSection(acc, s, fields, v[..|v| - 1]) == Ok(acc + [Entry(Name(s), Arr(v[..|v| - 1]))])
    ensures SplitSection(acc, s, fields, v) == Ok(acc + [Entry(Name(s), Arr(v))])
  {
    var front := v[..|v| - 1];
    var e := v[|v| - 1];
    PublicStep(acc, Name(s), front, e);
    FrontLast(v);
  }

  /** One more field for a group that is the last entry of the result. */
  lemma PublicStep(acc: PhpArray, key: Key, front: PhpArray, e: Entry)
    requires !HasKey(acc, key) && !HasKey(front, e.key)
    ensures AppendNested(acc + [Entry(key, Arr(front))], key, e.value, e.key) == Ok(acc + [Entry(key, Arr(front + [e]))])
  {
    var x := Entry(key, Arr(front));
    GetAppend(acc, x, key);
    UnionFresh(front, e);
    SetConcat(acc, [x], key, Arr(front + [e]));
    FindFirst([x], key, 0);
    assert Entry(e.key, e.value) == e;
    assert Get(acc + [x], key) == Some(Arr(front));
    assert Set([x], key, Arr(front + [e])) == [Entry(key, Arr(front + [e]))];
  }

  /** The split leaves a settled array as it is. */
  lemma {:induction false} SettledFixed(m: Mapping, a: PhpArray)
    requires Settled(m, a)
    ensures SplitPrivate(m, a) == Ok(a)
    decreases |a|
  {
    if a != [] {
      var front := a[..|a| - 1];
      var e := a[|a| - 1];
      SettledFront(m, a);
      SettledFixed(m, front);
      SettledEntryFixed(m, front, e);
      FrontLast(a);
      SplitLast(m, a);
    }
  }

  /** An array whose front and last entry the split each leaves as they are is left as it is. */
  lemma SplitLast(m: Mapping, a: PhpArray)
    requires |a| > 0 && SplitPrivate(m, a[..|a| - 1]) == Ok(a[..|a| - 1])
    requires SplitEntry(m, a[..|a| - 1], a[|a| - 1]) == Ok(a)
    ensures SplitPrivate(m, a) == Ok(a)
  {
  }

  /** A settled array is a settled front and a settled last entry with a fresh key. */
  lemma SettledFront(m: Mapping, a: PhpArray)
    requires Settled(m, a) && |a| > 0
    ensures var front := a[..|a| - 1];
            && Settled(m, front) && !HasKey(front, a[|a| - 1].key) && SettledEntry(m, a[|a| - 1])
  {
    var front := a[..|a| - 1];
    UniqueFront(a);
    assert forall i :: 0 <= i < |front| ==> front[i] == a[i];
  }

  /** A settled entry with a fresh key is appended as it is. */
  lemma SettledEntryFixed(m: Mapping, acc: PhpArray, e: Entry)
    requires !HasKey(acc, e.key) && SettledEntry(m, e)
    ensures SplitEntry(m, acc, e) == Ok(acc + [e])
  {
    if Splits(m, e) {
      PublicSection(acc, e.key.name, SectionFields(m, e.key).value, e.value.entries);
    }
  }

  /** Each entry a split section contributes is settled. */
  lemma ChunkSettled(m: Mapping, e: Entry)
    requires MappingReady(m) && (e.value.Arr? ==> UniqueKeys(e.value.entries))
    ensures forall j :: 0 <= j < |Chunk(m, e)| ==> SettledEntry(m, Chunk(m, e)[j])
  {
    if Splits(m, e) {
      var s := e.key.name;
      var fields := SectionFields(m, e.key).value;
      var g := Chunk(m, e);
      SectionChunk(s, fields, e.value.entries);
      PrivateKeyUnmapped(m, s);
      PartRouted(fields, e.value.entries, false);
      PartGet(fields, e.value.entries, false);
      forall j | 0 <= j < |g|
        ensures SettledEntry(m, g[j])
      {
        GetAt(g, j);
        assert HasKey(g, g[j].key);
      }
    }
  }

  lemma {:induction false} ChunksSettled(m: Mapping, props: PhpArray)
    requires SplitReady(m, props)
    ensures forall j :: 0 <= j < |Chunks(m, props)| ==> SettledEntry(m, Chunks(m, props)[j])
    decreases |props|
  {
    if props != [] {
      var front := props[..|props| - 1];
      var e := props[|props| - 1];
      ReadyFront(m, props);
      ChunksSettled(m, front);
      ChunkSettled(m, e);
      var acc := Chunks(m, front);
      var c := Chunk(m, e);
      assert Chunks(m, props) == acc + c;
      forall j | 0 <= j < |acc + c|
        ensures SettledEntry(m, (acc + c)[j])
      {
        if j < |acc| {
          assert (acc + c)[j] == acc[j];
        } else {
          assert (acc + c)[j] == c[j - |acc|];
        }
      }
    }
  }

  /** After the split no section it would split holds a private field. */
  lemma SplitSettles(m: Mapping, props: PhpArray)
    requires SplitReady(m, props)
    ensures SplitPrivate(m, props).Ok? && Settled(m, SplitPrivate(m, props).value)
  {
    SplitChunks(m, props);
    ChunksSettled(m, props);
  }

  /** Splitting twice is splitting once. */
  lemma SplitIdempotent(m: Mapping, props: PhpArray)
    requires SplitReady(m, props)
    ensures SplitPrivate(m, props).Ok?
    ensures SplitPrivate(m, SplitPrivate(m, props).value) == SplitPrivate(m, props)
  {
    SplitSettles(m, props);
    SettledFixed(m, SplitPrivate(m, props).value);
  }
}
