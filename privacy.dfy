/** The privacy split (document_importer.php:1045-1083): the fields of a mapped section that
    the metadata mapping flags private move to a group of their own, "<section>- PRIVADO". */
module Privacy {
  import opened Results
  import opened PhpArrays
  import opened Literals

  /** The group the private fields of section `s` move to. The suffix is appended without a
      space, and the name ends in a letter, so PHP keeps it as a string key. */
  function PrivateKey(s: string): (k: Key)
    ensures k.Name? && |k.name| == |s| + |PrivateSuffix| && k.name[|s|..] == PrivateSuffix
  {
    Name(s + PrivateSuffix)
  }

  /** A key that ends with the private suffix. */
  predicate IsPrivateKey(k: Key) {
    k.Name? && |k.name| >= |PrivateSuffix| && k.name[|k.name| - |PrivateSuffix|..] == PrivateSuffix
  }

  /** The private groups are told apart by their sections. */
  lemma PrivateKeyFacts(s: string, t: string)
    ensures IsPrivateKey(PrivateKey(s))
    ensures PrivateKey(s) == PrivateKey(t) ==> s == t
  {
    if PrivateKey(s) == PrivateKey(t) {
      assert s == (s + PrivateSuffix)[..|s|];
      assert t == (t + PrivateSuffix)[..|t|];
    }
  }

  /** No mapped section's name ends with the private suffix. */
  predicate MappingReady(m: Mapping) {
    forall i :: 0 <= i < |m| ==> !IsPrivateKey(Name(m[i].section))
  }

  /** The metadata mapping of the importer is one: its section names end in a lower-case
      letter, the suffix in an upper-case one. */
  lemma MetadatumMappingReady()
    ensures MappingReady(MetadatumMapping)
  {
    forall i | 0 <= i < |MetadatumMapping|
      ensures !IsPrivateKey(Name(MetadatumMapping[i].section))
    {
      var n := MetadatumMapping[i].section;
      assert n[|n| - 1] != 'O';
      assert PrivateSuffix[|PrivateSuffix| - 1] == 'O';
    }
  }

  /** No private group is a mapped section. */
  lemma {:induction false} PrivateKeyUnmapped(m: Mapping, s: string)
    requires MappingReady(m)
    ensures SectionFields(m, PrivateKey(s)).None?
    decreases |m|
  {
    PrivateKeyFacts(s, s);
    if m != [] {
      assert !IsPrivateKey(Name(m[0].section));
      assert MappingReady(m[1..]) by {
        forall i | 0 <= i < |m[1..]| ensures !IsPrivateKey(Name(m[1..][i].section)) {
          assert m[1..][i] == m[i + 1];
        }
      }
      PrivateKeyUnmapped(m[1..], s);
    }
  }

  /** `$metadata_mapping[$inner_key]['private']` for a field the table maps. */
  predicate IsPrivateField(fields: seq<FieldMapping>, ik: Key) {
    var f := FindField(fields, ik);
    f.Some? && f.value.private
  }

  /** The group field `ik` of section `s` goes to (document_importer.php:1054-1058): the
      private group when its mapping flags it private, the section itself otherwise, and the
      section itself when the field is not mapped at all. */
  function Target(s: string, fields: seq<FieldMapping>, ik: Key): (k: Key)
    ensures k == PrivateKey(s) <==> IsPrivateField(fields, ik)
    ensures k == Name(s) <==> !IsPrivateField(fields, ik)
  {
    if IsPrivateField(fields, ik) then PrivateKey(s) else Name(s)
  }

  /** append_nested_key (document_importer.php:1075-1083): `$properties[$key] += [$ik => $iv]`
      when the key exists, `$properties[$key] = [$ik => $iv]` when it does not. `+=` on a
      value that is not an array throws. */
  function AppendNested(props: PhpArray, key: Key, iv: Value, ik: Key): (r: Result<PhpArray, Fault>)
    ensures r.Err? <==> Get(props, key).Some? && !Get(props, key).value.Arr?
    ensures r.Ok? ==> forall k :: k != key ==> Get(r.value, k) == Get(props, k)
    ensures r.Ok? ==> Get(r.value, key).Some? && Get(r.value, key).value.Arr?
    ensures r.Ok? ==> var g := Get(r.value, key).value.entries;
                      Get(g, ik) == if Get(props, key).Some? && HasKey(Get(props, key).value.entries, ik)
                                    then Get(Get(props, key).value.entries, ik) else Some(iv)
  {
    match Get(props, key)
    case Some(Arr(g)) => Ok(Set(props, key, Arr(Union(g, [Entry(ik, iv)]))))
    case Some(_) => Err(UnsupportedOperands)
    case None => Ok(Set(props, key, Arr([Entry(ik, iv)])))
  }

  /** The inner loop over the fields of an associative mapped section
      (document_importer.php:1053-1060). */
  function SplitSection(acc: PhpArray, s: string, fields: seq<FieldMapping>, v: PhpArray): Result<PhpArray, Fault>
    decreases |v|
  {
    if v == [] then Ok(acc)
    else
      var prev :- SplitSection(acc, s, fields, v[..|v| - 1]);
      var e := v[|v| - 1];
      AppendNested(prev, Target(s, fields, e.key), e.value, e.key)
  }

  /** Whether an entry of the properties is split field by field: its key names a mapped
      section and its value has a string key. */
  predicate Splits(m: Mapping, e: Entry) {
    SectionFields(m, e.key).Some? && IsAssociative(e.value)
  }

  /** One pass of the outer loop (document_importer.php:1048-1068). A mapped section whose
      value has no string key (the list of location records) is copied: the lookup of
      `$metadata_mapping['private']` finds no such field, reads as null, and the key stays. */
  function SplitEntry(m: Mapping, acc: PhpArray, e: Entry): Result<PhpArray, Fault> {
    if Splits(m, e) then SplitSection(acc, e.key.name, SectionFields(m, e.key).value, e.value.entries)
    else Ok(Set(acc, e.key, e.value))
  }

  /** split_properties_private (document_importer.php:1045-1072) under mapping `m`. */
  function SplitPrivate(m: Mapping, props: PhpArray): Result<PhpArray, Fault>
    decreases |props|
  {
    if props == [] then Ok([])
    else
      var prev :- SplitPrivate(m, props[..|props| - 1]);
      SplitEntry(m, prev, props[|props| - 1])
  }

  lemma {:induction false} SectionFaultStays(acc: PhpArray, s: string, fields: seq<FieldMapping>, a: PhpArray, b: PhpArray)
    requires SplitSection(acc, s, fields, a).Err?
    ensures SplitSection(acc, s, fields, a + b) == SplitSection(acc, s, fields, a)
    decreases |b|
  {
    if b == [] {
      assert a + b == a;
    } else {
      assert (a + b)[..|a + b| - 1] == a + b[..|b| - 1];
      SectionFaultStays(acc, s, fields, a, b[..|b| - 1]);
    }
  }

  lemma {:induction false} SplitFaultStays(m: Mapping, a: PhpArray, b: PhpArray)
    requires SplitPrivate(m, a).Err?
    ensures SplitPrivate(m, a + b) == SplitPrivate(m, a)
    decreases |b|
  {
    if b == [] {
      assert a + b == a;
    } else {
      assert (a + b)[..|a + b| - 1] == a + b[..|b| - 1];
      SplitFaultStays(m, a, b[..|b| - 1]);
    }
  }

  /** One more entry of the properties. */
  lemma SplitStep(m: Mapping, props: PhpArray, i: nat, acc: PhpArray)
    requires i < |props| && SplitPrivate(m, props[..i]) == Ok(acc)
    ensures SplitPrivate(m, props[..i + 1]) == SplitEntry(m, acc, props[i])
  {
    assert props[..i + 1][..i] == props[..i];
  }

  /** An entry that cannot be split stops the loop with its fault. */
  lemma SplitStops(m: Mapping, props: PhpArray, i: nat)
    requires i < |props| && SplitPrivate(m, props[..i + 1]).Err?
    ensures SplitPrivate(m, props) == SplitPrivate(m, props[..i + 1])
  {
    SplitFaultStays(m, props[..i + 1], props[i + 1..]);
    assert props[..i + 1] + props[i + 1..] == props;
  }

  /** One more field of a section. */
  lemma SectionStep(acc: PhpArray, s: string, fields: seq<FieldMapping>, v: PhpArray, j: nat, done: PhpArray)
    requires j < |v| && SplitSection(acc, s, fields, v[..j]) == Ok(done)
    ensures SplitSection(acc, s, fields, v[..j + 1]) == AppendNested(done, Target(s, fields, v[j].key), v[j].value, v[j].key)
  {
    assert v[..j + 1][..j] == v[..j];
  }

  /** A field that cannot be appended stops the section with its fault. */
  lemma SectionStops(acc: PhpArray, s: string, fields: seq<FieldMapping>, v: PhpArray, j: nat)
    requires j < |v| && SplitSection(acc, s, fields, v[..j + 1]).Err?
    ensures SplitSection(acc, s, fields, v) == SplitSection(acc, s, fields, v[..j + 1])
  {
    SectionFaultStays(acc, s, fields, v[..j + 1], v[j + 1..]);
    assert v[..j + 1] + v[j + 1..] == v;
  }

  /** The inner loop over the fields of an associative mapped section, appending to the
      result as append_nested_key does through its reference. */
  method SplitSectionFields(before: PhpArray, s: string, fields: seq<FieldMapping>, inner: PhpArray)
    returns (r: Result<PhpArray, Fault>)
    ensures r == SplitSection(before, s, fields, inner)
  {
    var processed := before;
    var j := 0;
    while j < |inner|
      invariant 0 <= j <= |inner|
      invariant SplitSection(before, s, fields, inner[..j]) == Ok(processed)
    {
      SectionStep(before, s, fields, inner, j, processed);
      var next := AppendNested(processed, Target(s, fields, inner[j].key), inner[j].value, inner[j].key);
      if next.Err? {
        SectionStops(before, s, fields, inner, j);
        return next;
      }
      processed := next.value;
      j := j + 1;
    }
    assert inner[..j] == inner;
    return Ok(processed);
  }

  /** The importer's outer loop over the properties (document_importer.php:1048-1068). */
  method SplitPropertiesPrivate(m: Mapping, properties: PhpArray) returns (r: Result<PhpArray, Fault>)
    ensures r == SplitPrivate(m, properties)
  {
    var processed: PhpArray := [];
    var i := 0;
    while i < |properties|
      invariant 0 <= i <= |properties|
      invariant SplitPrivate(m, properties[..i]) == Ok(processed)
    {
      var e := properties[i];
      SplitStep(m, properties, i, processed);
      var next: Result<PhpArray, Fault>;
      if Splits(m, e) {
        next := SplitSectionFields(processed, e.key.name, SectionFields(m, e.key).value, e.value.entries);
      } else {
        next := Ok(Set(processed, e.key, e.value));
      }
      assert next == SplitEntry(m, processed, e);
      if next.Err? {
        SplitStops(m, properties, i);
        return next;
      }
      processed := next.value;
      i := i + 1;
    }
    assert properties[..i] == properties;
    return Ok(processed);
  }
}
