/** The header of a group written as one CSV column (document_importer.php:1085-1148):
    `name|compound(key|type,...)`, then `|multiple` when the group is a list of records, then
    `|display_yes` for a public group and `|display_no` for a private one. */
module Compound {
  import opened Results
  import opened Text
  import opened PhpArrays
  import opened Literals
  import opened Privacy

  /** sanitize_header: the commas of a name removed (document_importer.php:1101-1104). */
  function Sanitize(s: string): (r: string)
    ensures ',' !in r
    ensures forall c :: c != ',' ==> (c in r <==> c in s)
    ensures ',' !in s ==> r == s
  {
    RemoveChar(s, ',')
  }

  /** remove_private_prefix: every occurrence of the private suffix cut out
      (document_importer.php:1106-1108). */
  function RemovePrivateSuffix(s: string): string {
    RemoveAll(s, PrivateSuffix)
  }

  /** A name without a hyphen is left as it is, and gets back from its private group's name. */
  lemma PrivateSuffixRemoved(s: string)
    requires '-' !in s
    ensures RemovePrivateSuffix(s) == s
    ensures RemovePrivateSuffix(s + PrivateSuffix) == s
  {
    RemoveAllAbsent(s, PrivateSuffix);
    RemoveAllSuffix(s, PrivateSuffix);
  }

  /** The private test of add_file (document_importer.php:1030): the suffix occurs anywhere in
      the group's name. */
  predicate IsPrivateName(k: Key) {
    Contains(KeyText(k), PrivateSuffix)
  }

  /** Every member of a group is an array. */
  predicate AllArrays(g: PhpArray) {
    forall i :: 0 <= i < |g| ==> g[i].value.Arr?
  }

  /** array_reduce($g, fn($a, $b) => $a + $b, []) (document_importer.php:1116-1118): the
      members' fields, the first member's value winning for a repeated field. `+` with a member
      that is not an array throws. */
  function MergeMembers(g: PhpArray): (r: Result<PhpArray, Fault>)
    ensures r.Ok? ==> UniqueKeys(r.value)
    decreases |g|
  {
    if g == [] then Ok([])
    else
      var prev :- MergeMembers(g[..|g| - 1]);
      if g[|g| - 1].value.Arr? then Ok(Union(prev, g[|g| - 1].value.entries))
      else Err(UnsupportedOperands)
  }

  /** The merge fails exactly when a member is not an array. */
  lemma {:induction false} MergeFails(g: PhpArray)
    ensures MergeMembers(g).Ok? <==> AllArrays(g)
    decreases |g|
  {
    if g != [] {
      var front := g[..|g| - 1];
      MergeFails(front);
      assert AllArrays(g) <==> AllArrays(front) && g[|g| - 1].value.Arr? by {
        assert forall i :: 0 <= i < |front| ==> front[i] == g[i];
      }
    }
  }

  /** A field is in the merge of two arrays exactly when it is in one of them. */
  lemma MergeLast(g: PhpArray, k: Key)
    requires g != [] && MergeMembers(g).Ok?
    ensures MergeMembers(g[..|g| - 1]).Ok? && g[|g| - 1].value.Arr?
    ensures HasKey(MergeMembers(g).value, k)
            <==> HasKey(MergeMembers(g[..|g| - 1]).value, k) || HasKey(g[|g| - 1].value.entries, k)
  {
  }

  /** Some member of `g` is an array with field `k`. */
  predicate InSomeMember(g: PhpArray, k: Key) {
    exists i :: 0 <= i < |g| && g[i].value.Arr? && HasKey(g[i].value.entries, k)
  }

  lemma InSomeMemberLast(g: PhpArray, k: Key)
    requires g != []
    ensures InSomeMember(g, k)
            <==> (InSomeMember(g[..|g| - 1], k) || (g[|g| - 1].value.Arr? && HasKey(g[|g| - 1].value.entries, k)))
  {
    var front := g[..|g| - 1];
    if InSomeMember(front, k) {
      var i :| 0 <= i < |front| && front[i].value.Arr? && HasKey(front[i].value.entries, k);
      assert g[i] == front[i];
    }
    if InSomeMember(g, k) {
      var i :| 0 <= i < |g| && g[i].value.Arr? && HasKey(g[i].value.entries, k);
      if i < |front| {
        assert front[i] == g[i];
      }
    }
  }

  /** The merge holds every field of every member, and no other. */
  lemma {:induction false} MergeKeys(g: PhpArray, k: Key)
    requires MergeMembers(g).Ok?
    ensures HasKey(MergeMembers(g).value, k) <==> InSomeMember(g, k)
    decreases |g|
  {
    if g != [] {
      MergeLast(g, k);
      MergeKeys(g[..|g| - 1], k);
      InSomeMemberLast(g, k);
    }
  }

  /** The fields the header lists: the merged members of a list of records, the group itself
      otherwise. */
  function Members(g: PhpArray): Result<PhpArray, Fault> {
    if HasArrayValues(g) then MergeMembers(g) else Ok(g)
  }

  /** The mapping entry the field types are looked up under: the group's own name when it is
      public, the name with the private suffix cut out when it is private. */
  function TypeLookup(name: Key, display: bool): Key {
    if display then name else ArrayKey(RemovePrivateSuffix(KeyText(name)))
  }

  /** The type written for field `k`: its type in the section's field table, `text` when the
      section or the field is not mapped. */
  function ChildType(fields: Option<seq<FieldMapping>>, k: Key): (t: string)
    ensures t in {"text", "date", "textarea"}
    ensures fields.None? ==> t == "text"
    ensures fields.Some? ==> forall i :: 0 <= i < |fields.value| && k == Name(fields.value[i].field)
                                        && (forall j :: 0 <= j < i ==> k != Name(fields.value[j].field))
                                        ==> t == TypeName(fields.value[i].kind)
    ensures fields.Some? && (forall i :: 0 <= i < |fields.value| ==> k != Name(fields.value[i].field)) ==> t == "text"
  {
    if fields.Some? && FindField(fields.value, k).Some? then
      FieldFound(fields.value, k);
      TypeName(FindField(fields.value, k).value.kind)
    else "text"
  }

  /** FindField returns the first field of that name. */
  lemma {:induction false} FieldFound(fields: seq<FieldMapping>, k: Key)
    ensures forall i :: 0 <= i < |fields| && k == Name(fields[i].field)
                        && (forall j :: 0 <= j < i ==> k != Name(fields[j].field))
                        ==> FindField(fields, k) == Some(fields[i])
    decreases |fields|
  {
    if fields != [] {
      FieldFound(fields[1..], k);
      forall i | 0 <= i < |fields| && k == Name(fields[i].field)
                 && (forall j :: 0 <= j < i ==> k != Name(fields[j].field))
        ensures FindField(fields, k) == Some(fields[i])
      {
        if i > 0 {
          assert fields[1..][i - 1] == fields[i];
          assert forall j :: 0 <= j < i - 1 ==> fields[1..][j] == fields[j + 1];
        }
      }
    }
  }

  /** One entry of the child list: `key|type`, the key sanitised. */
  function ChildSpec(fields: Option<seq<FieldMapping>>, k: Key): string {
    Sanitize(KeyText(k)) + "|" + ChildType(fields, k)
  }

  function ChildSpecs(fields: Option<seq<FieldMapping>>, ms: PhpArray): (specs: seq<string>)
    ensures |specs| == |ms|
    ensures forall i :: 0 <= i < |ms| ==> specs[i] == ChildSpec(fields, ms[i].key)
  {
    seq(|ms|, i requires 0 <= i < |ms| => ChildSpec(fields, ms[i].key))
  }

  /** The flags after the child list. */
  function Flags(multi: bool, display: bool): string {
    (if multi then "|multiple" else "") + (if display then "|display_yes" else "|display_no")
  }

  /** compound_header under mapping `m`: fails exactly when the group is a list of records
      with a member that is not an array. */
  function CompoundHeader(m: Mapping, name: Key, g: PhpArray, display: bool): (r: Result<string, Fault>)
    ensures r.Err? <==> HasArrayValues(g) && !AllArrays(g)
    ensures r.Ok? ==> Members(g).Ok?
    ensures r.Ok? ==>
              r.value == Sanitize(KeyText(name)) + "|compound("
                         + Join(",", ChildSpecs(SectionFields(m, TypeLookup(name, display)), Members(g).value))
                         + ")" + Flags(HasArrayValues(g), display)
  {
    MergeFails(g);
    var members :- Members(g);
    var specs := ChildSpecs(SectionFields(m, TypeLookup(name, display)), members);
    Ok(Sanitize(KeyText(name)) + "|compound(" + Join(",", specs) + ")" + Flags(HasArrayValues(g), display))
  }

  /** The child list after `count` of its entries: a comma follows each entry but the last. */
  function ListSoFar(specs: seq<string>, count: nat): string
    requires count <= |specs|
  {
    Join(",", specs[..count]) + (if 0 < count < |specs| then "," else "")
  }

  /** One more entry extends the list by that entry and, unless it is the last, a comma. */
  lemma ListStep(specs: seq<string>, count: nat)
    requires count < |specs|
    ensures ListSoFar(specs, count + 1)
            == ListSoFar(specs, count) + specs[count] + (if count + 1 < |specs| then "," else "")
  {
    var next := specs[..count + 1];
    assert next == specs[..count] + [specs[count]];
    if count > 0 {
      JoinSnoc(",", specs[..count], specs[count]);
      assert ListSoFar(specs, count) == Join(",", specs[..count]) + ",";
    } else {
      assert next == [specs[0]];
      assert ListSoFar(specs, 0) == "";
      assert Join(",", next) == specs[0];
    }
  }

  /** The whole list is the comma-joined entries. */
  lemma ListDone(specs: seq<string>)
    ensures ListSoFar(specs, |specs|) == Join(",", specs)
  {
    assert specs[..|specs|] == specs;
    assert Join(",", specs) + "" == Join(",", specs);
  }

  lemma Associative(a: string, b: string, c: string)
    ensures a + b + c == a + (b + c)
  {
  }

  /** The importer's loop: the child list is appended entry by entry, with a comma after each
      entry but the last, counted against the size of the member array. */
  method BuildCompoundHeader(name: Key, properties: PhpArray, display: bool) returns (r: Result<string, Fault>)
    ensures r == CompoundHeader(MetadatumMapping, name, properties, display)
  {
    var sanitized := Sanitize(KeyText(name));
    var multi := HasArrayValues(properties);
    var members := properties;
    if multi {
      var merged := MergeMembers(properties);
      if merged.Err? {
        return Err(merged.error);
      }
      members := merged.value;
    }
    var compound := sanitized + "|compound(";
    var size := |members|;
    var count := 0;
    var fields := SectionFields(MetadatumMapping, TypeLookup(name, display));
    ghost var specs := ChildSpecs(fields, members);
    while count < size
      invariant 0 <= count <= size
      invariant compound == sanitized + "|compound(" + ListSoFar(specs, count)
    {
      var spec := ChildSpec(fields, members[count].key);
      assert spec == specs[count];
      ListStep(specs, count);
      ghost var head := sanitized + "|compound(";
      ghost var before := ListSoFar(specs, count);
      compound := compound + spec;
      count := count + 1;
      Associative(head, before, spec);
      if count < size {
        Associative(head, before + spec, ",");
        compound := compound + ",";
      } else {
        assert before + spec + "" == before + spec;
      }
    }
    ListDone(specs);
    assert Members(properties) == Ok(members);
    compound := compound + ")" + Flags(multi, display);
    r := Ok(compound);
  }

  /** When every member is an array and no member has a field the first lacks, the merge is
      the first member. */
  lemma {:induction false} MergeFirstWins(g: PhpArray)
    requires |g| >= 1 && AllArrays(g)
    requires UniqueKeys(g[0].value.entries)
    requires forall i, k :: 0 <= i < |g| && HasKey(g[i].value.entries, k) ==> HasKey(g[0].value.entries, k)
    ensures MergeMembers(g) == Ok(g[0].value.entries)
    decreases |g|
  {
    var front := g[..|g| - 1];
    if |g| == 1 {
      UnionDisjoint([], g[0].value.entries);
      assert MergeMembers(front) == Ok([]);
    } else {
      MergeFirstWins(front);
      UnionCovered(g[0].value.entries, g[|g| - 1].value.entries);
    }
  }

  /** Members sharing one set of fields, none repeated, merge to an array of that many
      fields. */
  lemma SharedFieldsMerge(g: PhpArray)
    requires |g| >= 1 && AllArrays(g)
    requires forall i :: 0 <= i < |g| ==> UniqueKeys(g[i].value.entries)
    requires forall i :: 0 <= i < |g| ==> KeySet(g[i].value.entries) == KeySet(g[0].value.entries)
    ensures MergeMembers(g).Ok?
    ensures forall i :: 0 <= i < |g| ==> |MergeMembers(g).value| == |g[i].value.entries|
  {
    MergeFails(g);
    var r := MergeMembers(g).value;
    assert KeySet(r) == KeySet(g[0].value.entries) by {
      forall k ensures k in KeySet(r) <==> k in KeySet(g[0].value.entries) {
        MergeKeys(g, k);
        if k in KeySet(r) {
          var i :| 0 <= i < |g| && g[i].value.Arr? && HasKey(g[i].value.entries, k);
          assert k in KeySet(g[i].value.entries);
        }
      }
    }
    KeySetSize(r);
    forall i | 0 <= i < |g| ensures |r| == |g[i].value.entries| {
      KeySetSize(g[i].value.entries);
    }
  }

  /** A section name without a hyphen is public, its private group is private, and both look
      their field types up in the section's own table. */
  lemma GroupLookup(s: string)
    requires '-' !in s && ArrayKey(s) == Name(s)
    ensures !IsPrivateName(Name(s)) && IsPrivateName(PrivateKey(s))
    ensures TypeLookup(Name(s), true) == Name(s)
    ensures TypeLookup(PrivateKey(s), false) == Name(s)
  {
    PrivateSuffixRemoved(s);
    assert OccursAt(s + PrivateSuffix, PrivateSuffix, |s|);
    forall i: nat | i <= |s| ensures !OccursAt(s, PrivateSuffix, i) {
      if i + |PrivateSuffix| <= |s| {
        assert s[i..i + |PrivateSuffix|][0] == s[i];
        assert s[i] in s;
      }
    }
  }

  /** A group of records holding a smaller and a larger value, under a name the mapping does
      not know, gets the header `<name>|compound(menor|text,maior|text)|multiple|display_yes`. */
  lemma MinMaxHeader(m: Mapping, name: string, g: PhpArray, x: Value, y: Value)
    requires SectionFields(m, Name(name)).None? && ',' !in name
    requires |g| >= 1 && g[0].value == Arr([Entry(Name("menor"), x), Entry(Name("maior"), y)])
    requires forall i :: 0 <= i < |g| ==> g[i].value.Arr?
    requires forall i, k :: 0 <= i < |g| && HasKey(g[i].value.entries, k) ==> k == Name("menor") || k == Name("maior")
    ensures CompoundHeader(m, Name(name), g, true)
            == Ok(name + "|compound(" + (("menor" + "|" + "text") + "," + ("maior" + "|" + "text")) + ")" + Flags(true, true))
  {
    var first := g[0].value.entries;
    assert first[0].key == Name("menor") && first[1].key == Name("maior");
    assert HasKey(first, Name("menor")) && HasKey(first, Name("maior"));
    MergeFirstWins(g);
    assert HasArrayValues(g);
    assert Members(g) == Ok(first);
    NoCommaInFields();
    var specs := ChildSpecs(None, first);
    var a := "menor" + "|" + "text";
    var b := "maior" + "|" + "text";
    assert specs == [a, b];
    assert Join(",", specs) == a + "," + Join(",", [b]);
  }

  lemma NoCommaInFields()
    ensures Sanitize("menor") == "menor" && Sanitize("maior") == "maior"
  {
    assert ',' !in "menor" && ',' !in "maior";
  }

  lemma ChildListText()
    ensures ("menor" + "|" + "text") + "," + ("maior" + "|" + "text") == "menor|text,maior|text"
  {
  }

  lemma DimensionOpenText()
    ensures "Dimensões" + "|compound(" + "menor|text,maior|text" + ")" == "Dimensões|compound(menor|text,maior|text)"
  {
    assert "Dimensões" + "|compound(" == "Dimensões|compound(";
  }

  lemma DimensionHeaderText()
    ensures "Dimensões" + "|compound(" + (("menor" + "|" + "text") + "," + ("maior" + "|" + "text")) + ")" + Flags(true, true)
            == "Dimensões|compound(menor|text,maior|text)|multiple|display_yes"
  {
    ChildListText();
    DimensionOpenText();
    MultipleShownFlags();
    DimensionFlagsText();
  }

  lemma MultipleShownFlags()
    ensures Flags(true, true) == "|multiple|display_yes"
  {
  }

  lemma DimensionFlagsText()
    ensures "Dimensões|compound(menor|text,maior|text)" + "|multiple|display_yes"
            == "Dimensões|compound(menor|text,maior|text)|multiple|display_yes"
  {
  }

  /** The dimension group gets the header
      `Dimensões|compound(menor|text,maior|text)|multiple|display_yes`: `Dimensões` is not in
      the metadata mapping, so both fields are text. */
  lemma DimensionHeader(g: PhpArray, x: Value, y: Value)
    requires |g| >= 1 && g[0].value == Arr([Entry(Name("menor"), x), Entry(Name("maior"), y)])
    requires forall i :: 0 <= i < |g| ==> g[i].value.Arr?
    requires forall i, k :: 0 <= i < |g| && HasKey(g[i].value.entries, k) ==> k == Name("menor") || k == Name("maior")
    ensures CompoundHeader(MetadatumMapping, Name("Dimensões"), g, true)
            == Ok("Dimensões|compound(menor|text,maior|text)|multiple|display_yes")
  {
    DimensionsUnmapped();
    MinMaxHeader(MetadatumMapping, "Dimensões", g, x, y);
    DimensionHeaderText();
  }

  /** `Dimensões` is not a mapped section, and has no comma. */
  lemma DimensionsUnmapped()
    ensures SectionFields(MetadatumMapping, Name("Dimensões")).None? && ',' !in "Dimensões"
  {
    MappedSectionsExact();
    assert forall i :: 0 <= i < |MappedSections| ==> |MappedSections[i]| != |"Dimensões"|;
  }
}
