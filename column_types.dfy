/** The type add_file gives a column that is not compound (document_importer.php:1031-1032). */
module ColumnTypes {
  import opened Results
  import opened PhpArrays
  import opened Literals

  /** The type of a column that is not compound (document_importer.php:1031-1032): the
      `type` entry of the key's mapping, when it has one, else `text`. The mapping of a
      section is its table of fields, so `type` would be a field, whose mapping (an array) is
      written as `Array`; an empty table compares equal to null. */
  function PlainType(k: Key): string {
    match SectionFields(MetadatumMapping, k)
    case Some(fields) => if fields != [] && FindField(fields, Name("type")).Some? then "Array" else "text"
    case None => "text"
  }

  /** No field of the table is named `type`. */
  predicate FieldsTypeFree(fields: seq<FieldMapping>) {
    fields == [] || (fields[0].field != "type" && FieldsTypeFree(fields[1..]))
  }

  /** No table of the mapping has a field named `type`. */
  predicate TypeFree(m: Mapping) {
    forall i :: 0 <= i < |m| ==> FieldsTypeFree(m[i].fields)
  }

  lemma {:induction false} FieldsTypeFreeFind(fields: seq<FieldMapping>)
    requires FieldsTypeFree(fields)
    ensures FindField(fields, Name("type")).None?
    decreases |fields|
  {
    if fields != [] {
      FieldsTypeFreeFind(fields[1..]);
      forall i | 0 <= i < |fields| ensures Name("type") != Name(fields[i].field) {
        if i > 0 {
          assert fields[i] == fields[1..][i - 1];
        }
      }
    }
  }

  lemma {:induction false} TypeFreeSections(m: Mapping, k: Key)
    requires TypeFree(m)
    ensures SectionFields(m, k).Some? ==> FindField(SectionFields(m, k).value, Name("type")).None?
    decreases |m|
  {
    if m != [] {
      if k == Name(m[0].section) {
        assert FieldsTypeFree(m[0].fields);
        FieldsTypeFreeFind(m[0].fields);
      } else {
        assert TypeFree(m[1..]) by {
          forall i | 0 <= i < |m[1..]| ensures FieldsTypeFree(m[1..][i].fields) {
            assert m[1..][i] == m[i + 1];
          }
        }
        TypeFreeSections(m[1..], k);
      }
    }
  }

  /** A table none of whose field names is `type` is type-free. */
  lemma {:induction false} NamesTypeFree(fields: seq<FieldMapping>)
    requires forall i :: 0 <= i < |fields| ==> fields[i].field != "type"
    ensures FieldsTypeFree(fields)
    decreases |fields|
  {
    if fields != [] {
      assert forall i :: 0 <= i < |fields| - 1 ==> fields[1..][i] == fields[i + 1];
      NamesTypeFree(fields[1..]);
    }
  }

  lemma RegistryTypeFree()
    ensures FieldsTypeFree(RegistryFields) && FieldsTypeFree(MetadatumMapping[0].fields)
  {
    assert forall i :: 0 <= i < |RegistryFields| ==> |RegistryFields[i].field| > |"type"|;
    NamesTypeFree(RegistryFields);
  }

  lemma TechnicalTypeFree()
    ensures FieldsTypeFree(TechnicalFields) && FieldsTypeFree(MetadatumMapping[1].fields)
  {
    assert forall i :: 0 <= i < |TechnicalFields| ==> |TechnicalFields[i].field| > |"type"|;
    NamesTypeFree(TechnicalFields);
  }

  lemma ProvenanceTypeFree()
    ensures FieldsTypeFree(ProvenanceFields) && FieldsTypeFree(MetadatumMapping[2].fields)
  {
    assert forall i :: 0 <= i < |ProvenanceFields| ==> |ProvenanceFields[i].field| > |"type"|;
    NamesTypeFree(ProvenanceFields);
  }

  lemma AcquisitionTypeFree()
    ensures FieldsTypeFree(AcquisitionFields) && FieldsTypeFree(MetadatumMapping[3].fields)
  {
    assert forall i :: 0 <= i < |AcquisitionFields| ==> |AcquisitionFields[i].field| > |"type"|;
    NamesTypeFree(AcquisitionFields);
  }

  lemma ConservationTypeFree()
    ensures FieldsTypeFree(ConservationFields) && FieldsTypeFree(MetadatumMapping[4].fields)
  {
    assert forall i :: 0 <= i < |ConservationFields| ==> |ConservationFields[i].field| > |"type"|;
    NamesTypeFree(ConservationFields);
  }

  lemma HistoryTypeFree()
    ensures FieldsTypeFree(HistoryFields) && FieldsTypeFree(MetadatumMapping[5].fields)
  {
    assert forall i :: 0 <= i < |HistoryFields| ==> |HistoryFields[i].field| > |"type"|;
    NamesTypeFree(HistoryFields);
  }

  lemma AssessmentTypeFree()
    ensures FieldsTypeFree(AssessmentFields) && FieldsTypeFree(MetadatumMapping[6].fields)
  {
    assert forall i :: 0 <= i < |AssessmentFields| ==> |AssessmentFields[i].field| > |"type"|;
    NamesTypeFree(AssessmentFields);
  }

  lemma OtherTypeFree()
    ensures FieldsTypeFree(OtherFields) && FieldsTypeFree(MetadatumMapping[7].fields)
  {
    assert forall i :: 0 <= i < |OtherFields| ==> |OtherFields[i].field| > |"type"|;
    NamesTypeFree(OtherFields);
  }

  lemma MappingTypeFree()
    ensures TypeFree(MetadatumMapping)
  {
    forall i | 0 <= i < |MetadatumMapping| ensures FieldsTypeFree(MetadatumMapping[i].fields) {
      if i == 0 {
        RegistryTypeFree();
      } else if i == 1 {
        TechnicalTypeFree();
      } else if i == 2 {
        ProvenanceTypeFree();
      } else if i == 3 {
        AcquisitionTypeFree();
      } else if i == 4 {
        ConservationTypeFree();
      } else if i == 5 {
        HistoryTypeFree();
      } else if i == 6 {
        AssessmentTypeFree();
      } else {
        OtherTypeFree();
      }
    }
  }

  /** No field table has a field named `type`, so every plain column is typed `text`. */
  lemma PlainTypeText(k: Key)
    ensures PlainType(k) == "text"
  {
    MappingTypeFree();
    TypeFreeSections(MetadatumMapping, k);
  }
}
