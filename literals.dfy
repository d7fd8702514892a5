/** The fixed tables the importer is driven by: the section headings of the museum's
    record sheet, the table and location labels, and METADATUM_MAPPING, which gives every
    known field of a section its metadata type and whether it is private. */
module Literals {
  import opened Results
  import opened PhpArrays

  /** The headings that open a section (document_importer.php:35-44). */
  const SectionHeaders: seq<string> := [
    "REGISTRO DE ACERVO", "DADOS TÉCNICOS", "PROCEDÊNCIA", "DIMENSÕES",
    "FORMA DE AQUISIÇÃO", "ESTADO DE CONSERVAÇÃO", "DADOS HISTÓRICOS", "PARECER"
  ]

  /** Column captions of the dimension table; dropped. */
  const IgnoreTableHeaders: seq<string> := ["Cm", "Menor", "Maior", "Fotografia"]

  /** The measured dimensions. */
  const DimensionNames: seq<string> := [
    "Comprimento", "Espessura", "Diâmetro", "Altura", "Circunferência", "Profundidade", "Peso"
  ]

  /** Column captions of the location table, in cycle order; each also names a record field. */
  const LocationLabels: seq<string> := ["Localização", "Saída", "Retornar", "Responsável"]

  /** Appended, with no space, to a section name to form its private group. */
  const PrivateSuffix: string := "- PRIVADO"

  /** The section the parser starts in: the heading as written, not normalised. */
  const StartSection: string := "REGISTRO DE ACERVO"

  const TableHeading: string := "DIMENSÕES"
  const LocationsHeading: string := "PARECER"
  const TableEnd: string := "FORMA DE AQUISIÇÃO"

  /** The field that ends the location table and opens the section `OtherSection`. */
  const LocationSentinel: string := "Referências Bibliográficas/ Fontes"
  const OtherSection: string := "Outros"

  const TechnicalSection: string := "Dados técnicos"
  const TitleField: string := "Título"

  /** The section name a heading selects, as a fixed table (document_importer.php:1253-1254). */
  function Normalise(h: string): (r: string)
    requires h in SectionHeaders
    ensures |r| == |h| && r[0] == h[0]
  {
    if h == "REGISTRO DE ACERVO" then "Registro de acervo"
    else if h == "DADOS TÉCNICOS" then "Dados técnicos"
    else if h == "PROCEDÊNCIA" then "Procedência"
    else if h == "DIMENSÕES" then "Dimensões"
    else if h == "FORMA DE AQUISIÇÃO" then "Forma de aquisição"
    else if h == "ESTADO DE CONSERVAÇÃO" then "Estado de conservação"
    else if h == "DADOS HISTÓRICOS" then "Dados históricos"
    else "Parecer"
  }

  /** The sentinel is neither a location caption nor empty. */
  lemma SentinelNotCaption()
    ensures LocationSentinel !in LocationLabels && LocationSentinel != ""
  {
  }

  /** The headings that open and close the modes are section headings too. */
  lemma ModeHeadings()
    ensures TableHeading in SectionHeaders && Normalise(TableHeading) == "Dimensões"
    ensures LocationsHeading in SectionHeaders && Normalise(LocationsHeading) == "Parecer"
    ensures TableEnd in SectionHeaders
  {
    assert TableHeading == SectionHeaders[3] && LocationsHeading == SectionHeaders[7];
    assert TableEnd == SectionHeaders[4];
  }

  datatype FieldType = Text | Date | TextArea

  /** The metadata type name written into headers. */
  function TypeName(t: FieldType): (r: string)
    ensures r in {"text", "date", "textarea"}
  {
    match t
    case Text => "text"
    case Date => "date"
    case TextArea => "textarea"
  }

  datatype FieldMapping = FieldMapping(field: string, kind: FieldType, private: bool)

  datatype SectionMapping = SectionMapping(section: string, fields: seq<FieldMapping>)

  /** The field tables of METADATUM_MAPPING (document_importer.php:61-110). */
  const RegistryFields: seq<FieldMapping> := [
    FieldMapping("Nª do livro Tombo", Text, true),
    FieldMapping("Nª de Registro", Text, true),
    FieldMapping("Outros números", Text, true),
    FieldMapping("Localização no Museu", Text, true)]

  const TechnicalFields: seq<FieldMapping> := [
    FieldMapping("Data da confecção do material", Date, false),
    FieldMapping("Autor/Autoridade", Text, true),
    FieldMapping("Descrição intrínseca", Text, true),
    FieldMapping("Matéria Prima", Text, true),
    FieldMapping("Inscrição/ Marcas/ Títulos", Text, true),
    FieldMapping("Técnica de manufatura", Text, true),
    FieldMapping("Técnica decorativa", Text, true),
    FieldMapping("Representação/ Decoração", Text, true),
    FieldMapping("Observações/Outras Características", TextArea, true)]

  const ProvenanceFields: seq<FieldMapping> := [
    FieldMapping("Município", Text, true),
    FieldMapping("Sítio", Text, true),
    FieldMapping("Localidade", Text, true),
    FieldMapping("Estado", Text, true),
    FieldMapping("Região", Text, true),
    FieldMapping("Proprietário", Text, true)]

  const AcquisitionFields: seq<FieldMapping> := [
    FieldMapping("Data da Aquisição", Date, true),
    FieldMapping("Doador", Text, true),
    FieldMapping("Último Proprietário", Text, true),
    FieldMapping("Personalidade/ Pessoa", Text, true),
    FieldMapping("Outras Informações", TextArea, true)]

  const ConservationFields: seq<FieldMapping> := [FieldMapping("Descrição", TextArea, true)]

  const HistoryFields: seq<FieldMapping> := [FieldMapping("Histórico", TextArea, false)]

  const AssessmentFields: seq<FieldMapping> := [
    FieldMapping("Localização", Text, true),
    FieldMapping("Saída", Date, true),
    FieldMapping("Retornar", Date, true),
    FieldMapping("Responsável", Text, true)]

  const OtherFields: seq<FieldMapping> := [
    FieldMapping("Referências Bibliográficas/ Fontes", Text, true),
    FieldMapping("Repetidos/ Duplos", Text, true)]

  /** A metadata mapping: the field table of each mapped section, in declaration order. */
  type Mapping = seq<SectionMapping>

  /** METADATUM_MAPPING (document_importer.php:61-110). */
  const MetadatumMapping: Mapping := [
    SectionMapping("Registro de acervo", RegistryFields),
    SectionMapping("Dados técnicos", TechnicalFields),
    SectionMapping("Procedência", ProvenanceFields),
    SectionMapping("Forma de aquisição", AcquisitionFields),
    SectionMapping("Estado de conservação", ConservationFields),
    SectionMapping("Dados históricos", HistoryFields),
    SectionMapping("Parecer", AssessmentFields),
    SectionMapping("Outros", OtherFields)
  ]

  /** array_key_exists($key, $mapping) ? $mapping[$key] : null */
  function SectionFields(m: Mapping, k: Key): (r: Option<seq<FieldMapping>>)
    ensures r.Some? ==> k.Name?
    decreases |m|
  {
    if m == [] then None
    else if k == Name(m[0].section) then Some(m[0].fields)
    else SectionFields(m[1..], k)
  }

  /** array_key_exists($key, $fields) ? $fields[$key] : null */
  function FindField(fields: seq<FieldMapping>, k: Key): (r: Option<FieldMapping>)
    ensures r.Some? <==> exists i :: 0 <= i < |fields| && k == Name(fields[i].field)
    ensures r.Some? ==> r.value in fields && k == Name(r.value.field)
  {
    if fields == [] then None
    else if k == Name(fields[0].field) then Some(fields[0])
    else
      var r := FindField(fields[1..], k);
      assert forall i :: 1 <= i < |fields| ==> fields[i] == fields[1..][i - 1];
      r
  }

  /** The lookup finds a field table exactly when some section has that name. */
  lemma {:induction false} SectionFieldsFound(m: Mapping, k: Key)
    ensures SectionFields(m, k).Some? <==> exists j :: 0 <= j < |m| && k == Name(m[j].section)
    decreases |m|
  {
    if m != [] {
      SectionFieldsFound(m[1..], k);
      if exists j :: 0 <= j < |m| && k == Name(m[j].section) {
        var j :| 0 <= j < |m| && k == Name(m[j].section);
        if j > 0 {
          assert m[1..][j - 1] == m[j];
        }
      }
      if exists j :: 0 <= j < |m[1..]| && k == Name(m[1..][j].section) {
        var j :| 0 <= j < |m[1..]| && k == Name(m[1..][j].section);
        assert m[1..][j] == m[j + 1];
      }
    }
  }

  /** The sections METADATUM_MAPPING maps, in its order. */
  const MappedSections: seq<string> := [
    "Registro de acervo", "Dados técnicos", "Procedência", "Forma de aquisição",
    "Estado de conservação", "Dados históricos", "Parecer", "Outros"
  ]

  /** METADATUM_MAPPING has a field table for exactly the mapped sections. */
  lemma MappedSectionsExact()
    ensures forall s :: SectionFields(MetadatumMapping, Name(s)).Some? <==> s in MappedSections
  {
    var names := seq(|MetadatumMapping|, j requires 0 <= j < |MetadatumMapping| => MetadatumMapping[j].section);
    assert names == MappedSections;
    forall s: string ensures SectionFields(MetadatumMapping, Name(s)).Some? <==> s in names {
      SectionFieldsFound(MetadatumMapping, Name(s));
      if s in names {
        var j :| 0 <= j < |names| && names[j] == s;
      }
    }
  }

  /** Of the sections a heading can select, every one but `Dimensões` has a mapping, and so
      has `Outros`; the heading as written (the starting section) has none. */
  lemma SectionsWithMapping(h: string)
    requires h in SectionHeaders
    ensures SectionFields(MetadatumMapping, Name(Normalise(h))).Some? <==> h != TableHeading
    ensures SectionFields(MetadatumMapping, Name(OtherSection)).Some?
    ensures SectionFields(MetadatumMapping, Name(StartSection)).None?
  {
    MappedSectionsExact();
  }
}
