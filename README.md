# Docx importer of the museum collection plugin — a Dafny model

The plugin imports museum records, written as Word documents, into a Tainacan collection.
Its importer (`Docx_Importer`) does the work in two halves, and this project models both.

- **Writing side (`add_file`).** The importer extracts the document's text. `process_document`
  reads that text line by line, as a small state machine, into a nested PHP array of sections.
  - "field: value" lines become fields of the current section.
  - A `DIMENSÕES` table becomes `{menor, maior}` records.
  - A `PARECER` location table becomes a list of
    `{Localização, Saída, Retornar, Responsável}` records.
  - `split_properties_private` then moves every field that `METADATUM_MAPPING` flags private
    into a `<section>- PRIVADO` group. `add_file` copies the title to the top.
    `compound_header` builds one header per group, and `document_to_csv` writes a two-line CSV
    file through `fputcsv` and `str_putcsv`.
- **Reading side (`get_source_metadata`, `process_item`).** The header row is decoded into plain,
  compound and special columns. Each row is checked against the headers. A compound value is cut
  into records with `str_getcsv`. Small rules handle the item status, the comment status, the
  document cell's `url:`/`text:`/`file:` prefix and `is_empty_value`.
- **Older parser.** `ImportTest/index.php` holds an older copy of the line parser. It stores
  dimension values as flat `"<dimension> menor"` fields, and it unsets the section after the
  location table. It is modelled separately.

How PHP is modelled:

- **Arrays.** A PHP array is an ordered sequence of `(key, value)` entries (module `PhpArrays`).
  The model defines PHP's own operations on it:
  - `$a[$k] = $v`;
  - `$a + $b`;
  - `array_push`;
  - `unset`;
  - nested writes through missing or null steps;
  - `isset`;
  - the conversion of canonical decimal strings to integer keys.
- **Faults.** A PHP 8 `TypeError` or `Error` aborts the call. Examples are a write through a
  string with a named offset, `+=` on a string, and `array_push` on a non-array. Each is an
  explicit `Fault` result that ends the loop it occurs in. The model also faults on a write
  through a string with an integer offset, which PHP 8 performs (see `PhpArrays.WritePath`
  under "## Left out").
- **Loops.** Each loop the source runs over lines, properties, fields, headers or records is a
  `method` with a `while` loop. Each such method is proved equal to a recursive
  function (`ProcessDocument`, `LegacyImport`, `SplitPropertiesPrivate`, `BuildCompoundHeader`,
  `BuildHeaders`, `DocumentToCsv`, `AddFile`, `ReadRecords`, `ZipRow`,
  `GetSourceMetadata`). The lemmas state the source's promises about those functions.

The type in a plain column's header is always `text`: `$mapping['type']` reads the
section's field table, which has no field named `type` (`ColumnTypes.PlainTypeText`).

## Model

| member | source | states |
|---|---|---|
| PhpArrays.ArrayKey | document_importer.php:1259 | a key is a string key exactly when the text is not a canonical integer, and then it is the text itself |
| PhpArrays.KeyTextOfArrayKey | document_importer.php:1259 | every array key prints back as the string it was stored under |
| PhpArrays.Set | document_importer.php:1339 | after the assignment the key holds the value, every other key reads as before, only that key is added, and distinct keys stay distinct |
| PhpArrays.SetTwice | document_importer.php:1339 | assigning a key twice keeps only the second value, in the place of the first |
| PhpArrays.Union | document_importer.php:1117 | array union: each key reads from the left array when it has the key and from the right one otherwise; the left array is a prefix of the result; keys stay distinct |
| PhpArrays.UnionDisjoint | document_importer.php:1117 | union of arrays that share no key lays them end to end |
| PhpArrays.UnionCovered | document_importer.php:1117 | union with an array whose keys are all present already changes nothing |
| PhpArrays.NextIndex | document_importer.php:1320-1322 | the index array_push uses is larger than every integer key and is not a key yet |
| PhpArrays.NextIndexValue | document_importer.php:1320-1322 | the index array_push uses is 0 or one more than an integer key, so with NextIndex's bound it is one more than the largest integer key, and 0 when no integer key is non-negative |
| PhpArrays.PushIsSet | document_importer.php:1320-1322 | array_push is the assignment to the next free index |
| PhpArrays.Unset | document_importer.php:1021 | unset removes the key, leaves every other lookup as it was, keeps keys distinct and only drops entries |
| PhpArrays.WritePath | document_importer.php:1259 | a nested write fails exactly when a string stands in the path; otherwise the path then reads the value and its first step is an array |
| PhpArrays.WritePathFrame | document_importer.php:1259 | a nested write leaves every path that parts ways with it unchanged |
| PhpArrays.IsSetNamedPath | document_importer.php:1295 | along named offsets isset holds exactly when the path leads to a value that is not null |
| PhpArrays.OpenBelowArray | document_importer.php:1324 | a write one step below an existing array is never refused |
| PhpArrays.KeySetSize | document_importer.php:1122 | an array with distinct keys has as many keys as entries (the size count() reports) |
| Text.Trim | document_importer.php:1246 | trim leaves no blank at either end, is empty exactly when the text is all blanks, and leaves trimmed text unchanged |
| Text.Explode | document_importer.php:1233 | explode gives at least one piece, the pieces joined by the separator give the text back, and no piece holds a one-character separator |
| Text.ExplodeLeftmost | document_importer.php:319-320 | explode cuts at the leftmost occurrence each time, for separators of any length: no piece, with all but the last character of the separator after it, holds the separator, and the last piece does not hold it |
| Text.LeftmostEach | document_importer.php:319-320 | the leftmost-cut property piece by piece: every piece but the last, followed by the separator without its last character, is free of the separator, and so is the last piece |
| Text.ExplodeJoin | document_importer.php:1233 | explode undoes implode when no piece holds the separator's first character |
| Text.ConcatExplode | document_importer.php:1259 | joining the pieces of explode on a character with no separator is the text with every such character removed |
| Text.RemoveChar | document_importer.php:1101-1104 | removing a character leaves none of it and keeps every other character |
| Text.RemoveAllAbsent | document_importer.php:1106-1108 | str_replace of a pattern whose first character does not occur changes nothing |
| Text.RemoveAllSuffix | document_importer.php:1106-1108 | str_replace removes an appended pattern whose first character occurs nowhere else |
| Text.NatText | document_importer.php:1320 | the decimal text of a number is all digits and starts with 0 only for zero |
| PhpArrays.DigitsOfNatText | document_importer.php:1320 | the decimal text of a number is canonical and denotes that number |
| PhpArrays.ArrayKeyOfKeyText | document_importer.php:1320-1324 | the text of an integer key in the PHP integer range converts back to that integer key |
| Lines.Parts | document_importer.php:1245 | the pieces of a line at its colons join back to the line and hold no colon |
| Lines.HasColonIff | document_importer.php:1258 | a line has two or more pieces exactly when it holds a colon |
| Lines.FieldLine | document_importer.php:1258-1259 | a line "k:v" has the trimmed key as head and the trimmed rest, with further colons dropped, as value |
| Lines.PlainLine | document_importer.php:1245-1246 | a line without a colon is all head, trimmed |
| Literals.Normalise | document_importer.php:1253-1254 | the section a heading selects has the heading's length and first letter |
| Literals.ModeHeadings | document_importer.php:1263-1276 | DIMENSÕES, PARECER and FORMA DE AQUISIÇÃO are section headings and select Dimensões and Parecer |
| Literals.SentinelNotCaption | document_importer.php:1308-1315 | the field that ends the location table is neither a caption nor empty |
| Literals.FindField | document_importer.php:1054 | the field lookup succeeds exactly when a field has that name, and returns a field of that name |
| Literals.SectionFieldsFound | document_importer.php:1049-1050 | the mapping lookup succeeds exactly when a section has that name |
| Literals.MappedSectionsExact | document_importer.php:61-110 | METADATUM_MAPPING has a field table for exactly its eight sections |
| Literals.SectionsWithMapping | document_importer.php:61-110 | every section a heading selects is mapped except Dimensões; Outros is mapped; the starting section as written is not |
| DocumentParser.ProcessDocument | document_importer.php:1231-1342 | the line loop returns the document's parse: the steps folded over the lines of the text, the first fault ending the import, with the attachment added |
| DocumentParser.RunAppend | document_importer.php:1244-1335 | running two parts of the text one after the other is running the whole |
| DocumentParser.RunStep | document_importer.php:1244-1335 | the first line's fault ends the run; otherwise the run goes on from the state it leaves |
| DocumentParser.FaultStays | document_importer.php:1244-1335 | a fault in one part of the text is the fault of the whole |
| DocumentParser.RunStops | document_importer.php:1244-1335 | a line that ends the run with a fault decides the outcome of the whole text |
| DocumentParser.StepInv | document_importer.php:1244-1335 | every step keeps the invariant: distinct section names at the top, each an array, the current section among them, at most one mode active |
| DocumentParser.RunInv | document_importer.php:1244-1335 | the invariant holds after any number of lines |
| DocumentParser.ParsedShape | document_importer.php:1231-1335 | after parsing, the two modes are never both active, and every top-level entry is an array under a distinct section name |
| DocumentParserProperties.SkipLine | document_importer.php:1248-1251 | while lines are to be skipped, a line only counts down, heading or not |
| DocumentParserProperties.RunSkipped | document_importer.php:1248-1251 | a skip count of n passes over exactly the next n lines, whatever they hold |
| DocumentParserProperties.SectionHeading | document_importer.php:1253-1255 | a section heading makes its normalised section current, in every mode |
| DocumentParserProperties.HeadingKeepsSection | document_importer.php:1257-1334 | once a heading has chosen the section, the rest of the step keeps it |
| DocumentParserProperties.PropertyModeKeepsSection | document_importer.php:1257-1273 | in property mode a step changes the tree or the mode, never the section |
| DocumentParserProperties.PropertyLine | document_importer.php:1258-1261 | in property mode a "field: value" line never fails, stores the value under the current section, and changes no other field, no other section and no mode |
| DocumentParserProperties.FieldWrite | document_importer.php:1259 | a two-step write into a section that is absent or an array succeeds, stores the value and leaves every other field and section |
| DocumentParserProperties.FieldAppend | document_importer.php:1258-1261 | in property mode a field line with a field name new to the section appends exactly that field, as the last entry of the section, and changes nothing else |
| DocumentParserProperties.FieldLines | document_importer.php:1244-1261 | N field lines with distinct field names new to the section append exactly those N fields, in the order of the lines, and change nothing else |
| DocumentParserProperties.SectionBlock | document_importer.php:1253-1261 | a section heading followed by N such field lines makes its section current and leaves that section's fields followed by exactly the N new fields, in order |
| DocumentParserProperties.ModeEntry | document_importer.php:1263-1272 | in property mode only a colon-free DIMENSÕES line enters table mode, and only a colon-free PARECER line enters location mode, emptying Parecer |
| DocumentParserProperties.PlainModeLine | document_importer.php:1263-1273 | a colon-free line in property mode enters a mode or only selects its section |
| DocumentParserProperties.HeadingIsNoLabel | document_importer.php:35-57 | no section heading is a location caption, a dimension, the closing field or empty |
| DocumentParserProperties.LabelIsNoHeading | document_importer.php:35-57 | no table or location caption and no dimension is a heading or the closing field |
| DocumentParserProperties.TableStep | document_importer.php:1275-1305 | in table mode a line goes to the table block, and to nothing else while that block consumes it |
| DocumentParserProperties.TableLineFrame | document_importer.php:1275-1305 | the table block changes neither the section, nor location mode, nor the cycle position |
| DocumentParserProperties.TableEndLine | document_importer.php:1276-1279 | FORMA DE AQUISIÇÃO ends table mode and selects its section |
| DocumentParserProperties.TableCaptionLine | document_importer.php:1281-1283 | the captions of the dimension table change nothing |
| DocumentParserProperties.DimensionLine | document_importer.php:1285-1289 | a dimension name becomes the current dimension and the next three lines are skipped |
| DocumentParserProperties.NoDimensionLine | document_importer.php:1291-1293 | before any dimension, other lines of the table change nothing |
| DocumentParserProperties.MenorLine | document_importer.php:1295-1299 | the first value line of a dimension stores the trimmed line as menor and skips one line |
| DocumentParserProperties.MaiorLine | document_importer.php:1301-1304 | the next value line stores the trimmed line as maior |
| DocumentParserProperties.TableLineKeepsSetValues | document_importer.php:1295-1304 | the table block never overwrites a value that is already set |
| DocumentParserProperties.TableKeepsSetValues | document_importer.php:1295-1304 | a line in table mode never overwrites a dimension value that is set |
| DocumentParserProperties.TableMenorFirst | document_importer.php:1295-1304 | a dimension gets its maior value only once its menor value is set |
| DocumentParserProperties.DimensionWrites | document_importer.php:1295-1304 | writing menor then maior under a new dimension succeeds, finds each unset in turn, yields the record {menor, maior} and leaves the other sections |
| DocumentParserProperties.DimensionBlock | document_importer.php:1285-1304 | a dimension's seven lines store {menor, maior} under the dimension, in that order, and change nothing outside the section |
| DocumentParserProperties.LocationStep | document_importer.php:1307-1334 | in location mode a line goes to the location block |
| DocumentParserProperties.LocationLineFrame | document_importer.php:1307-1334 | only the closing field changes the section or the mode from the location block |
| DocumentParserProperties.LocationTableEnd | document_importer.php:1308-1313 | the closing field opens Outros, is stored there and ends location mode, leaving every other section |
| DocumentParserProperties.LocationCaption | document_importer.php:1315-1317 | location captions, and an empty first cell, change nothing |
| DocumentParserProperties.CellStep | document_importer.php:1319-1333 | a cell is written at the cycle position, the position advances and the next line is skipped |
| DocumentParserProperties.LocationRow | document_importer.php:1319-1333 | a row of four cells, each followed by a skipped line, appends one complete location record and brings the cycle back to its start |
| DocumentParserProperties.LocationRows | document_importer.php:1319-1333 | k row blocks of four cells, each followed by a skipped line, append exactly k records to the list, in order and under the next k indices, and leave the cycle at its start |
| DocumentParserProperties.LocationsOpen | document_importer.php:1268-1272 | a colon-free PARECER line in property mode makes Parecer current, empties it and enters location mode |
| DocumentParserProperties.LocationTable | document_importer.php:1268-1333 | the PARECER heading, k row blocks and the closing field leave exactly the k records under Parecer, the closing field's value under Outros and not in the list, Outros current, location mode off and every other section as before |
| LocationRecords.NextSlot | document_importer.php:1328-1333 | the cycle position advances by one modulo four |
| LocationRecords.FirstCell | document_importer.php:1319-1322 | the first cell of a row appends a new record holding it as Localização, under the next index |
| LocationRecords.NextCell | document_importer.php:1323-1325 | each further cell adds its label to the record the row opened |
| LocationRecords.RecordGrows | document_importer.php:1323-1325 | each cell adds a label not yet in the record, extending it by that label |
| LocationRecords.LastRecordWrite | document_importer.php:1324 | writing through count - 1 of a list sets the label on its last record |
| LocationRecords.NextIndexOfList | document_importer.php:1320 | array_push onto a list uses its length as key |
| LocationRecords.FullRow | document_importer.php:1319-1333 | four cell writes append one record of the four labels, and the section stays a list |
| LegacyParser.LegacyImport | ImportTest/index.php:65-171 | the script's loop returns the fold of its steps over the lines of the text, the first fault ending it |
| LegacyParser.SectionKey | ImportTest/index.php:145 | once the section is unset, fields are stored under the empty-string key |
| LegacyParser.LegacyFaultStays | ImportTest/index.php:76-171 | a fault in one part of the text is the fault of the whole |
| LegacyParser.LegacyRunStep | ImportTest/index.php:76-170 | each further line takes the script from the state the lines before it left |
| LegacyParser.LegacyRunStops | ImportTest/index.php:76-171 | a line that ends the run with a fault decides the outcome of the whole text |
| LegacyParser.LegacyStepInv | ImportTest/index.php:76-170 | every step keeps the invariant: at most one mode active, and none while the section is unset |
| LegacyParser.LegacyRunInv | ImportTest/index.php:76-171 | the invariant holds after any number of lines |
| LegacyParser.LegacyModesExclusive | ImportTest/index.php:68-171 | over a whole text the modes are never both active, and none is active while the section is unset |
| LegacyParser.LegacyLocationLineModes | ImportTest/index.php:143-170 | the location block never enters table mode and keeps the section while it stays in location mode |
| LegacyParser.LegacyTableLineModes | ImportTest/index.php:111-141 | the table block keeps location mode and the section, and leaves table mode exactly at FORMA DE AQUISIÇÃO |
| LegacyParserProperties.LegacySkipLine | ImportTest/index.php:80-83 | while lines are to be skipped, a line only counts down |
| LegacyParserProperties.LegacySkipped | ImportTest/index.php:80-83 | a skip count of n passes over the next n lines and only counts down |
| LegacyParserProperties.LegacyCurrent | ImportTest/index.php:85-87 | a heading selects its normalised section, and any other line leaves the state as it is |
| LegacyParserProperties.LegacySectionHeading | ImportTest/index.php:85-87 | a heading makes its normalised section current, in every mode |
| LegacyParserProperties.LegacySectionField | ImportTest/index.php:89-92 | with a section current, a field line is stored under it and fails exactly when a string stands in the way |
| LegacyParserProperties.LegacyUnsetSectionField | ImportTest/index.php:93-95 | with the section unset, a field line is stored at the top level, replacing what stood there |
| LegacyParserProperties.LegacyModeEntry | ImportTest/index.php:99-109 | only a colon-free DIMENSÕES line enters table mode, and only a colon-free PARECER line enters location mode, emptying the section |
| LegacyParserProperties.ColonStaysOut | ImportTest/index.php:89-97 | a field line never enters a mode |
| LegacyParserProperties.TableHeadingEnters | ImportTest/index.php:99-102 | a colon-free DIMENSÕES line enters table mode |
| LegacyParserProperties.LocationsHeadingEnters | ImportTest/index.php:104-108 | a colon-free PARECER line enters location mode with Parecer empty |
| LegacyParserProperties.OtherStaysOut | ImportTest/index.php:89-109 | any other colon-free line enters no mode |
| LegacyParserProperties.LegacyTableEnd | ImportTest/index.php:112-115 | FORMA DE AQUISIÇÃO ends table mode |
| LegacyParserProperties.LegacyTableStep | ImportTest/index.php:111-141 | in table mode a line goes to the table block after the heading check, and to nothing else while that block consumes it |
| LegacyParserProperties.LegacyDimensionLine | ImportTest/index.php:121-125 | a dimension name becomes current and three lines are skipped |
| LegacyParserProperties.LegacyMenorLine | ImportTest/index.php:131-135 | the first value is stored as the flat field "dimension menor" and one line is skipped |
| LegacyParserProperties.LegacyMaiorLine | ImportTest/index.php:137-140 | the second value is stored as the flat field "dimension maior" |
| LegacyParserProperties.LegacyValuesFull | ImportTest/index.php:131-141 | once both values are set, further value lines change nothing |
| LegacyParserProperties.LegacySentinel | ImportTest/index.php:144-149 | the closing field unsets the section, is stored at the top level and ends location mode |
| LegacyParserProperties.LegacyLocationCaption | ImportTest/index.php:151-153 | location captions, and an empty first cell, change nothing |
| LegacyParserProperties.LegacyLocationCell | ImportTest/index.php:155-170 | any other line is written at the cycle position, which advances and wraps, and the next line is skipped |
| Privacy.PrivateKey | document_importer.php:1055 | the private group's name is the section's name followed by the suffix |
| Privacy.PrivateKeyFacts | document_importer.php:1055 | private group names end in the suffix and tell their sections apart |
| Privacy.MetadatumMappingReady | document_importer.php:61-110 | no mapped section's name ends in the private suffix |
| Privacy.PrivateKeyUnmapped | document_importer.php:1049 | no private group is itself a mapped section |
| Privacy.Target | document_importer.php:1054-1058 | a field goes to the private group exactly when its mapping flags it private, and to the section itself otherwise |
| Privacy.AppendNested | document_importer.php:1075-1083 | append_nested_key fails exactly when the key holds a non-array; otherwise the key holds an array whose field keeps an earlier value or gets the new one, and no other key changes |
| Privacy.SplitSectionFields | document_importer.php:1053-1060 | the inner loop returns the fold of append_nested_key over the section's fields |
| Privacy.SplitPropertiesPrivate | document_importer.php:1045-1072 | the outer loop returns the fold of the per-entry split over the properties |
| Privacy.SplitStep | document_importer.php:1048-1068 | one more entry of the properties extends the split by that entry's routing |
| Privacy.SplitFaultStays | document_importer.php:1048-1068 | a fault in one part of the properties is the fault of the whole |
| Privacy.SplitStops | document_importer.php:1048-1068 | an entry that makes the split fail decides the outcome for all the properties |
| Privacy.SectionStep | document_importer.php:1053-1060 | each field of a section is appended to the group its mapping selects, after the fields before it |
| PrivacyProperties.SplitRouting | document_importer.php:1045-1083 | the split never fails on real properties; a split section keeps its public fields in its group and its private ones in its private group, in order, each absent when empty; every other entry is copied unchanged |
| PrivacyProperties.SplitKeepsFields | document_importer.php:1053-1060 | every field of a split section keeps its value, in the group its mapping selects, and is not in the other group |
| PrivacyProperties.EntryRouting | document_importer.php:1048-1068 | a split section reads back as its public group and its private group; every other entry reads back unchanged |
| PrivacyProperties.SectionChunk | document_importer.php:1053-1060 | one section's fields make at most its group and its private group, holding exactly the fields routed to each |
| PrivacyProperties.PartGet | document_importer.php:1053-1060 | a part holds exactly the fields routed its way, each with its value, under distinct keys |
| PrivacyProperties.SplitChunks | document_importer.php:1045-1072 | the split is the entries' contributions laid end to end, under distinct keys |
| PrivacyProperties.SplitSettles | document_importer.php:1045-1072 | after the split no section it would split holds a private field |
| PrivacyProperties.SettledFixed | document_importer.php:1045-1072 | the split leaves properties with no private field to move unchanged |
| PrivacyProperties.SplitIdempotent | document_importer.php:1045-1072 | splitting twice is splitting once |
| PrivacyProperties.PublicSection | document_importer.php:1053-1060 | fields that all stay public rebuild their section's group as it was |
| PrivacyProperties.GroupStep | document_importer.php:1075-1083 | appending a field to a group extends that group by the field and leaves the other group |
| PrivacyProperties.PublicStep | document_importer.php:1075-1083 | appending a new field to an existing group adds it at the group's end |
| Compound.Sanitize | document_importer.php:1101-1104 | sanitize_header removes every comma, keeps every other character and leaves comma-free names unchanged |
| Compound.PrivateSuffixRemoved | document_importer.php:1106-1108 | remove_private_prefix gives back the section name from its private group's name and leaves the name itself unchanged |
| Compound.MergeMembers | document_importer.php:1116-1118 | the merge of a list of records has distinct keys |
| Compound.MergeFails | document_importer.php:1116-1118 | the merge fails exactly when some member is not an array |
| Compound.MergeKeys | document_importer.php:1116-1118 | the merge holds every field of every member, and no other |
| Compound.MergeFirstWins | document_importer.php:1116-1118 | when no member has a field the first lacks, the merge is the first member |
| Compound.SharedFieldsMerge | document_importer.php:1116-1122 | members sharing one set of fields merge to that many fields |
| Compound.ChildType | document_importer.php:1131-1134 | a child's type is that of its first mapping entry, and text when the section or the field is unmapped |
| Compound.FieldFound | document_importer.php:1131-1134 | the field lookup returns the first field of that name |
| Compound.ChildSpecs | document_importer.php:1130-1136 | one key-and-type entry per field, in field order |
| Compound.ListStep | document_importer.php:1136-1141 | each entry extends the list by itself and, unless it is the last, a comma |
| Compound.ListDone | document_importer.php:1136-1141 | the finished list is the entries joined by commas |
| Compound.CompoundHeader | document_importer.php:1110-1148 | compound_header fails exactly when the group is a list of records with a member that is not an array; otherwise it is the sanitised name, the child specs of the merged members joined by commas inside compound(...), and the flags |
| Compound.BuildCompoundHeader | document_importer.php:1110-1148 | the header loop returns the compound header of the group |
| Compound.GroupLookup | document_importer.php:1125-1127 | a section's group is public and its private group private, and both look their types up in the section's own table |
| Compound.MinMaxHeader | document_importer.php:1110-1148 | a list of menor and maior records under an unmapped name gets a compound header with both fields as text, flagged multiple and displayed |
| Compound.DimensionHeader | document_importer.php:1110-1148 | the dimension group gets the header Dimensões, compound(menor and maior, both text), multiple, displayed |
| Compound.DimensionsUnmapped | document_importer.php:1127 | Dimensões is not a mapped section |
| ColumnTypes.MappingTypeFree | document_importer.php:61-110 | no field table of METADATUM_MAPPING has a field named type |
| ColumnTypes.TypeFreeSections | document_importer.php:1031-1032 | in a type-free mapping the type lookup finds nothing in any section |
| ColumnTypes.PlainTypeText | document_importer.php:1031-1032 | every plain column's header is typed text |
| Csv.EncodeField | document_importer.php:25 | a field needing no enclosure is written as it is, any other is enclosed |
| Csv.TrimLineFeeds | document_importer.php:27 | rtrim of line feeds returns a prefix that does not end in a line feed |
| Csv.RecordEnd | document_importer.php:22-31 | an encoded record never ends in a line feed |
| Csv.StrPutCsv | document_importer.php:22-31 | str_putcsv returns exactly the encoded record: the trim removes the terminator and nothing else |
| Csv.ReadRecord | document_importer.php:157 | fgetcsv always returns at least one field and consumes input |
| Csv.ScanDoubled | document_importer.php:25 | the inside of an enclosed field, doubled enclosures included, reads back as the field |
| Csv.ScanField | document_importer.php:25 | an encoded field reads back as the field whatever follows it at a boundary |
| Csv.ScanRecord | document_importer.php:25 | an encoded record reads back field by field |
| Csv.RecordRoundTrip | document_importer.php:1159 | fgetcsv reads back the record fputcsv wrote, and leaves the rest of the file |
| Csv.StrRoundTrip | document_importer.php:326-327 | str_getcsv reads back what str_putcsv wrote |
| Csv.PlainList | document_importer.php:326 | str_getcsv splits a comma-joined list of plain pieces back into the pieces |
| Csv.TwoLinesRoundTrip | document_importer.php:1159-1185 | the two-line file reads back as its two records and nothing more |
| Export.CellText | document_importer.php:1177-1178 | a string cell is written as it is and null as the empty string |
| Export.MemberLines | document_importer.php:1171-1176 | a group's members become one CSV line each, and this fails exactly when a member is not an array |
| Export.DataCell | document_importer.php:1165-1177 | a non-compound value is written as it is, a record as one CSV line, a list of records as its members' CSV lines joined by the multi-value delimiter, and a list of records fails exactly when a member is not an array |
| Export.Row | document_importer.php:1163-1185 | the data row exists exactly when every cell can be made, with one cell per property |
| Export.RowAt | document_importer.php:1163-1185 | each cell of the row is the cell of its property |
| Export.RowFails | document_importer.php:1163-1185 | once a cell cannot be made, nothing after it changes the outcome |
| Export.RowStops | document_importer.php:1163-1183 | the first cell that cannot be made is the fault of the whole row |
| Export.CsvFile | document_importer.php:1150-1190 | the file can be written exactly when each of the first twenty data cells can be made |
| Export.DocumentToCsv | document_importer.php:1150-1190 | document_to_csv reports a file that cannot be opened, and otherwise writes the file CsvFile describes |
| Export.CsvReadBack | document_importer.php:1150-1190 | reading the written file back gives the first twenty header values and the first twenty data cells |
| Export.HeaderCell | document_importer.php:1028-1035 | a compound group gets its compound header, displayed unless the group is private; any other group's header is `key|text` |
| Export.Collect | document_importer.php:1028-1035 | the header loop succeeds exactly when every header can be made |
| Export.CollectStep | document_importer.php:1028-1035 | one more header that can be made is added under its key unless the key is already there |
| Export.CollectStops | document_importer.php:1028-1035 | a header that cannot be made ends the loop with its fault |
| Export.BuildHeaders | document_importer.php:1028-1035 | the header loop of add_file returns the headers of the groups |
| Export.CollectAlign | document_importer.php:1028-1035 | with distinct keys there is one header per key, in the keys' order |
| Export.HeadersAlign | document_importer.php:1028-1035 | one header per group, in order, each the header of its group |
| Export.DisplayIffPublic | document_importer.php:1030-1034 | a compound header ends in display_yes exactly when its group is not private, and in display_no exactly when it is |
| Export.TitleOf | document_importer.php:1027 | reading the title fails exactly when the technical section is a string |
| Export.AddFile | document_importer.php:1015-1043 | add_file fails with the split, title or header fault, reports a file that cannot be opened, or writes the file of its rows |
| Export.TitledKeys | document_importer.php:1020-1027 | the titled properties have distinct string keys, none of them the document column |
| Export.ProcessedKeys | document_importer.php:1025 | the split properties have distinct string keys, none of them the document column |
| Export.RowsAlign | document_importer.php:1015-1043 | the rows add_file builds line up: one header per property, in order, and the last column is the document cell file: and the attachment |
| Export.PrivateKeyNotDocument | document_importer.php:1036-1037 | no private group is the document column |
| Reader.ParenPieces | document_importer.php:247 | the pieces preg_split returns are non-empty and free of parentheses |
| Reader.ThreePieces | document_importer.php:247 | a(b)c splits into a, b and c |
| Reader.DecodeHeader | document_importer.php:245-253 | a header that is not compound is matched by itself |
| Reader.DecodeCompound | document_importer.php:245-253 | a compound header decodes to its name with the flags and to its child list |
| Reader.HeaderNames | document_importer.php:245-253 | one name per raw header, each the decoded header's name |
| Reader.CompoundHeaders | document_importer.php:249 | the child lists are stored under distinct names |
| Reader.CheckRow | document_importer.php:288-299 | a row is accepted exactly when it has one value per header |
| Reader.FindColumn | document_importer.php:304-313 | the column found is the last header of that name, and none is found exactly when no header has it |
| Reader.ValuePieces | document_importer.php:319-321 | a value that is not multiple is its own single piece; a multiple value fails exactly when the multi-value delimiter is empty (explode's ValueError), and otherwise has at least one piece, and its pieces join back to the value |
| Reader.ZipKeys | document_importer.php:334-337 | the record of a row has distinct keys, exactly one per child name |
| Reader.CombineKeys | document_importer.php:334-337 | the zipped record has exactly the child names as keys |
| Reader.ZipRow | document_importer.php:334-337 | the inner loop returns the children zipped with the cells |
| Reader.Records | document_importer.php:323-339 | the records exist exactly when every row has one cell per child, and the failure is the child-count mismatch |
| Reader.BuildAt | document_importer.php:323-339 | record i is the children zipped with row i, pushed under key i |
| Reader.PushAllAt | document_importer.php:338 | the records are pushed under 0, 1, 2 and so on |
| Reader.MisfitFails | document_importer.php:328-332 | a row with another number of cells makes the whole value fail |
| Reader.ReadCompoundValue | document_importer.php:318-340 | reading a compound column's value gives the empty-delimiter error, or else what the loop over its pieces gives |
| Reader.ReadRecords | document_importer.php:323-339 | the loop over a compound column's values returns the column's records, or the child-count mismatch at the first row that does not fit |
| Reader.ClassifySpecial | document_importer.php:164-179 | a header names a special column exactly when it starts with special_ |
| Reader.AttachmentOperations | document_importer.php:172-173 | an attachment header without a pipe appends, and one with a single pipe names its operation |
| Reader.GetSourceMetadata | document_importer.php:151-194 | the header loop returns the options and columns SourceMetadata describes |
| Reader.SourceColumns | document_importer.php:162-189 | the columns listed are the non-special headers, in order; the document, attachment, item-status, item-id and comment-status options are the index of the last header of their kind (any of the three attachment headers), the attachment operation is that of the last attachment header, and options whose column is absent keep their value |
| Reader.LastIndex | document_importer.php:164-179 | the index found holds one of the headers sought, and no later index does |
| ItemRules.ItemStatus | document_importer.php:572-582 | public becomes publish, every other status is kept, and the result is never public |
| ItemRules.ItemStatusIdempotent | document_importer.php:576 | the status rule changes nothing the second time |
| ItemRules.CommentStatus | document_importer.php:587-597 | the comment status is open or closed, and is the input exactly when the input is open or closed |
| ItemRules.CommentStatusIdempotent | document_importer.php:589-591 | the comment rule changes nothing the second time |
| ItemRules.ArrayFilter | document_importer.php:832 | array_filter keeps only truthy entries of the array |
| ItemRules.FilterKeepsTruthy | document_importer.php:832 | array_filter keeps every truthy entry, so it is empty exactly when no value is truthy |
| ItemRules.IsEmptyValue | document_importer.php:829-836 | an array is empty exactly when no value is truthy, a string exactly when it is all blanks, and null is empty |
| ItemRules.BlankAndZeroCells | document_importer.php:829-836 | a blank string is empty but a list of blanks is not, and "0" is not empty but a list of "0" is |
| ItemRules.DocumentOf | document_importer.php:445-462 | the cell sets no document exactly when it starts with none of url:, text:, file:, and every document it names is trimmed |
| ItemRules.DocumentRoundTrip | document_importer.php:445-462 | a trimmed document written with its prefix reads back as that document |
| ItemRules.UrlCell | document_importer.php:445-448 | a url: cell names a URL document with the trimmed rest |
| ItemRules.TextCell | document_importer.php:453-456 | a text: cell names an inline text document with the trimmed rest |
| ItemRules.SpecialDocumentCell | document_importer.php:461-462 | the document column add_file writes, file: and the attachment, reads back as a file document named by the trimmed attachment |

## Left out

- Reading the .docx archive: `read_docx` and its ZIP and XML handling. The document's text and the attachment name are parameters.
- `create_image_file`: writing the extracted image to disk. Its result, the attachment name, is a parameter.
- `parent::add_file`: the upload of the source file. The model starts once the file is present.
- Whether `fopen` succeeds is a parameter. File I/O, transients, `fseek` and `ftell` positions and logging are left out.
- The multi-value delimiter and the metadatum's `is_multiple` flag are importer and repository options, so they are parameters.
- The CSV field delimiter is fixed to its default ',' (`Csv.Delimiter`). The `delimiter` option (document_importer.php:119) is read at every `fgetcsv` and `str_getcsv` (document_importer.php:157, 326-327). `document_to_csv`, however, always writes with ',' (document_importer.php:1150, 1159, 1185). With another option value, `process_item` would therefore misread the file that `add_file` wrote. This mismatch is not modelled.
- `handle_encoding`: ISO-8859-1 transcoding is left out. Values are taken as text.
- `mb_strtolower` and `ucfirst` are modelled by the fixed table `Literals.Normalise` over the eight headings. There is no general Unicode case mapping.
- Everything that talks to WordPress or Tainacan repositories: `insert`, `insert_hierarchy`, `after_inserted_item`, `add_collection`, `save_mapping`, `get_mapping`, `handle_item_id`, `handle_attachment`, and the media inserts of `handle_document`. `ItemRules` models only the values these functions decide.
- `ItemRules.DocumentOf`: it does not model how `handle_document` treats the `file:` branch afterwards. That branch chooses between a URL import and a server path with `parse_url`, and then inserts media.
- `get_source_special_fields`, `raw_source_metadata`, `options_form`, `get_output` and `get_source_number_of_items` are left out. They repeat the header reading that is modelled, or only produce output.
- The JSON echo at the end of `ImportTest/index.php` is output only. `read_docx` and the image code in that file are left out for the same reason as above.
- `handle_enclosure` (fgetcsv with a custom enclosure) is left out. The model reads with the default `"` enclosure.
- `Csv.ReadRecord`: it models fgetcsv as an RFC 4180 record reader. It does not model PHP's escape character, its skipping of leading blanks, or `fputcsv`'s rule that an enclosure after a backslash is not doubled. PHP returns `[null]` for a record whose first field starts at the end of the line (a blank line); the model has no null field and returns `[""]`. Its contract states only that a record has at least one field and consumes input. What it reads back is stated by `Csv.RecordRoundTrip`.
- `Csv.StrGetCsv`: `str_getcsv("")` returns `[null]` in PHP; the model returns `[""]`.
- `Csv.ScanRecord`: holds for the model's reader. For the one-field record `[""]` PHP reads back `[null]`, so that case does not match PHP.
- `Csv.RecordRoundTrip`: for the record `[""]` (one empty field) PHP's fgetcsv reads back `[null]`, not `[""]`.
- `Csv.StrRoundTrip`: for the record `[""]` PHP's str_getcsv reads back `[null]`, not `[""]`.
- `Csv.PlainList`: for the list `[""]` PHP's str_getcsv reads back `[null]`, not `[""]`.
- `Csv.TwoLinesRoundTrip`: when either record is `[""]`, PHP's fgetcsv reads that record back as `[null]`.
- `Export.CsvReadBack`: when an exported row is the single empty cell `[""]`, PHP's fgetcsv reads it back as `[null]`.
- `Reader.ReadRecords`: an empty piece of a compound cell is read by PHP's str_getcsv as `[null]`. When the group has one field, process_item (document_importer.php:326-337) stores null there; the model stores `Str("")`.
- `Reader.ReadCompoundValue`: inherits the `Reader.ReadRecords` gap. An empty compound cell, such as a `DADOS HISTÓRICOS` group whose only field `Histórico:` is empty, is stored as null by PHP and as `Str("")` by the model.
- `PhpArrays.WritePath`: returns `Err(StringOffset)` whenever a string stands on the path, whatever the key. PHP 8 throws there only for a non-numeric offset or an empty value. An integer offset such as `5` pads the string with spaces up to that offset and writes the value's first character there. The document parser never meets this case: it writes field lines only into sections, which stay arrays (`DocumentParser.StepInv`), and its other nested writes use non-numeric keys (`menor`, `maior`, the location labels).
- `LegacyParser.LegacyImport`: inherits the `PhpArrays.WritePath` gap. Given the lines `PARECER`, `Referências Bibliográficas/ Fontes: x`, `Dados históricos: s`, `DADOS HISTÓRICOS`, `5: y`, PHP stores `"s    y"` and goes on; the model ends with `Err(StringOffset)`.
- `LegacyParserProperties.LegacySectionField`: "fails exactly when a string stands in the way" holds for the model. In PHP it holds only for a non-numeric field name, because of the `PhpArrays.WritePath` gap.
- `PrivacyProperties.SplitRouting`: it requires `SplitReady`: keys are unique, and no property key already ends in `- PRIVADO`. A key that ends in the suffix would collide with a private group. Such keys cannot come from the parser's output, which `DocumentParser.ParsedShape` describes.
- `Reader.ValuePieces`: for a multiple value it states the join-back and that there is at least one piece, not the pieces one by one. They are those of `Text.Explode`, and `Text.ExplodeLeftmost` states that explode cuts at the leftmost occurrence of the delimiter.
- `Reader.DecodeHeader`: its contract states only the plain case. The compound case is stated by `Reader.DecodeCompound` for headers the writer produces.
- `PhpArrays.NextIndex`: follows PHP 8.0 to 8.2, where array_push after only negative integer keys uses 0. PHP 8.3 uses one more than the last negative key instead. A field line such as `-5: x` stores the integer key -5. If a heading in location mode later makes that section current, the next location cell is pushed onto it (document_importer.php:1320): under -4 in PHP 8.3, and under 0 here.
