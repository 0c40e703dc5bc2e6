# Zip-to-Kafka row pipeline, modelled in Dafny

This project models the row-transformation core of a Spring Boot / Kafka
Streams service. The service reads messages that name a zip archive. For
each archive whose path has the expected form (`…111_csv_with_metadata_….zip`),
it does the following:

- It reads `metadata.json` and enriches it with the dataset's reference
  description (RESOURCE_VERSION, RESOURCE_NAME, FILE_TYPE), which a cache
  reloaded from the RESOURCE_DESCRIPTION table supplies.
- It turns every CSV line after the header into a JSON record. The record
  holds the line's id and name, and the data columns cast against the
  PROPS_DATA schema.
- It sends one message per record to `output_results`. The message value
  is the metadata JSON and the record separated by a newline. The key is
  the hex SHA-256 of the record's values taken in ascending key order.

The project has one module per source class, plus shared modules:

- `Wrappers` (Option/Result and the failure kinds);
- `Values` (row values, Jackson nodes and the foreign libraries);
- `JavaText` (the `java.lang` string operations, with Java's edge cases);
- `Casting` (`castValue`, shared by both row transformers);
- `RowRecords` (the field-filling loop and the all-or-nothing batch join);
- `Archive` (the entries of a zip and `findCsvEntry`);
- `MessageKey` (the TreeMap-ordered key).

How the model represents the outside world:

- **Archive:** a sequence of `(name, text)` entries.
- **File system:** a map from path to archive. A path that is absent means
  `new ZipFile` throws.
- **Database query:** an input, `None` when the query throws and otherwise
  its rows in order. `GetCsvFormat` reads those rows; its caller
  `ZipProcessor.CsvRecords` turns a `None` into the thrown exception.
- **Kafka producer:** the `sent` sequence of `(topic, key, value)` messages.
- **Jackson, `Float.parseFloat`, UTF-8, SHA-256 and hex encoding:** fields
  of the `Foreign` record. They are uninterpreted functions passed as a
  parameter.
- **Thrown exceptions:** `Err` or `None` results.

Stateful code is modelled as classes and loops:

- `ReferenceCache.DescriptionCache` (the `cache` field with `Refresh`)
  models both `ResourceDescriptionCacheService` and the identical cache
  code in `ResourceDescriptionService.java:21-53`.
- `StreamsConfig.KafkaStreamsConfig` keeps the producer's log.
- The row loops, the futures list and the joins are methods. Each is
  proved equal to a function that defines its result, and the properties are proved
  about that function.

Three behaviours follow the code rather than the intended design:

- A boolean cast of a non-"true" text gives `false`, never the text.
- CsvZipProcessor does not pad a short line: the missing fields are absent.
- ZipProcessor's `replace(endLine, "")` removes every occurrence of the
  end-line token from the last segment, not only a trailing one.

## Model

| member | source | states |
|---|---|---|
| Values.PathField | src/main/java/com/example/demo/Config/KafkaStreamsConfig.java:95 | `node.path(name)` yields a field exactly when the node is an object that has that name, and then it is that field's value (the last one of that name) |
| JavaText.Split | src/main/java/com/example/demo/Services/ZipProcessor.java:109-110 | `split(Pattern.quote(d), -1)` always yields at least one field; where it cuts is stated by the lemmas below |
| JavaText.FindOccurrence | src/main/java/com/example/demo/Services/ZipProcessor.java:109-111 | `indexOf`: the index returned is an occurrence with none before it, and there is no index exactly when the text does not occur |
| JavaText.SplitDelimited | src/main/java/com/example/demo/Services/ZipProcessor.java:109-110 | each field but the last ends where the first occurrence of the delimiter after its start begins, so no field contains the delimiter, and the last field contains none at all |
| JavaText.SplitUnique | src/main/java/com/example/demo/Services/ZipProcessor.java:109-110 | any field list that joins back to the line and is cut that way is the split: the cuts and the round trip determine it |
| JavaText.SplitEmpty | src/main/java/com/example/demo/Services/ZipProcessor.java:109-110 | with an empty delimiter the split is one field per character, in order, followed by one empty field |
| JavaText.SplitJoin | src/main/java/com/example/demo/Services/ZipProcessor.java:109-110 | joining the fields with the delimiter gives the line back, so no character is lost or invented, the empty delimiter included |
| JavaText.SplitJoinLiteral | src/main/java/com/example/demo/Services/ZipProcessor.java:109-110 | the same round trip for a non-empty delimiter taken literally |
| JavaText.SplitDropTrailingPrefix | src/main/java/com/example/demo/Services/CsvZipProcessor.java:81 | `split(",")` is the `-1` split with its trailing empty strings removed (the last kept field is non-empty), and a line without a comma comes back whole |
| JavaText.RemoveAll | src/main/java/com/example/demo/Services/ZipProcessor.java:111 | `replace(t, "")` never lengthens the text; which characters go is stated by the lemmas below |
| JavaText.RemoveAllIsSplitJoin | src/main/java/com/example/demo/Services/ZipProcessor.java:111 | `replace(t, "")` removes every occurrence, left to right and without overlap: it is the split at `t` joined with nothing |
| JavaText.RemoveAllAbsent | src/main/java/com/example/demo/Services/ZipProcessor.java:111 | a segment without the end-line token is unchanged |
| JavaText.RemoveAllShortens | src/main/java/com/example/demo/Services/ZipProcessor.java:111 | a segment holding the token anywhere, not only at its end, gets strictly shorter |
| JavaText.Trim | src/main/java/com/example/demo/Config/KafkaStreamsConfig.java:65 | `trim()` never lengthens the text |
| JavaText.TrimEmpty | src/main/java/com/example/demo/Config/KafkaStreamsConfig.java:65 | `value.trim().isEmpty()` holds exactly when every character is at most U+0020 |
| JavaText.LessIrreflexive | src/main/java/com/example/demo/Config/KafkaStreamsConfig.java:150 | the key order of the TreeMap (`compareTo`) is irreflexive |
| JavaText.LessAsymmetric | src/main/java/com/example/demo/Config/KafkaStreamsConfig.java:150 | the key order is asymmetric |
| JavaText.LessTransitive | src/main/java/com/example/demo/Config/KafkaStreamsConfig.java:150 | the key order is transitive |
| JavaText.LessTotal | src/main/java/com/example/demo/Config/KafkaStreamsConfig.java:150 | any two distinct keys are ordered |
| JavaText.ParseInt | src/main/java/com/example/demo/Services/CsvZipProcessor.java:84 | `Integer.parseInt` accepts only a non-empty text and only values in the 32-bit range |
| JavaText.ParseIntSound | src/main/java/com/example/demo/Services/CsvZipProcessor.java:84 | a text that parses is a digit string, or '+' or '-' followed by a non-empty digit string, and its value is that of the digits, negated after '-'; so "5x", " 42" and "" are refused |
| JavaText.ParseIntComplete | src/main/java/com/example/demo/Services/CsvZipProcessor.java:84 | conversely, every such text whose value is in the 32-bit range parses to that value |
| JavaText.ParseIntToString | src/main/java/com/example/demo/Services/CsvZipProcessor.java:84 | every 32-bit integer written in decimal parses back to itself |
| JavaText.ParseBooleanExamples | src/main/java/com/example/demo/Services/ZipProcessor.java:147 | examples of `parseBoolean`: true for "true", "TRUE" and "True"; false for "yes", "1", "" and "true " |
| JavaText.ReadLines | src/main/java/com/example/demo/Services/CsvZipProcessor.java:33-37 | the lines `readLine` yields hold no line terminator, and a non-empty entry yields at least one line (the header); where lines are cut is stated by the lemmas below |
| JavaText.ReadLinesLine | src/main/java/com/example/demo/Services/CsvZipProcessor.java:33-37 | a line ended by "\n", "\r\n" or a '\r' that no '\n' follows is read without its terminator, and reading resumes right after it |
| JavaText.ReadLinesLast | src/main/java/com/example/demo/Services/CsvZipProcessor.java:33-37 | a last piece of text without a terminator is one line |
| JavaText.ReadLinesNewlines | src/main/java/com/example/demo/Services/CsvZipProcessor.java:33-37 | for a text without '\r', the lines are the fields of the split at "\n", without the empty field that a final "\n" leaves |
| Archive.FindCsvEntry | src/main/java/com/example/demo/Services/ZipProcessor.java:86-91 | the first entry in archive order whose name ends in ".csv", and an error exactly when there is none (identical in CsvZipProcessor.java:60-65) |
| Archive.RowsAfterHeader | src/main/java/com/example/demo/Services/CsvZipProcessor.java:36-39 | the lines after the first one, and none for an empty entry |
| Casting.CastValue | src/main/java/com/example/demo/Services/ZipProcessor.java:135-161 | a null value or missing meta passes through; int/integer parse or keep the text; float parses or keeps the text; boolean never falls back; an unknown type keeps the text; the only failure is a NULL field type reaching the switch (identical in CsvZipProcessor.java:110-136) |
| Casting.CastUnparseableInt | src/main/java/com/example/demo/Services/ZipProcessor.java:152-157 | "abc" against an int field comes out as the string "abc" |
| Casting.CastIntRoundTrip | src/main/java/com/example/demo/Services/ZipProcessor.java:152-157 | the decimal text of a 32-bit integer cast as int/integer gives that integer |
| FieldMetaService.FieldMetaOf | src/main/java/com/example/demo/Services/FieldMetaService.java:25-33 | the map's keys are exactly the field names of the rows |
| FieldMetaService.GetFieldMeta | src/main/java/com/example/demo/Services/FieldMetaService.java:25-33 | the per-row `put` loop builds the schema map of the rows |
| FieldMetaService.GetPropsFieldNames | src/main/java/com/example/demo/Services/FieldMetaService.java:36-46 | the per-row loop builds the ordered, filtered name list |
| FieldMetaService.FieldMetaLastWins | src/main/java/com/example/demo/Services/FieldMetaService.java:29-30 | for a duplicated name, the type and special type of the last row are kept |
| FieldMetaService.PropsFieldNamesAppend | src/main/java/com/example/demo/Services/FieldMetaService.java:38-44 | the name list preserves row order: the list of a concatenation is the concatenation of the lists |
| FieldMetaService.PropsFieldNamesOfRow | src/main/java/com/example/demo/Services/FieldMetaService.java:41-42 | a single row is dropped exactly when its name is "resourceId" or "resourceName" |
| FieldMetaService.PropsFieldNamesMembers | src/main/java/com/example/demo/Services/FieldMetaService.java:40-43 | no listed name is an identity column, and each comes from some row |
| FieldMetaService.PropsNamesHaveMeta | src/main/java/com/example/demo/Services/FieldMetaService.java:25-46 | over the same rows, every listed name has metadata |
| ReferenceCache.DescriptionOf | src/main/java/com/example/demo/Services/ResourceDescriptionCacheService.java:39-43 | a description has exactly the three reference keys, holding the row's columns |
| ReferenceCache.Snapshot | src/main/java/com/example/demo/Services/ResourceDescriptionCacheService.java:35-45 | the new map fails exactly when a row has a NULL column; otherwise its ids are exactly the rows' ids, each with the three keys |
| ReferenceCache.SnapshotLastWins | src/main/java/com/example/demo/Services/ResourceDescriptionCacheService.java:44 | with duplicate ids, the description of the last row carrying the id is kept |
| ReferenceCache.DescriptionCache.constructor | src/main/java/com/example/demo/Services/ResourceDescriptionCacheService.java:22-29 | the initial refresh fills the cache, and a failing one leaves it empty |
| ReferenceCache.DescriptionCache.Refresh | src/main/java/com/example/demo/Services/ResourceDescriptionCacheService.java:34-48 | success replaces the whole cache with the query's snapshot; a failed query or NULL column leaves the old contents; the three-key invariant is kept |
| ReferenceCache.DescriptionCache.GetDescription | src/main/java/com/example/demo/Services/ResourceDescriptionCacheService.java:51-53 | the cached description or null, reading only the cache; a present one has the three keys |
| ResourceDescriptionService.GetCsvFormat | src/main/java/com/example/demo/Services/ResourceDescriptionService.java:57-63 | null exactly when there is no row, otherwise the first row's delimiter and end-line token |
| ResourceDescriptionService.GetFileType | src/main/java/com/example/demo/Services/ResourceDescriptionService.java:65-71 | the single row's FILE_TYPE; an exception when the query throws or unless exactly one row matches |
| RowRecords.FieldsRecord | src/main/java/com/example/demo/Services/ZipProcessor.java:118-126 | the only way the fill fails is a cast throwing a NullPointerException; a filled record keeps the initial keys and has every field name as a key |
| RowRecords.FieldsRecordFails | src/main/java/com/example/demo/Services/ZipProcessor.java:120-125 | the fill fails exactly when the cast of some column fails |
| RowRecords.FieldsRecordKeys | src/main/java/com/example/demo/Services/ZipProcessor.java:118-126 | a filled record's keys are the initial keys plus every field name, and initial entries that no field name overwrites are kept |
| RowRecords.FieldsRecordStep | src/main/java/com/example/demo/Services/ZipProcessor.java:120-125 | one loop step: the next column's cast is put under its field name, or the whole row fails if that cast throws |
| RowRecords.FieldsRecordAt | src/main/java/com/example/demo/Services/ZipProcessor.java:120-125 | field `names[k]` holds the cast of column `k` unless a later field has the same name |
| RowRecords.FieldsRecordPrefixErr | src/main/java/com/example/demo/Services/ZipProcessor.java:120-125 | a failing cast among the first fields fails the whole record |
| RowRecords.Collect | src/main/java/com/example/demo/Services/CsvZipProcessor.java:44-48 | every value in order exactly when every future completed normally |
| RowRecords.AllOrNothingInOrder | src/main/java/com/example/demo/Services/CsvZipProcessor.java:45-48 | with no failure, one value per future, in order |
| RowRecords.AllOrNothingFails | src/main/java/com/example/demo/Services/CsvZipProcessor.java:49-52 | one failing future empties the whole batch |
| RowRecords.JoinFutures | src/main/java/com/example/demo/Services/CsvZipProcessor.java:44-52 | the join loop returns the serialised all-or-nothing batch |
| RowRecords.Serialized | src/main/java/com/example/demo/Services/CsvZipProcessor.java:104 | one JSON text per record, in order |
| ZipProcessor.NodeRecords | src/main/java/com/example/demo/Services/ZipProcessor.java:40-46 | an array gives each element in order, an object gives itself, anything else gives nothing |
| ZipProcessor.JsonRecords | src/main/java/com/example/demo/Services/ZipProcessor.java:34-49 | the only failure is an unreadable auxiliary entry |
| ZipProcessor.ProcessZipJson | src/main/java/com/example/demo/Services/ZipProcessor.java:29-52 | the entry loop computes the auxiliary records, and an unopenable archive throws |
| ZipProcessor.JsonRecordsFails | src/main/java/com/example/demo/Services/ZipProcessor.java:37-47 | the call throws exactly when some ".json" entry other than metadata.json does not parse |
| ZipProcessor.JsonRecordsSnoc | src/main/java/com/example/demo/Services/ZipProcessor.java:34-49 | an entry's records follow those of the entries before it |
| ZipProcessor.JsonRecordsAppend | src/main/java/com/example/demo/Services/ZipProcessor.java:34-49 | the records of two entry lists in a row are those of the first followed by those of the second, and the call fails exactly when either list fails |
| ZipProcessor.JsonRecordsSkips | src/main/java/com/example/demo/Services/ZipProcessor.java:37 | "metadata.json" and names not ending in ".json" contribute nothing |
| ZipProcessor.Columns | src/main/java/com/example/demo/Services/ZipProcessor.java:109-116 | the literal split, with the end-line token removed from the last segment only, padded with nulls to the schema length; a null format throws |
| ZipProcessor.SplitColumns | src/main/java/com/example/demo/Services/ZipProcessor.java:109-116 | the array code (split, last-index write, `Arrays.copyOf` padding) computes those columns |
| ZipProcessor.FillRecord | src/main/java/com/example/demo/Services/ZipProcessor.java:118-126 | the `jsonMap.put` loop fills the record field by field |
| ZipProcessor.ProcessCsvLine | src/main/java/com/example/demo/Services/ZipProcessor.java:105-133 | the line's record: the split, stripped, padded and cast columns (`LineRecord`) |
| ZipProcessor.LineResults | src/main/java/com/example/demo/Services/ZipProcessor.java:94-103 | one result per line, in line order |
| ZipProcessor.ProcessCsvLinesAsync | src/main/java/com/example/demo/Services/ZipProcessor.java:94-103 | the forEach builds one future per line, in line order |
| ZipProcessor.ProcessZipCsv | src/main/java/com/example/demo/Services/ZipProcessor.java:55-84 | the CSV entry's rows after the header, transformed and joined all or nothing; a getCsvFormat query that throws makes the call throw |
| ZipProcessor.CsvRecordsFails | src/main/java/com/example/demo/Services/ZipProcessor.java:55-69 | the exceptions in source order: an unopenable archive, then a missing CSV entry, then a failed getCsvFormat query; the call succeeds exactly when none of them happens |
| ZipProcessor.LineRecordField | src/main/java/com/example/demo/Services/ZipProcessor.java:118-126 | field `i` takes column `i` of the split, end-line-stripped line, or null past the last column |
| ZipProcessor.LineRecordKeys | src/main/java/com/example/demo/Services/ZipProcessor.java:118-126 | a record's keys are exactly the field names, whatever the column count |
| ZipProcessor.LineRecordPadsWithNull | src/main/java/com/example/demo/Services/ZipProcessor.java:114-116 | a field past the line's last column is null, not an error |
| ZipProcessor.CsvRecordsInOrder | src/main/java/com/example/demo/Services/ZipProcessor.java:68-79 | one record per line after the header, in line order, or the empty list as soon as one line fails |
| CsvZipProcessor.ProcessCsvLine | src/main/java/com/example/demo/Services/CsvZipProcessor.java:78-108 | the line's record: its id, its name and the mapped columns (`CsvRowRecord`), or the row error |
| CsvZipProcessor.MapColumns | src/main/java/com/example/demo/Services/CsvZipProcessor.java:95-101 | the bounded loop fills field `i` from column `i + 2` while both exist, re-reading the metadata each time |
| CsvZipProcessor.RowResults | src/main/java/com/example/demo/Services/CsvZipProcessor.java:68-76 | one result per line, in line order |
| CsvZipProcessor.ProcessCsvLinesAsync | src/main/java/com/example/demo/Services/CsvZipProcessor.java:68-76 | the forEach builds one future per line, in line order |
| CsvZipProcessor.ProcessZipCsv | src/main/java/com/example/demo/Services/CsvZipProcessor.java:26-57 | archive, CSV entry and metadata query must succeed; an empty entry gives no records; otherwise the rows after the header joined all or nothing |
| CsvZipProcessor.ParseRow | src/main/java/com/example/demo/Services/CsvZipProcessor.java:81-88 | the checks before the field loop: a success holds the split line (at least two fields), the parsed id of column 0 and the PROPS_DATA rows of that id; a failure is a short line, a bad id or a failed query |
| CsvZipProcessor.CsvRowTooShort | src/main/java/com/example/demo/Services/CsvZipProcessor.java:81-82 | fewer than two comma-separated fields is a row error |
| CsvZipProcessor.CsvRowBadId | src/main/java/com/example/demo/Services/CsvZipProcessor.java:84 | a first column that is not a 32-bit decimal integer is a NumberFormatException |
| CsvZipProcessor.CsvRowIdentity | src/main/java/com/example/demo/Services/CsvZipProcessor.java:84-92 | a successful record carries the int of column 0 as resourceId and column 1 as resourceName, never overwritten |
| CsvZipProcessor.CsvRowKeys | src/main/java/com/example/demo/Services/CsvZipProcessor.java:90-101 | the keys are the two identity keys plus the field names that had a column: no padding |
| CsvZipProcessor.CsvRowField | src/main/java/com/example/demo/Services/CsvZipProcessor.java:95-101 | field `i` holds the cast of column `i + 2` against the row's own metadata |
| CsvZipProcessor.CsvZipIgnoresArgument | src/main/java/com/example/demo/Services/CsvZipProcessor.java:31 | the id argument only decides whether the up-front query succeeds; rows use the id in their own first column |
| CsvZipProcessor.CsvZipNoRows | src/main/java/com/example/demo/Services/CsvZipProcessor.java:36-37 | an entry with no line, or only a header, yields the empty list |
| CsvZipProcessor.CsvZipInOrder | src/main/java/com/example/demo/Services/CsvZipProcessor.java:39-52 | one record per line after the header, in order, or the empty list as soon as one line fails |
| MessageKey.Insert | src/main/java/com/example/demo/Config/KafkaStreamsConfig.java:150 | `TreeMap.put` keeps the entries ascending, holds the new entry, and drops only the old entry of that key |
| MessageKey.TreeOf | src/main/java/com/example/demo/Config/KafkaStreamsConfig.java:149-150 | `new TreeMap<>(csvMap)` is ascending and holds exactly the entries of the parsed map |
| MessageKey.SortedUnique | src/main/java/com/example/demo/Config/KafkaStreamsConfig.java:150 | two ascending entry lists of the same map are equal |
| MessageKey.KeyOrderIndependent | src/main/java/com/example/demo/Config/KafkaStreamsConfig.java:150-153 | records with the same contents, in whatever field order, get the same concatenation and the same key |
| MessageKey.CanonicalTextExample | src/main/java/com/example/demo/Config/KafkaStreamsConfig.java:150-152 | an example: {b:2, a:1} and {a:1, b:2} both give "12", the values joined in key order with no separator |
| StreamsConfig.ZipPatternComplete | src/main/java/com/example/demo/Config/KafkaStreamsConfig.java:96 | every `A + "111_csv_with_metadata_" + B + ".zip"` without line terminators matches |
| StreamsConfig.ZipPatternSound | src/main/java/com/example/demo/Config/KafkaStreamsConfig.java:96 | every matching path splits into a prefix, the marker, a middle part and ".zip" |
| StreamsConfig.ZipPatternRejects | src/main/java/com/example/demo/Config/KafkaStreamsConfig.java:96-98 | a trailing newline, another extension and a path without the marker are refused |
| StreamsConfig.ExtractZipPath | src/main/java/com/example/demo/Config/KafkaStreamsConfig.java:92-100 | an unreadable message throws; otherwise the zipPath text exactly when it matches the pattern, else null |
| StreamsConfig.ExtractZipPathAccepts | src/main/java/com/example/demo/Config/KafkaStreamsConfig.java:94-99 | a message whose zipPath has the expected form yields that path |
| StreamsConfig.ExtractResourceId | src/main/java/com/example/demo/Config/KafkaStreamsConfig.java:133-143 | null when the key is absent or null; otherwise `parseInt` of the entry's `toString` text, whatever its JSON kind, so null exactly when that text is not a 32-bit decimal integer; a string entry is `parseInt` of the string, a boolean entry always gives null |
| StreamsConfig.ResourceIdRoundTrip | src/main/java/com/example/demo/Config/KafkaStreamsConfig.java:137 | an id stored as its decimal string is read back unchanged |
| StreamsConfig.ResourceIdNumber | src/main/java/com/example/demo/Config/KafkaStreamsConfig.java:136-139 | a numeric id such as `{"resourceId": 42}`, whose Java text is its decimal string, is read back unchanged |
| StreamsConfig.Enrich | src/main/java/com/example/demo/Config/KafkaStreamsConfig.java:116 | `putAll`: the keys are the union, reference values win, and the other metadata entries are kept |
| StreamsConfig.EnrichIdempotent | src/main/java/com/example/demo/Config/KafkaStreamsConfig.java:116 | enriching twice with the same description changes nothing more |
| StreamsConfig.EnrichKeepsResourceId | src/main/java/com/example/demo/Config/KafkaStreamsConfig.java:112-116 | a three-key description never changes the resource id read afterwards |
| StreamsConfig.FindEntry | src/main/java/com/example/demo/Config/KafkaStreamsConfig.java:106-108 | an entry with exactly that name, and null exactly when there is none |
| StreamsConfig.EnrichedMetadata | src/main/java/com/example/demo/Config/KafkaStreamsConfig.java:104-130 | null exactly when the archive, its metadata.json entry or its object is missing; otherwise the parsed map, overridden by the cached description when the id is cached, else unchanged |
| StreamsConfig.EnrichedMetadataKeepsFile | src/main/java/com/example/demo/Config/KafkaStreamsConfig.java:111-124 | the enriched map keeps every key of metadata.json and every non-reference value, and the same resource id |
| StreamsConfig.MessageFor | src/main/java/com/example/demo/Config/KafkaStreamsConfig.java:149-156 | a record that reads back as an object gives a message to "output_results", keyed by its canonical hash, with value metadata JSON + "\n" + record |
| StreamsConfig.Emitted | src/main/java/com/example/demo/Config/KafkaStreamsConfig.java:148-157 | one message per record, in order, stopping exactly at the first record that does not read back |
| StreamsConfig.EmittedCharacterized | src/main/java/com/example/demo/Config/KafkaStreamsConfig.java:148-157 | those three properties determine the message list |
| StreamsConfig.KafkaStreamsConfig.ComposeMessage | src/main/java/com/example/demo/Config/KafkaStreamsConfig.java:149-154 | the key and message built for one record are those of `MessageFor`, or none when the record does not read back as an object |
| StreamsConfig.EmittedAll | src/main/java/com/example/demo/Config/KafkaStreamsConfig.java:148-157 | every record is sent exactly when every record reads back as an object |
| StreamsConfig.ZipOutcome | src/main/java/com/example/demo/Config/KafkaStreamsConfig.java:62-88 | an accepted input was non-blank, and every message goes to "output_results" |
| StreamsConfig.Delivered | src/main/java/com/example/demo/Config/KafkaStreamsConfig.java:82-83 | the sent messages, and acceptance exactly when the metadata is non-empty and every record was sent |
| StreamsConfig.ZipOutcomeRejectsBlank | src/main/java/com/example/demo/Config/KafkaStreamsConfig.java:65-67 | a null or whitespace-only input is rejected and sends nothing |
| StreamsConfig.ZipOutcomeRejectsPath | src/main/java/com/example/demo/Config/KafkaStreamsConfig.java:69-72 | a path that does not match is rejected and sends nothing |
| StreamsConfig.ZipOutcomeStages | src/main/java/com/example/demo/Config/KafkaStreamsConfig.java:62-88 | returning true or sending anything needs every stage to succeed: a non-blank message that reads, a matching path, metadata, a resource id and the CSV rows; the outcome is then the send loop's over those rows |
| StreamsConfig.ZipOutcomeDelivers | src/main/java/com/example/demo/Config/KafkaStreamsConfig.java:73-83 | once every stage succeeds, the messages are the emitted list, and the input is accepted exactly when every record was sent (the metadata always holds the id) |
| StreamsConfig.KafkaStreamsConfig.constructor | src/main/java/com/example/demo/Config/KafkaStreamsConfig.java:41-45 | the bean keeps its cache service and has sent nothing |
| StreamsConfig.KafkaStreamsConfig.ProcessZip | src/main/java/com/example/demo/Config/KafkaStreamsConfig.java:62-88 | the early-return chain returns the outcome's verdict and appends exactly its messages |
| StreamsConfig.KafkaStreamsConfig.ExtractAndEnrichMetadata | src/main/java/com/example/demo/Config/KafkaStreamsConfig.java:104-130 | reading through `getDescription` gives the enriched metadata of the current cache |
| StreamsConfig.KafkaStreamsConfig.SendCsvJsonsToKafka | src/main/java/com/example/demo/Config/KafkaStreamsConfig.java:146-158 | the send loop appends exactly the emitted messages and reports whether all records were sent |

## Left out

- Kafka topology and wiring are not part of this model: `zipStream` (KafkaStreamsConfig.java:50-58), `KafkaConfig.java` and `WordCountController.java`. `kafkaTemplate.send` is an append to `sent`, and a failing send is not modelled.
- JDBC is not modelled. Each query is an input: its rows in result-set order, or `None` when it throws. `PropsDataService` is not part of this model; ZipProcessor takes its field list and field metadata (ZipProcessor.java:61-62) as plain values, so a PROPS_DATA query that throws there is not a path of ZipProcessor.ProcessZipCsv.
- Queries are treated as deterministic. CsvZipProcessor re-runs the PROPS_DATA query for every line and every field, and all of those runs return the same rows for the same id.
- Archive and stream I/O are not modelled: `ZipFile`, `InputStream`, charset decoding and `BufferedReader`. An archive is a list of `(name, text)` entries and its lines come from `ReadLines`.
- StreamsConfig.FindEntry: when several entries share the name "metadata.json", the model takes the first. `ZipFile.getEntry` may pick another.
- Concurrency is not modelled: `CompletableFuture` scheduling, `ConcurrentHashMap` thread safety, the `@Scheduled` refresh, and the non-atomic `clear` + `putAll`. The futures are computed in line order and joined all or nothing.
- Float numerics are not modelled. `Float.parseFloat` is an uninterpreted partial function and a float is its 32 bits.
- Jackson is an uninterpreted function: parsing, `writeValueAsString`, and `String.valueOf` of the numbers, lists and maps it builds. JSON text is not modelled.
- SHA-256, UTF-8 encoding and `Hex.encodeHexString` are uninterpreted functions. The exception path of `sha256Hex` cannot occur in the model.
- JavaText.ParseInt: accepts only the ASCII digits 0-9. `Integer.parseInt` also accepts other Unicode decimal digits.
- JavaText.ParseBoolean: folds only ASCII letters to lower case. Java's `equalsIgnoreCase` also matches some non-ASCII case pairs.
- JavaText.Less: orders strings by Unicode scalar value. `String.compareTo` orders by UTF-16 code unit, and the two differ only for supplementary characters.
- A NULL FIELD_NAME from PROPS_DATA is not modelled: field names are strings.
- Logging and the ANSI colour constants are not modelled.
- ZipProcessor.JsonRecords: its own contract only states the failure kind. Its content is stated by `JsonRecordsFails`, `JsonRecordsAppend` (archive order) and `JsonRecordsSkips`.
- JavaText.Split: its own contract only states that there is at least one field. Where the text is cut is stated by `SplitJoin`, `SplitDelimited` and `SplitUnique`, which together determine the fields for a non-empty delimiter, and by `SplitEmpty` for the empty one. The empty-delimiter split cuts between Unicode scalar values, where Java's zero-width split cuts between UTF-16 code units and so also between the two halves of a surrogate pair.
- JavaText.RemoveAll: its own contract only states that the text does not grow. That every occurrence is removed is `RemoveAllIsSplitJoin`.
- JavaText.ReadLines: its own contract only states that no line holds a terminator. Where lines are cut is stated by `ReadLinesLine`, `ReadLinesLast` and `ReadLinesNewlines`.
