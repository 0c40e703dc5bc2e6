/**
 * ZipProcessor: auxiliary JSON records of an archive (`processZipJson`) and
 * the row transformer driven by a configurable CSV format
 * (`processZipCsv`, `processCsvLine`). The field list, the field metadata
 * and the CSV format are inputs, as PropsDataService and
 * ResourceDescriptionService return them.
 */
module ZipProcessor {
  import opened Wrappers
  import opened Values
  import opened JavaText
  import opened Casting
  import opened RowRecords
  import opened Archive
  import opened ResourceDescriptionService

  const MetadataName: string := "metadata.json"

  /** An entry `processZipJson` reads: a ".json" name other than "metadata.json". */
  predicate IsAuxiliaryJson(name: string)
  {
    EndsWith(name, ".json") && name != MetadataName
  }

  /** What one parsed node contributes: each element of an array, an object itself, nothing otherwise. */
  function NodeRecords(node: Json, f: Foreign): (texts: seq<string>)
    ensures node.JArray? ==>
      |texts| == |node.items| && forall k :: 0 <= k < |node.items| ==> texts[k] == f.writeJson(node.items[k])
    ensures node.JObject? ==> texts == [f.writeJson(node)]
    ensures !node.JArray? && !node.JObject? ==> texts == []
  {
    match node
    case JArray(items) => WriteEach(items, f)
    case JObject(_) => [f.writeJson(node)]
    case _ => []
  }

  /** Each element written as JSON text, in order. */
  function WriteEach(items: seq<Json>, f: Foreign): (texts: seq<string>)
    ensures |texts| == |items| && forall k :: 0 <= k < |items| ==> texts[k] == f.writeJson(items[k])
  {
    if |items| == 0 then [] else WriteEach(items[..|items| - 1], f) + [f.writeJson(items[|items| - 1])]
  }

  /** What one entry contributes; an auxiliary entry that does not parse throws. */
  function EntryRecords(entry: Entry, f: Foreign): Result<seq<string>>
  {
    if !IsAuxiliaryJson(entry.name) then Ok([])
    else
      match f.readTree(entry.text)
      case None => Err(JsonUnreadable)
      case Some(node) => Ok(NodeRecords(node, f))
  }

  /** The records of the entries, in archive order; the first unreadable auxiliary entry makes it throw. */
  function JsonRecords(entries: Archive, f: Foreign): (r: Result<seq<string>>)
    ensures r.Err? ==> r.failure == JsonUnreadable
  {
    if |entries| == 0 then Ok([])
    else
      var n := |entries| - 1;
      match JsonRecords(entries[..n], f)
      case Err(e) => Err(e)
      case Ok(texts) =>
        match EntryRecords(entries[n], f)
        case Err(e) => Err(e)
        case Ok(more) => Ok(texts + more)
  }

  /** `processZipJson(zipPath)`; `archive` is `None` when the file cannot be opened. */
  method ProcessZipJson(archive: Option<Archive>, f: Foreign) returns (r: Result<seq<string>>)
    ensures archive.None? ==> r == Err(ArchiveUnreadable)
    ensures archive.Some? ==> r == JsonRecords(archive.value, f)
  {
    if archive.None? {
      return Err(ArchiveUnreadable);
    }
    var entries := archive.value;
    var jsonList: seq<string> := [];
    var i := 0;
    while i < |entries|
      invariant 0 <= i <= |entries|
      invariant JsonRecords(entries[..i], f) == Ok(jsonList)
    {
      var entry := entries[i];
      assert entries[..i + 1] == entries[..i] + [entry];
      JsonRecordsSnoc(entries[..i], entry, f);
      if IsAuxiliaryJson(entry.name) {
        var node := f.readTree(entry.text);
        if node.None? {
          assert EntryRecords(entries[i], f).Err?;
          JsonRecordsFails(entries, f);
          return Err(JsonUnreadable);
        }
        ghost var before := jsonList;
        match node.value {
          case JArray(items) =>
            for k := 0 to |items|
              invariant |jsonList| == |before| + k && jsonList[..|before|] == before
              invariant forall j :: 0 <= j < k ==> jsonList[|before| + j] == f.writeJson(items[j])
            {
              jsonList := jsonList + [f.writeJson(items[k])];
            }
          case JObject(_) =>
            jsonList := jsonList + [f.writeJson(node.value)];
          case _ =>
        }
        assert jsonList == before + NodeRecords(node.value, f);
        assert EntryRecords(entry, f) == Ok(NodeRecords(node.value, f));
      } else {
        assert EntryRecords(entry, f) == Ok([]);
        assert jsonList + [] == jsonList;
      }
      i := i + 1;
    }
    assert entries[..|entries|] == entries;
    r := Ok(jsonList);
  }

  /** The whole call throws exactly when some auxiliary entry does not parse. */
  lemma {:induction false} JsonRecordsFails(entries: Archive, f: Foreign)
    ensures JsonRecords(entries, f).Err? <==> exists i :: 0 <= i < |entries| && EntryRecords(entries[i], f).Err?
    decreases |entries|
  {
    if |entries| > 0 {
      var n := |entries| - 1;
      assert forall i :: 0 <= i < n ==> entries[..n][i] == entries[i];
      JsonRecordsFails(entries[..n], f);
    }
  }

  /** One more entry at the end: its records follow those of the entries before it. */
  lemma JsonRecordsSnoc(a: Archive, e: Entry, f: Foreign)
    ensures JsonRecords(a + [e], f).Ok? <==> JsonRecords(a, f).Ok? && EntryRecords(e, f).Ok?
    ensures JsonRecords(a + [e], f).Ok? ==>
      JsonRecords(a + [e], f).value == JsonRecords(a, f).value + EntryRecords(e, f).value
  {
    var ae := a + [e];
    assert ae[..|ae| - 1] == a;
    assert ae[|ae| - 1] == e;
  }

  /**
   * Reading two runs of entries one after the other: the call succeeds
   * exactly when it succeeds on each run, and the records of the first run
   * come first.
   */
  lemma {:induction false} JsonRecordsAppend(a: Archive, b: Archive, f: Foreign)
    ensures JsonRecords(a + b, f).Ok? <==> JsonRecords(a, f).Ok? && JsonRecords(b, f).Ok?
    ensures JsonRecords(a + b, f).Ok? ==>
      JsonRecords(a + b, f).value == JsonRecords(a, f).value + JsonRecords(b, f).value
    decreases |b|
  {
    if |b| == 0 {
      assert a + b == a;
      if JsonRecords(a, f).Ok? {
        assert JsonRecords(a, f).value + [] == JsonRecords(a, f).value;
      }
    } else {
      var n := |b| - 1;
      var front, e := b[..n], b[n];
      assert b == front + [e];
      JsonRecordsAppend(a, front, f);
      JsonRecordsAppendStep(a, front, e, f);
    }
  }

  lemma JsonRecordsAppendStep(a: Archive, front: Archive, e: Entry, f: Foreign)
    requires JsonRecords(a + front, f).Ok? <==> JsonRecords(a, f).Ok? && JsonRecords(front, f).Ok?
    requires JsonRecords(a + front, f).Ok? ==>
      JsonRecords(a + front, f).value == JsonRecords(a, f).value + JsonRecords(front, f).value
    ensures JsonRecords(a + (front + [e]), f).Ok? <==> JsonRecords(a, f).Ok? && JsonRecords(front + [e], f).Ok?
    ensures JsonRecords(a + (front + [e]), f).Ok? ==>
      JsonRecords(a + (front + [e]), f).value == JsonRecords(a, f).value + JsonRecords(front + [e], f).value
  {
    var af := a + front;
    assert a + (front + [e]) == af + [e];
    JsonRecordsSnoc(af, e, f);
    JsonRecordsSnoc(front, e, f);
    ConcatResults(JsonRecords(af + [e], f), JsonRecords(af, f), EntryRecords(e, f),
                  JsonRecords(front + [e], f), JsonRecords(front, f), JsonRecords(a, f));
  }

  /** How three successive parts that either fail or give texts combine, whichever way they are grouped. */
  lemma ConcatResults<T>(whole: Result<seq<T>>, prefix: Result<seq<T>>, last: Result<seq<T>>,
                         right: Result<seq<T>>, middle: Result<seq<T>>, left: Result<seq<T>>)
    requires whole.Ok? <==> prefix.Ok? && last.Ok?
    requires whole.Ok? ==> whole.value == prefix.value + last.value
    requires right.Ok? <==> middle.Ok? && last.Ok?
    requires right.Ok? ==> right.value == middle.value + last.value
    requires prefix.Ok? <==> left.Ok? && middle.Ok?
    requires prefix.Ok? ==> prefix.value == left.value + middle.value
    ensures whole.Ok? <==> left.Ok? && right.Ok?
    ensures whole.Ok? ==> whole.value == left.value + right.value
  {
    if whole.Ok? {
      var x, y, z := left.value, middle.value, last.value;
      assert (x + y) + z == x + (y + z);
    }
  }

  /** "metadata.json" and every name not ending in ".json" contribute nothing. */
  lemma JsonRecordsSkips(a: Archive, e: Entry, f: Foreign)
    requires !IsAuxiliaryJson(e.name)
    ensures JsonRecords(a + [e], f) == JsonRecords(a, f)
  {
    var ae := a + [e];
    assert ae[..|ae| - 1] == a;
    assert ae[|ae| - 1] == e;
    assert EntryRecords(e, f) == Ok([]);
    if JsonRecords(a, f).Ok? {
      assert JsonRecords(a, f).value + [] == JsonRecords(a, f).value;
    }
  }

  /**
   * The columns `processCsvLine` maps from: the line split on the
   * delimiter taken literally, the end-line token removed from the last
   * segment, then padded with nulls up to `width`. A null format, delimiter
   * or end-line token throws.
   */
  function Columns(line: string, format: Option<CsvFormat>, width: nat): (r: Result<seq<Option<string>>>)
    ensures r.Err? <==> format.None? || format.value.delimiter.None? || format.value.endLine.None?
    ensures r.Err? ==> r.failure == NullPointer
    ensures r.Ok? ==>
      var parts := Split(line, format.value.delimiter.value);
      var last := |parts| - 1;
      && |r.value| == (if |parts| < width then width else |parts|)
      && (forall i :: 0 <= i < last ==> r.value[i] == Some(parts[i]))
      && r.value[last] == Some(RemoveAll(parts[last], format.value.endLine.value))
      && (forall i :: |parts| <= i < |r.value| ==> r.value[i] == None)
  {
    if format.None? || format.value.delimiter.None? || format.value.endLine.None? then Err(NullPointer)
    else
      var parts := Split(line, format.value.delimiter.value);
      var last := |parts| - 1;
      var stripped := parts[last := RemoveAll(parts[last], format.value.endLine.value)];
      var n := if |parts| < width then width else |parts|;
      Ok(seq(n, i requires 0 <= i < n => if i < |parts| then Some(stripped[i]) else None))
  }

  /** The record of one line: field `i` of `fieldNames` takes column `i`. */
  function LineRecord(line: string, propsDataMap: map<string, FieldMeta>, fieldNames: seq<string>,
                      format: Option<CsvFormat>, parseFloat: string -> Option<FloatBits>): Result<Record>
  {
    match Columns(line, format, |fieldNames|)
    case Err(e) => Err(e)
    case Ok(cols) => FieldsRecord(map[], cols, fieldNames, propsDataMap, parseFloat)
  }

  /** `processCsvLine(line, propsDataMap, fieldNames, csvFormat)`, before the record is written as JSON. */
  method ProcessCsvLine(line: string, propsDataMap: map<string, FieldMeta>, fieldNames: seq<string>,
                        format: Option<CsvFormat>, parseFloat: string -> Option<FloatBits>) returns (r: Result<Record>)
    ensures r == LineRecord(line, propsDataMap, fieldNames, format, parseFloat)
  {
    var cols := SplitColumns(line, format, |fieldNames|);
    if cols.Err? {
      return Err(NullPointer);
    }
    r := FillRecord(cols.value, propsDataMap, fieldNames, parseFloat);
  }

  /** The split, stripped and padded values array of `processCsvLine`. */
  method SplitColumns(line: string, format: Option<CsvFormat>, width: nat) returns (r: Result<seq<Option<string>>>)
    ensures r == Columns(line, format, width)
  {
    if format.None? || format.value.delimiter.None? {
      return Err(NullPointer);
    }
    var parts := Split(line, format.value.delimiter.value);
    var values := new Option<string>[|parts|](i requires 0 <= i < |parts| => Some(parts[i]));
    if format.value.endLine.None? {
      return Err(NullPointer);
    }
    ghost var stripped := parts[|parts| - 1 := RemoveAll(parts[|parts| - 1], format.value.endLine.value)];
    values[values.Length - 1] := Some(RemoveAll(parts[|parts| - 1], format.value.endLine.value));
    assert forall j :: 0 <= j < values.Length ==> values[j] == Some(stripped[j]);
    if values.Length < width {
      values := CopyOf(values, width);
    }
    ghost var n := if |parts| < width then width else |parts|;
    assert values.Length == n;
    assert forall j :: 0 <= j < n ==> values[j] == if j < |parts| then Some(stripped[j]) else None;
    var cols := values[..];
    ghost var expected := Columns(line, format, width);
    assert |expected.value| == |cols|;
    forall j | 0 <= j < |cols| ensures cols[j] == expected.value[j] {
      if j < |parts| - 1 {
        assert stripped[j] == parts[j];
      }
    }
    assert expected.value == cols;
    r := Ok(cols);
  }

  /** `Arrays.copyOf(values, width)` for a `width` at least the length: the values, then nulls. */
  method CopyOf(values: array<Option<string>>, width: nat) returns (padded: array<Option<string>>)
    requires values.Length <= width
    ensures fresh(padded) && padded.Length == width
    ensures forall j :: 0 <= j < values.Length ==> padded[j] == values[j]
    ensures forall j :: values.Length <= j < width ==> padded[j] == None
  {
    padded := new Option<string>[width](_ => None);
    for i := 0 to values.Length
      modifies padded
      invariant forall j :: 0 <= j < i ==> padded[j] == values[j]
      invariant forall j :: i <= j < padded.Length ==> padded[j] == None
    {
      padded[i] := values[i];
    }
  }

  /** The `jsonMap.put(fieldName, castValue(...))` loop over the field names, in order. */
  method FillRecord(cols: seq<Option<string>>, propsDataMap: map<string, FieldMeta>, fieldNames: seq<string>,
                    parseFloat: string -> Option<FloatBits>) returns (r: Result<Record>)
    requires |fieldNames| <= |cols|
    ensures r == FieldsRecord(map[], cols, fieldNames, propsDataMap, parseFloat)
  {
    var jsonMap: Record := map[];
    for i := 0 to |fieldNames|
      invariant FieldsRecord(map[], cols, fieldNames[..i], propsDataMap, parseFloat) == Ok(jsonMap)
    {
      var cast := CastValue(cols[i], MetaOf(propsDataMap, fieldNames[i]), parseFloat);
      FieldsRecordStep(map[], cols, fieldNames, propsDataMap, parseFloat, i);
      if cast.Err? {
        return Err(NullPointer);
      }
      jsonMap := jsonMap[fieldNames[i] := cast.value];
    }
    assert fieldNames[..|fieldNames|] == fieldNames;
    r := Ok(jsonMap);
  }

  /** The per-line results of a batch. */
  function LineResults(rows: seq<string>, propsDataMap: map<string, FieldMeta>, fieldNames: seq<string>,
                       format: Option<CsvFormat>, parseFloat: string -> Option<FloatBits>): (rs: seq<Result<Record>>)
    ensures |rs| == |rows|
    ensures forall i :: 0 <= i < |rows| ==> rs[i] == LineRecord(rows[i], propsDataMap, fieldNames, format, parseFloat)
  {
    seq(|rows|, i requires 0 <= i < |rows| => LineRecord(rows[i], propsDataMap, fieldNames, format, parseFloat))
  }

  /**
   * `processZipCsv`: the records of every line after the header, or the
   * empty list if any line throws. `formatRows` holds the rows of the
   * `getCsvFormat` query, `None` when that query throws.
   */
  function CsvRecords(archive: Option<Archive>, propsDataMap: map<string, FieldMeta>, fieldNames: seq<string>,
                      formatRows: Option<seq<FormatRow>>, f: Foreign): Result<seq<string>>
  {
    if archive.None? then Err(ArchiveUnreadable)
    else
      match FindCsvEntry(archive.value)
      case Err(e) => Err(e)
      case Ok(entry) =>
        if formatRows.None? then Err(QueryFailed)
        else
          var format := GetCsvFormat(formatRows.value);
          Ok(Serialized(AllOrNothing(LineResults(RowsAfterHeader(entry.text), propsDataMap, fieldNames, format, f.parseFloat)), f))
  }

  /** `processZipCsv(zipPath, resourceId)`, with the row futures joined in line order. */
  method ProcessZipCsv(archive: Option<Archive>, propsDataMap: map<string, FieldMeta>, fieldNames: seq<string>,
                       formatRows: Option<seq<FormatRow>>, f: Foreign) returns (r: Result<seq<string>>)
    ensures r == CsvRecords(archive, propsDataMap, fieldNames, formatRows, f)
  {
    if archive.None? {
      return Err(ArchiveUnreadable);
    }
    var csvEntry := FindCsvEntry(archive.value);
    if csvEntry.Err? {
      return Err(csvEntry.failure);
    }
    if formatRows.None? {
      return Err(QueryFailed);
    }
    var format := GetCsvFormat(formatRows.value);
    var rows := RowsAfterHeader(csvEntry.value.text);
    var futures := ProcessCsvLinesAsync(rows, propsDataMap, fieldNames, format, f.parseFloat);
    var jsonList := JoinFutures(futures, f);
    r := Ok(jsonList);
  }

  /** `processCsvLinesAsync(reader, ...)`: one row future per remaining line, in line order. */
  method ProcessCsvLinesAsync(rows: seq<string>, propsDataMap: map<string, FieldMeta>, fieldNames: seq<string>,
                              format: Option<CsvFormat>, parseFloat: string -> Option<FloatBits>)
    returns (futures: seq<Result<Record>>)
    ensures futures == LineResults(rows, propsDataMap, fieldNames, format, parseFloat)
  {
    futures := [];
    for i := 0 to |rows|
      invariant |futures| == i
      invariant forall k :: 0 <= k < i ==> futures[k] == LineRecord(rows[k], propsDataMap, fieldNames, format, parseFloat)
    {
      var record := ProcessCsvLine(rows[i], propsDataMap, fieldNames, format, parseFloat);
      futures := futures + [record];
    }
  }

  /** Field `i` takes column `i` of the split, end-line-stripped line, or null past its last column. */
  lemma LineRecordField(line: string, propsDataMap: map<string, FieldMeta>, fieldNames: seq<string>,
                        format: Option<CsvFormat>, parseFloat: string -> Option<FloatBits>, i: int)
    requires LineRecord(line, propsDataMap, fieldNames, format, parseFloat).Ok?
    requires 0 <= i < |fieldNames|
    requires forall j :: i < j < |fieldNames| ==> fieldNames[j] != fieldNames[i]
    ensures format.Some? && format.value.delimiter.Some? && format.value.endLine.Some?
    ensures
      var parts := Split(line, format.value.delimiter.value);
      var column := if i < |parts| - 1 then Some(parts[i])
                    else if i == |parts| - 1 then Some(RemoveAll(parts[i], format.value.endLine.value))
                    else None;
      CastValue(column, MetaOf(propsDataMap, fieldNames[i]), parseFloat).Ok? &&
      LineRecord(line, propsDataMap, fieldNames, format, parseFloat).value[fieldNames[i]] ==
        CastValue(column, MetaOf(propsDataMap, fieldNames[i]), parseFloat).value
  {
    var cols := Columns(line, format, |fieldNames|).value;
    var parts := Split(line, format.value.delimiter.value);
    var column := if i < |parts| - 1 then Some(parts[i])
                  else if i == |parts| - 1 then Some(RemoveAll(parts[i], format.value.endLine.value))
                  else None;
    assert cols[i] == column;
    FieldsRecordAt(map[], cols, fieldNames, propsDataMap, parseFloat, i);
    assert CastAt(cols, fieldNames, propsDataMap, parseFloat, i) == CastValue(column, MetaOf(propsDataMap, fieldNames[i]), parseFloat);
  }

  /** A successful record has exactly the field names as keys, however many columns the line has. */
  lemma LineRecordKeys(line: string, propsDataMap: map<string, FieldMeta>, fieldNames: seq<string>,
                       format: Option<CsvFormat>, parseFloat: string -> Option<FloatBits>)
    requires LineRecord(line, propsDataMap, fieldNames, format, parseFloat).Ok?
    ensures LineRecord(line, propsDataMap, fieldNames, format, parseFloat).value.Keys == set k | 0 <= k < |fieldNames| :: fieldNames[k]
  {
    var cols := Columns(line, format, |fieldNames|).value;
    FieldsRecordKeys(map[], cols, fieldNames, propsDataMap, parseFloat);
  }

  /** A short line is padded with nulls: a field past the line's last column is null, not an error. */
  lemma LineRecordPadsWithNull(line: string, propsDataMap: map<string, FieldMeta>, fieldNames: seq<string>,
                               format: Option<CsvFormat>, parseFloat: string -> Option<FloatBits>, i: int)
    requires LineRecord(line, propsDataMap, fieldNames, format, parseFloat).Ok?
    requires 0 <= i < |fieldNames|
    requires forall j :: i < j < |fieldNames| ==> fieldNames[j] != fieldNames[i]
    requires i >= |Split(line, format.value.delimiter.value)|
    ensures LineRecord(line, propsDataMap, fieldNames, format, parseFloat).value[fieldNames[i]] == VNull
  {
    LineRecordField(line, propsDataMap, fieldNames, format, parseFloat, i);
  }

  /**
   * A failing step ends the call with its own exception, in the order of
   * the source: the archive, then the CSV entry, then the format query.
   */
  lemma CsvRecordsFails(archive: Option<Archive>, propsDataMap: map<string, FieldMeta>, fieldNames: seq<string>,
                        formatRows: Option<seq<FormatRow>>, f: Foreign)
    ensures archive.None? ==> CsvRecords(archive, propsDataMap, fieldNames, formatRows, f) == Err(ArchiveUnreadable)
    ensures archive.Some? && FindCsvEntry(archive.value).Err? ==>
      CsvRecords(archive, propsDataMap, fieldNames, formatRows, f) == Err(CsvNotFound)
    ensures archive.Some? && FindCsvEntry(archive.value).Ok? && formatRows.None? ==>
      CsvRecords(archive, propsDataMap, fieldNames, formatRows, f) == Err(QueryFailed)
    ensures CsvRecords(archive, propsDataMap, fieldNames, formatRows, f).Ok? <==>
      archive.Some? && FindCsvEntry(archive.value).Ok? && formatRows.Some?
  {
  }

  /** The batch: one record per line after the header, in line order, or nothing at all. */
  lemma CsvRecordsInOrder(archive: Archive, propsDataMap: map<string, FieldMeta>, fieldNames: seq<string>,
                          formatRows: seq<FormatRow>, f: Foreign)
    requires FindCsvEntry(archive).Ok?
    ensures
      var rows := RowsAfterHeader(FindCsvEntry(archive).value.text);
      var format := GetCsvFormat(formatRows);
      var out := CsvRecords(Some(archive), propsDataMap, fieldNames, Some(formatRows), f);
      && out.Ok?
      && ((exists i :: 0 <= i < |rows| && LineRecord(rows[i], propsDataMap, fieldNames, format, f.parseFloat).Err?) ==> out.value == [])
      && ((forall i :: 0 <= i < |rows| ==> LineRecord(rows[i], propsDataMap, fieldNames, format, f.parseFloat).Ok?) ==>
            |out.value| == |rows| &&
            forall i :: 0 <= i < |rows| ==>
              out.value[i] == f.writeRecord(LineRecord(rows[i], propsDataMap, fieldNames, format, f.parseFloat).value))
  {
  }
}
