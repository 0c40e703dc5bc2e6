/**
 * CsvZipProcessor: the row transformer with a fixed layout. Every line is
 * split on commas; column 0 is the line's own RESOURCE_ID, column 1 its
 * name, and the remaining columns are mapped, in order, onto the field names
 * PROPS_DATA lists for that id. The PROPS_DATA query is an input: for each
 * RESOURCE_ID, its rows, or `None` when it throws.
 */
module CsvZipProcessor {
  import opened Wrappers
  import opened Values
  import opened JavaText
  import opened Casting
  import opened RowRecords
  import opened Archive
  import opened FieldMetaService

  type PropsQuery = int -> Option<seq<PropsRow>>

  /** The columns after the id and the name, each one present. */
  function DataColumns(values: seq<string>): (cols: seq<Option<string>>)
    requires |values| >= 2
    ensures |cols| == |values| - 2
    ensures forall k :: 0 <= k < |cols| ==> cols[k] == Some(values[k + 2])
  {
    seq(|values| - 2, k requires 0 <= k < |values| - 2 => Some(values[k + 2]))
  }

  /** The record every line starts from: its id and its name. */
  function IdentityRecord(resourceId: int, resourceName: string): Record
  {
    map[ResourceIdField := VInt(resourceId), ResourceNameField := VStr(resourceName)]
  }

  /** How many field names a line of `values` fills: the loop stops at the shorter of the two. */
  function FilledCount(names: seq<string>, values: seq<string>): (n: nat)
    requires |values| >= 2
    ensures n <= |names| && n <= |values| - 2
    ensures n == |names| || n == |values| - 2
  {
    if |names| < |values| - 2 then |names| else |values| - 2
  }

  /** What the checks before the field loop leave: the split line, its id, and the PROPS_DATA rows of that id. */
  datatype RowHead = RowHead(values: seq<string>, id: int, rows: seq<PropsRow>)

  /**
   * The checks before the field loop: fewer than two comma-separated
   * columns, an id that does not parse or a PROPS_DATA query that throws
   * fails the line.
   */
  function ParseRow(line: string, props: PropsQuery): (r: Result<RowHead>)
    ensures r.Ok? ==> r.value.values == SplitDropTrailing(line, ",") && |r.value.values| >= 2
    ensures r.Ok? ==> ParseInt(r.value.values[0]) == Some(r.value.id) && props(r.value.id) == Some(r.value.rows)
    ensures r.Err? ==> r.failure == InvalidCsvLine || r.failure == NumberFormat || r.failure == QueryFailed
  {
    var values := SplitDropTrailing(line, ",");
    if |values| < 2 then Err(InvalidCsvLine)
    else
      match ParseInt(values[0])
      case None => Err(NumberFormat)
      case Some(id) =>
        match props(id)
        case None => Err(QueryFailed)
        case Some(rows) => Ok(RowHead(values, id, rows))
  }

  /** The field names a line fills: the listed names, cut at the number of data columns. */
  function FilledNames(h: RowHead): seq<string>
    requires |h.values| >= 2
  {
    var names := PropsFieldNames(h.rows);
    names[..FilledCount(names, h.values)]
  }

  /**
   * The record of one line, before it is written as JSON: the line's id
   * and name, then field `i` takes column `i + 2` for as long as both the
   * field names and the columns last; nothing pads a short line.
   */
  function CsvRowRecord(line: string, props: PropsQuery, parseFloat: string -> Option<FloatBits>): Result<Record>
  {
    match ParseRow(line, props)
    case Err(e) => Err(e)
    case Ok(h) => FieldsRecord(IdentityRecord(h.id, h.values[1]), DataColumns(h.values), FilledNames(h), FieldMetaOf(h.rows), parseFloat)
  }

  /** `processCsvLine(line)`, before the record is written as JSON. */
  method ProcessCsvLine(line: string, props: PropsQuery, parseFloat: string -> Option<FloatBits>) returns (r: Result<Record>)
    ensures r == CsvRowRecord(line, props, parseFloat)
  {
    var values := SplitDropTrailing(line, ",");
    if |values| < 2 {
      return Err(InvalidCsvLine);
    }
    var parsed := ParseInt(values[0]);
    if parsed.None? {
      return Err(NumberFormat);
    }
    var resourceId := parsed.value;
    var resourceName := values[1];
    var query := props(resourceId);
    if query.None? {
      return Err(QueryFailed);
    }
    var fieldNames := GetPropsFieldNames(query.value);
    var jsonMap: Record := map[];
    jsonMap := jsonMap[ResourceIdField := VInt(resourceId)];
    jsonMap := jsonMap[ResourceNameField := VStr(resourceName)];
    r := MapColumns(jsonMap, values, fieldNames, query.value, parseFloat);
    assert ParseRow(line, props) == Ok(RowHead(values, resourceId, query.value));
  }

  /**
   * The loop of `processCsvLine`: field `i` takes column `i + 2` while both
   * last, each cast against the metadata re-read for the line's id.
   */
  method MapColumns(init: Record, values: seq<string>, fieldNames: seq<string>, rows: seq<PropsRow>,
                    parseFloat: string -> Option<FloatBits>) returns (r: Result<Record>)
    requires |values| >= 2
    ensures r == FieldsRecord(init, DataColumns(values), fieldNames[..FilledCount(fieldNames, values)], FieldMetaOf(rows), parseFloat)
  {
    ghost var cols := DataColumns(values);
    ghost var metas := FieldMetaOf(rows);
    ghost var names := fieldNames[..FilledCount(fieldNames, values)];
    var jsonMap := init;
    var i := 0;
    while i < |fieldNames| && i + 2 < |values|
      invariant 0 <= i <= |names|
      invariant FieldsRecord(init, cols, names[..i], metas, parseFloat) == Ok(jsonMap)
    {
      var fieldName := fieldNames[i];
      var value := values[i + 2];
      var fieldMeta := GetFieldMeta(rows);
      var cast := CastValue(Some(value), MetaOf(fieldMeta, fieldName), parseFloat);
      assert cast == CastAt(cols, names, metas, parseFloat, i);
      FieldsRecordStep(init, cols, names, metas, parseFloat, i);
      if cast.Err? {
        return Err(NullPointer);
      }
      jsonMap := jsonMap[fieldName := cast.value];
      i := i + 1;
    }
    assert names[..i] == names;
    r := Ok(jsonMap);
  }

  /** The per-line results of a batch. */
  function RowResults(rows: seq<string>, props: PropsQuery, parseFloat: string -> Option<FloatBits>): (rs: seq<Result<Record>>)
    ensures |rs| == |rows|
    ensures forall i :: 0 <= i < |rows| ==> rs[i] == CsvRowRecord(rows[i], props, parseFloat)
  {
    if |rows| == 0 then []
    else
      var n := |rows| - 1;
      RowResults(rows[..n], props, parseFloat) + [CsvRowRecord(rows[n], props, parseFloat)]
  }

  /**
   * `processZipCsv(zipPath, resourceId)`: the archive must open and hold a
   * CSV entry, and the field metadata of `resourceId` is queried (and then
   * not used); an empty entry gives no records, otherwise the records of
   * every line after the header, or the empty list if any line fails.
   */
  function CsvZipRecords(archive: Option<Archive>, resourceId: int, props: PropsQuery, f: Foreign): Result<seq<string>>
  {
    if archive.None? then Err(ArchiveUnreadable)
    else
      match FindCsvEntry(archive.value)
      case Err(e) => Err(e)
      case Ok(entry) =>
        if props(resourceId).None? then Err(QueryFailed)
        else Ok(Serialized(AllOrNothing(RowResults(RowsAfterHeader(entry.text), props, f.parseFloat)), f))
  }

  /** `processZipCsv(zipPath, resourceId)`, with the row futures joined in line order. */
  method ProcessZipCsv(archive: Option<Archive>, resourceId: int, props: PropsQuery, f: Foreign) returns (r: Result<seq<string>>)
    ensures r == CsvZipRecords(archive, resourceId, props, f)
  {
    if archive.None? {
      return Err(ArchiveUnreadable);
    }
    var csvEntry := FindCsvEntry(archive.value);
    if csvEntry.Err? {
      return Err(csvEntry.failure);
    }
    var query := props(resourceId);
    if query.None? {
      return Err(QueryFailed);
    }
    var _ := GetFieldMeta(query.value);
    var lines := ReadLines(csvEntry.value.text);
    if |lines| == 0 {
      return Ok([]);
    }
    var futures := ProcessCsvLinesAsync(lines[1..], props, f.parseFloat);
    var jsonList := JoinFutures(futures, f);
    r := Ok(jsonList);
  }

  /** `processCsvLinesAsync(reader)`: one row future per remaining line, in line order. */
  method ProcessCsvLinesAsync(rows: seq<string>, props: PropsQuery, parseFloat: string -> Option<FloatBits>)
    returns (futures: seq<Result<Record>>)
    ensures futures == RowResults(rows, props, parseFloat)
  {
    futures := [];
    for i := 0 to |rows|
      invariant futures == RowResults(rows[..i], props, parseFloat)
    {
      var record := ProcessCsvLine(rows[i], props, parseFloat);
      assert rows[..i + 1][..i] == rows[..i];
      futures := futures + [record];
    }
    assert rows[..|rows|] == rows;
  }

  /** A line with fewer than two comma-separated columns is refused. */
  lemma CsvRowTooShort(line: string, props: PropsQuery, parseFloat: string -> Option<FloatBits>)
    requires |SplitDropTrailing(line, ",")| < 2
    ensures CsvRowRecord(line, props, parseFloat) == Err(InvalidCsvLine)
  {
  }

  /** A line whose first column is not a 32-bit decimal integer is refused. */
  lemma CsvRowBadId(line: string, props: PropsQuery, parseFloat: string -> Option<FloatBits>)
    requires |SplitDropTrailing(line, ",")| >= 2
    requires ParseInt(SplitDropTrailing(line, ",")[0]).None?
    ensures CsvRowRecord(line, props, parseFloat) == Err(NumberFormat)
  {
  }

  /**
   * The record of a line that goes through carries the line's own id and
   * name: field names from PROPS_DATA never overwrite them.
   */
  lemma CsvRowIdentity(line: string, props: PropsQuery, parseFloat: string -> Option<FloatBits>)
    requires CsvRowRecord(line, props, parseFloat).Ok?
    ensures ParseRow(line, props).Ok?
    ensures
      var h := ParseRow(line, props).value;
      var record := CsvRowRecord(line, props, parseFloat).value;
      record[ResourceIdField] == VInt(h.id) && record[ResourceNameField] == VStr(h.values[1])
  {
    var h := ParseRow(line, props).value;
    var names := FilledNames(h);
    PropsFieldNamesMembers(h.rows);
    assert ResourceIdField !in names && ResourceNameField !in names;
    FieldsRecordKeys(IdentityRecord(h.id, h.values[1]), DataColumns(h.values), names, FieldMetaOf(h.rows), parseFloat);
  }

  /**
   * The keys of a record are the id, the name and the field names that had
   * a column: a field past the line's last column is absent, not null.
   */
  lemma CsvRowKeys(line: string, props: PropsQuery, parseFloat: string -> Option<FloatBits>)
    requires CsvRowRecord(line, props, parseFloat).Ok?
    ensures ParseRow(line, props).Ok?
    ensures
      var names := FilledNames(ParseRow(line, props).value);
      CsvRowRecord(line, props, parseFloat).value.Keys ==
        {ResourceIdField, ResourceNameField} + set k | 0 <= k < |names| :: names[k]
  {
    var h := ParseRow(line, props).value;
    FieldsRecordKeys(IdentityRecord(h.id, h.values[1]), DataColumns(h.values), FilledNames(h), FieldMetaOf(h.rows), parseFloat);
  }

  /** Field `i` holds the cast of column `i + 2`, unless a later filled field has the same name. */
  lemma CsvRowField(line: string, props: PropsQuery, parseFloat: string -> Option<FloatBits>, i: int)
    requires CsvRowRecord(line, props, parseFloat).Ok?
    requires ParseRow(line, props).Ok?
    requires
      var names := FilledNames(ParseRow(line, props).value);
      0 <= i < |names| && forall j :: i < j < |names| ==> names[j] != names[i]
    ensures
      var h := ParseRow(line, props).value;
      var names := FilledNames(h);
      var cast := CastValue(Some(h.values[i + 2]), MetaOf(FieldMetaOf(h.rows), names[i]), parseFloat);
      cast.Ok? && CsvRowRecord(line, props, parseFloat).value[names[i]] == cast.value
  {
    var h := ParseRow(line, props).value;
    FieldsRecordAt(IdentityRecord(h.id, h.values[1]), DataColumns(h.values), FilledNames(h), FieldMetaOf(h.rows), parseFloat, i);
  }

  /**
   * The `resourceId` argument only decides whether the up-front metadata
   * query succeeds: every line is mapped with the id in its own first column.
   */
  lemma CsvZipIgnoresArgument(archive: Option<Archive>, id1: int, id2: int, props: PropsQuery, f: Foreign)
    requires props(id1).Some? && props(id2).Some?
    ensures CsvZipRecords(archive, id1, props, f) == CsvZipRecords(archive, id2, props, f)
  {
  }

  /** A CSV entry with no line at all, or with the header line only, yields the empty list. */
  lemma CsvZipNoRows(archive: Archive, resourceId: int, props: PropsQuery, f: Foreign)
    requires FindCsvEntry(archive).Ok? && props(resourceId).Some?
    requires |ReadLines(FindCsvEntry(archive).value.text)| <= 1
    ensures CsvZipRecords(Some(archive), resourceId, props, f) == Ok([])
  {
  }

  /** The batch: one record per line after the header, in line order, or nothing at all. */
  lemma CsvZipInOrder(archive: Archive, resourceId: int, props: PropsQuery, f: Foreign)
    requires FindCsvEntry(archive).Ok? && props(resourceId).Some?
    ensures
      var rows := RowsAfterHeader(FindCsvEntry(archive).value.text);
      var out := CsvZipRecords(Some(archive), resourceId, props, f);
      && out.Ok?
      && ((exists i :: 0 <= i < |rows| && CsvRowRecord(rows[i], props, f.parseFloat).Err?) ==> out.value == [])
      && ((forall i :: 0 <= i < |rows| ==> CsvRowRecord(rows[i], props, f.parseFloat).Ok?) ==>
            |out.value| == |rows| &&
            forall i :: 0 <= i < |rows| ==> out.value[i] == f.writeRecord(CsvRowRecord(rows[i], props, f.parseFloat).value))
  {
  }
}
