/**
 * ResourceDescriptionService's own queries, over their result rows: the
 * CSV format of a dataset and its file type. Its cache is
 * ReferenceCache.DescriptionCache.
 */
module ResourceDescriptionService {
  import opened Wrappers

  /** `CsvFormat(delimiter, endLine)`; either column may be SQL NULL. */
  datatype CsvFormat = CsvFormat(delimiter: Option<string>, endLine: Option<string>)

  /** One row of `SELECT DELIMITER, END_LINE ... WHERE RESOURCE_ID = ?`. */
  datatype FormatRow = FormatRow(delimiter: Option<string>, endLine: Option<string>)

  /** `getCsvFormat`: the first row's two columns, or null when there is no row. */
  function GetCsvFormat(rows: seq<FormatRow>): (r: Option<CsvFormat>)
    ensures r.None? <==> |rows| == 0
    ensures r.Some? ==> r.value.delimiter == rows[0].delimiter && r.value.endLine == rows[0].endLine
  {
    if |rows| == 0 then None else Some(CsvFormat(rows[0].delimiter, rows[0].endLine))
  }

  /**
   * `getFileType`: `queryForObject` over the FILE_TYPE column. `None` is a
   * query that throws; a result with other than exactly one row throws too.
   */
  function GetFileType(rows: Option<seq<Option<string>>>): (r: Result<Option<string>>)
    ensures r.Ok? <==> rows.Some? && |rows.value| == 1
    ensures r.Ok? ==> r.value == rows.value[0]
    ensures rows.None? ==> r == Err(QueryFailed)
    ensures rows.Some? && |rows.value| != 1 ==> r == Err(ResultSize)
  {
    if rows.None? then Err(QueryFailed)
    else if |rows.value| == 1 then Ok(rows.value[0]) else Err(ResultSize)
  }
}
