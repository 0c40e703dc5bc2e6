/**
 * An archive as the processors see it: its entries, in archive order, each
 * a name and the text of its content. `findCsvEntry` (identical in both
 * processors) and the reading of the CSV entry's lines live here.
 */
module Archive {
  import opened Wrappers
  import opened JavaText

  datatype Entry = Entry(name: string, text: string)

  type Archive = seq<Entry>

  predicate IsCsvName(name: string)
  {
    EndsWith(name, ".csv")
  }

  /** The position of the first entry whose name ends in ".csv". */
  function FirstCsvIndex(archive: Archive): (r: Option<nat>)
    ensures r.Some? ==> r.value < |archive| && IsCsvName(archive[r.value].name)
    ensures r.Some? ==> forall j :: 0 <= j < r.value ==> !IsCsvName(archive[j].name)
    ensures r.None? ==> forall j :: 0 <= j < |archive| ==> !IsCsvName(archive[j].name)
  {
    if |archive| == 0 then None
    else if IsCsvName(archive[0].name) then Some(0)
    else
      var rest := FirstCsvIndex(archive[1..]);
      if rest.None? then None else Some(rest.value + 1)
  }

  /**
   * `findCsvEntry`: the first entry, in archive order, whose name ends in
   * ".csv"; FileNotFoundException when there is none.
   */
  function FindCsvEntry(archive: Archive): (r: Result<Entry>)
    ensures r.Err? <==> forall j :: 0 <= j < |archive| ==> !IsCsvName(archive[j].name)
    ensures r.Err? ==> r.failure == CsvNotFound
    ensures r.Ok? ==> exists k :: 0 <= k < |archive| && archive[k] == r.value &&
                        IsCsvName(r.value.name) && forall j :: 0 <= j < k ==> !IsCsvName(archive[j].name)
  {
    match FirstCsvIndex(archive)
    case None => Err(CsvNotFound)
    case Some(k) => Ok(archive[k])
  }

  /** The lines `reader.lines()` yields after one `readLine()` has consumed the header. */
  function RowsAfterHeader(text: string): (rows: seq<string>)
    ensures |ReadLines(text)| > 0 ==> rows == ReadLines(text)[1..]
    ensures |ReadLines(text)| == 0 ==> rows == []
  {
    var lines := ReadLines(text);
    if |lines| == 0 then [] else lines[1..]
  }
}
