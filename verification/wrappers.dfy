/** Option and Result, standing for Java's null returns and thrown exceptions. */
module Wrappers {

  /** `None` is Java's `null`. */
  datatype Option<+T> = None | Some(value: T)

  /** The kinds of exception the modelled code can raise or catch. */
  datatype Failure =
    | NullPointer        // a null reached a dereference (format, delimiter, end-line token, field type)
    | InvalidCsvLine     // fewer than two comma-separated fields
    | NumberFormat       // Integer.parseInt rejected a column
    | CsvNotFound        // FileNotFoundException("CSV not found in zip")
    | ArchiveUnreadable  // new ZipFile(path) failed
    | QueryFailed        // a JDBC query threw
    | JsonUnreadable     // Jackson could not read a document as the expected shape
    | ResultSize         // queryForObject did not get exactly one row

  /** A value, or the exception that replaced it. */
  datatype Result<+T> = Ok(value: T) | Err(failure: Failure)
}
