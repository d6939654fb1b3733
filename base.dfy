/**
 * Shared vocabulary of the GTFS archive rewriter: raw bytes, parsed CSV
 * tables, the exceptions the transformations raise, and the library calls
 * (UTF-8 decoding and encoding, the CSV reader and writer) that the model
 * receives as parameters instead of re-implementing them.
 */
module GtfsBase {

  newtype byte = x: int | 0 <= x < 256

  /** The raw content of a zip entry. */
  type Bytes = seq<byte>

  /** A parsed CSV file: a sequence of rows of fields; row 0 is the header. */
  type Table = seq<seq<string>>

  datatype Option<+T> = None | Some(value: T)

  datatype Result<+T> = Success(value: T) | Failure(error: Error)

  /** The exceptions that abort a run. */
  datatype Error =
    | DecodeError               // UnicodeDecodeError while reading an entry as UTF-8
    | CsvError                  // csv.Error raised by the CSV reader
    | MissingHeader             // IndexError: the CSV file has no row, so `data[0]` fails
    | ColumnExists               // ValueError: bikes_allowed is present and exists_ok is false
    | IndexOutOfRange           // IndexError: a data row has no cell at the bikes_allowed index
    | UnexpectedValue(value: string)  // ValueError naming the offending cell
    | DivisionByZero            // ZeroDivisionError in the percentage report

  /**
   * The library behaviour the transformations rely on: `TextIOWrapper`
   * decoding (None when the bytes are not valid UTF-8), the UTF-8 encoding
   * `writestr` applies to a `str`, `csv.reader` (None when it raises) and
   * `csv.writer` with minimal quoting.
   */
  datatype Library = Library(
    decodeUtf8: Bytes -> Option<string>,
    encodeUtf8: string -> Bytes,
    parseCsv: string -> Option<Table>,
    writeCsv: Table -> string)
}
