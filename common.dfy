/** Types shared by every part of the questionnaire model. */
module Common {

  datatype Option<+T> = None | Some(value: T)

  /** The two Python exceptions the questionnaire can raise and does not catch. */
  datatype Error =
    | IndexError   // `headers[0]` on an empty first CSV row
    | EOFError     // `input()` after standard input has run out

  datatype Result<+T> = Ok(value: T) | Err(error: Error)

  /** One CSV record, as `csv.reader` yields it and `csv.writer` takes it. */
  type Row = seq<string>

  /** The contents of `responses.csv`: `None` when the file does not exist,
      otherwise the rows it holds, in file order. */
  type CsvFile = Option<seq<Row>>

  /** Python's `int(...)` applied to an input line: `None` stands for a ValueError. */
  type IntParser = string -> Option<int>
}
