/** `get_headers`: the questions asked are the columns of the file's first row. */
module Headers {
  import opened Common

  /** The questions asked when `responses.csv` gives none. */
  const DefaultHeaders: seq<string> := ["Name", "Age", "Email", "Occupation"]

  /** `str.lower()` on one character; only the ASCII letters A-Z are folded. */
  function LowerChar(c: char): char {
    if 'A' <= c <= 'Z' then (c as int + ('a' as int - 'A' as int)) as char else c
  }

  /** `str.lower()`, character by character. */
  function Lower(s: string): string {
    seq(|s|, i requires 0 <= i < |s| => LowerChar(s[i]))
  }

  /** The test `headers[0].lower() == "timestamp"`: the name is "timestamp"
      spelled with each letter in either case. */
  predicate IsTimestampColumn(name: string): (b: bool)
    ensures b <==> |name| == 9 && forall i :: 0 <= i < 9 ==> name[i] == "timestamp"[i] || name[i] == "TIMESTAMP"[i]
  {
    Lower(name) == "timestamp"
  }

  /** The header list `get_headers` returns, or the IndexError it raises when
      the first row of an existing file has no column at all. */
  function GetHeaders(file: CsvFile): (r: Result<seq<string>>)
    // a missing file, or one without rows, gives the default questions
    ensures file.None? || file == Some([]) ==> r == Ok(DefaultHeaders)
    // the only failure is an empty first row
    ensures r.Err? <==> file.Some? && file.value != [] && file.value[0] == []
    ensures r.Err? ==> r.error == IndexError
    // the questions are never empty
    ensures r.Ok? ==> r.value != []
    // with a first row of two or more columns, the first column is dropped
    // exactly when it reads "timestamp" in any case, and the others are kept in order
    ensures file.Some? && file.value != [] && |file.value[0]| >= 2 ==>
      r == Ok(if IsTimestampColumn(file.value[0][0]) then file.value[0][1..] else file.value[0])
    // a single-column first row gives itself, or the defaults when that column is the timestamp
    ensures file.Some? && file.value != [] && |file.value[0]| == 1 ==>
      r == Ok(if IsTimestampColumn(file.value[0][0]) then DefaultHeaders else file.value[0])
  {
    match file
    case None => Ok(DefaultHeaders)
    case Some(rows) =>
      if rows == [] then Ok(DefaultHeaders)          // StopIteration from next(reader)
      else
        var first := rows[0];
        if first == [] then Err(IndexError)
        else
          var headers := if IsTimestampColumn(first[0]) then first[1..] else first;
          Ok(if headers != [] then headers else DefaultHeaders)
  }
}
