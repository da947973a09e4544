/** `save_to_csv`: `responses.csv` as a sequence of rows that only grows at the end. */
module Store {
  import opened Common
  import opened Headers

  /** The rows a file holds once it exists: a file created by a save starts
      with the header row `["Timestamp"] + headers`. */
  function Stored(file: CsvFile, headers: seq<string>): (r: seq<Row>)
    // the rows of an existing file are kept as they are
    ensures file.Some? ==> r == file.value
    // a new file holds exactly the header row
    ensures file.None? ==> r == [["Timestamp"] + headers]
    // a new file's header row reads back as the questions it was written for
    ensures file.None? && headers != [] ==> GetHeaders(Some(r)) == Ok(headers)
  {
    if file.None? then [["Timestamp"] + headers] else file.value
  }

  /** The rows of the file after one save of `answers` stamped `timestamp`. */
  function Appended(file: CsvFile, headers: seq<string>, answers: seq<string>, timestamp: string): (r: seq<Row>)
    // the new record is the last row: the timestamp, then one column per answer
    ensures r != [] && r[|r| - 1] == [timestamp] + answers
    // rows already in the file are kept, in place
    ensures file.Some? ==> |r| == |file.value| + 1 && r[..|file.value|] == file.value
    // a header row is written only when the file did not exist
    ensures file.None? ==> |r| == 2 && r[0] == ["Timestamp"] + headers
  {
    Stored(file, headers) + [[timestamp] + answers]
  }

  /** `responses.csv` on disk; `SaveToCsv` is the only thing that changes it. */
  class ResponsesFile {
    var rows: CsvFile

    constructor (initial: CsvFile)
      ensures rows == initial
    {
      rows := initial;
    }

    /** `save_to_csv(headers, answers)` with the clock's reading passed in as `timestamp`. */
    method SaveToCsv(headers: seq<string>, answers: seq<string>, timestamp: string)
      modifies this
      ensures rows == Some(Appended(old(rows), headers, answers, timestamp))
    {
      var fileExists := rows.Some?;
      var written := if fileExists then rows.value else [];
      if !fileExists {
        written := written + [["Timestamp"] + headers];
      }
      assert written == Stored(old(rows), headers);
      written := written + [[timestamp] + answers];
      rows := Some(written);
    }
  }

  /** Questions saved to a new file are the questions asked when it is read back. */
  lemma SavedHeadersReadBack(headers: seq<string>, answers: seq<string>, timestamp: string)
    requires headers != []
    ensures GetHeaders(Some(Appended(None, headers, answers, timestamp))) == Ok(headers)
  {
    var rows := Appended(None, headers, answers, timestamp);
    assert rows[0][1..] == headers;
  }

  /** Saving to a file that already has a first row never changes the questions it yields. */
  lemma SaveKeepsHeaders(file: CsvFile, headers: seq<string>, answers: seq<string>, timestamp: string)
    requires file.Some? && file.value != []
    ensures GetHeaders(Some(Appended(file, headers, answers, timestamp))) == GetHeaders(file)
  {
    var rows := Appended(file, headers, answers, timestamp);
    assert rows[0] == rows[..|file.value|][0] == file.value[0];
  }

  /** A file that exists but is empty yields the default questions, yet a save
      writes no header row into it, so the next run takes the saved record itself
      for the header row and asks other questions. */
  lemma EmptyFileLosesHeaders(answers: seq<string>, timestamp: string)
    ensures GetHeaders(Some([])) == Ok(DefaultHeaders)
    ensures var after := Appended(Some([]), DefaultHeaders, answers, timestamp);
      && after == [[timestamp] + answers]
      && (!IsTimestampColumn(timestamp) ==> GetHeaders(Some(after)) == Ok([timestamp] + answers))
      && (!IsTimestampColumn(timestamp) && |answers| == |DefaultHeaders| ==>
            GetHeaders(Some(after)) != GetHeaders(Some([])))
  {
    assert Appended(Some([]), DefaultHeaders, answers, timestamp) == [[timestamp] + answers];
  }
}
