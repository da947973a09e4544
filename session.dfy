/** `main`: ask every question, then offer edit / save-and-continue / save-and-quit
    until the user quits or standard input runs out. */
module Session {
  import opened Common
  import opened Headers
  import opened Answers
  import opened Store

  /** `datetime.now().strftime(...)` at the n-th save of the run (counting from 0). */
  type Clock = nat -> string

  /** How a run of `main` ends: by choice "3", or by an exception it does not catch. */
  datatype Outcome = Quit | Crashed(error: Error)

  /** Where `main` is: about to ask every question, or in the menu with the current answers. */
  datatype Phase = Entry | Menu(answers: seq<string>)

  /** The end of a run: how it ended, the file as left, and the records saved, in order. */
  datatype SessionEnd = SessionEnd(outcome: Outcome, file: CsvFile, saved: seq<Row>)

  /** The rest of a run of `main` from `phase`, with `saves` saves already made. */
  function Resume(headers: seq<string>, phase: Phase, file: CsvFile, input: seq<string>,
                  saves: nat, parse: IntParser, clock: Clock): (r: SessionEnd)
    requires headers != []
    requires phase.Menu? ==> |phase.answers| == |headers|
    // once the questions are known, the run ends only by "3" or by input running out
    ensures r.outcome == Quit || r.outcome == Crashed(EOFError)
    // every save consumes its own menu line
    ensures |r.saved| <= |input|
    decreases |input|
  {
    match phase
    case Entry =>
      // get_user_input reads one line per header
      if |input| < |headers| then SessionEnd(Crashed(EOFError), file, [])
      else Resume(headers, Menu(input[..|headers|]), file, input[|headers|..], saves, parse, clock)
    case Menu(answers) =>
      if input == [] then SessionEnd(Crashed(EOFError), file, [])
      else if input[0] == "1" then
        match EditRun(headers, answers, input[1..], parse)
        case Interrupted(_) => SessionEnd(Crashed(EOFError), file, [])
        case Finished(edited, rest) => Resume(headers, Menu(edited), file, rest, saves, parse, clock)
      else if input[0] == "2" || input[0] == "3" then
        var record := [clock(saves)] + answers;
        var written := Some(Appended(file, headers, answers, clock(saves)));
        if input[0] == "3" then SessionEnd(Quit, written, [record])
        else
          var later := Resume(headers, Entry, written, input[1..], saves + 1, parse, clock);
          SessionEnd(later.outcome, later.file, [record] + later.saved)
      else Resume(headers, Menu(answers), file, input[1..], saves, parse, clock)
  }

  /** A whole run of `main` against the file as it is at start-up. */
  function Session(file: CsvFile, input: seq<string>, parse: IntParser, clock: Clock): (r: SessionEnd)
    // the only IndexError is the one `get_headers` raises, before any question
    ensures r.outcome == Crashed(IndexError) <==> GetHeaders(file).Err?
    ensures r.outcome == Crashed(IndexError) ==> r.file == file && r.saved == []
  {
    match GetHeaders(file)
    case Err(e) => SessionEnd(Crashed(e), file, [])
    case Ok(headers) => Resume(headers, Entry, file, input, 0, parse, clock)
  }

  /** `main()`, reading `input` line by line and saving into `store`. */
  method RunQuestionnaire(store: ResponsesFile, input: seq<string>, parse: IntParser, clock: Clock)
    returns (outcome: Outcome)
    modifies store
    ensures var r := Session(old(store.rows), input, parse, clock);
      outcome == r.outcome && store.rows == r.file
  {
    var got := GetHeaders(store.rows);
    if got.Err? {
      return Crashed(got.error);
    }
    var headers := got.value;
    ghost var goal := Resume(headers, Entry, store.rows, input, 0, parse, clock);
    assert Session(store.rows, input, parse, clock) == goal;
    var pos, saves := 0, 0;
    while true
      invariant pos <= |input|
      invariant Leads(Resume(headers, Entry, store.rows, input[pos..], saves, parse, clock), goal)
      decreases |input| - pos
    {
      var entered := GetUserInput(headers, input[pos..]);
      if entered.Err? {
        return Crashed(entered.error);
      }
      assert input[pos..][..|headers|] == entered.value;
      assert input[pos..][|headers|..] == input[pos + |headers|..];
      assert Resume(headers, Entry, store.rows, input[pos..], saves, parse, clock)
          == Resume(headers, Menu(entered.value), store.rows, input[pos + |headers|..], saves, parse, clock);
      pos := pos + |headers|;
      var answers := new string[|headers|](i requires 0 <= i < |headers| => entered.value[i]);
      assert answers[..] == entered.value;
      var ended;
      ended, pos := RunMenu(store, headers, answers, input, pos, saves, parse, clock);
      if ended.Some? {
        return ended.value;
      }
      saves := saves + 1;
    }
  }

  /** The inner loop of `main()`: the menu over one set of `answers`, from line
      `start` of `input`. It ends the run (`Some` outcome) or, after option "2",
      hands back the position where the next set of answers starts. */
  method RunMenu(store: ResponsesFile, headers: seq<string>, answers: array<string>,
                 input: seq<string>, start: nat, saves: nat, parse: IntParser, clock: Clock)
    returns (ended: Option<Outcome>, pos: nat)
    requires headers != [] && answers.Length == |headers| && start <= |input|
    modifies store, answers
    ensures var r := Resume(headers, Menu(old(answers[..])), old(store.rows), input[start..], saves, parse, clock);
      if ended.Some? then ended.value == r.outcome && store.rows == r.file
      else start < pos <= |input| && Leads(Resume(headers, Entry, store.rows, input[pos..], saves + 1, parse, clock), r)
  {
    ghost var goal := Resume(headers, Menu(answers[..]), store.rows, input[start..], saves, parse, clock);
    pos := start;
    // `current`, `unread` and `file` are the spec-level views of `answers`,
    // `input[pos..]` and `store.rows`
    ghost var current, unread, file := answers[..], input[start..], store.rows;
    while true
      invariant start <= pos <= |input| && unread == input[pos..] && file == store.rows
      invariant answers.Length == |headers| && current == answers[..]
      invariant Leads(Resume(headers, Menu(current), file, unread, saves, parse, clock), goal)
      decreases |input| - pos
    {
      if pos == |input| {
        MenuEof(headers, current, file, saves, parse, clock);
        assert goal.outcome == Crashed(EOFError) && goal.file == store.rows;
        return Some(Crashed(EOFError)), pos;
      }
      var choice := input[pos];
      pos := pos + 1;
      assert unread[0] == choice && unread[1..] == input[pos..];
      if choice == "1" {
        ghost var edit := EditRun(headers, current, unread[1..], parse);
        MenuEdit(headers, current, file, unread, saves, parse, clock, edit);
        var done, used := EditAnswers(headers, answers, input[pos..], parse);
        assert edit == if done then Finished(answers[..], input[pos..][used..]) else Interrupted(answers[..]);
        if !done {
          assert goal.outcome == Crashed(EOFError) && goal.file == store.rows;
          return Some(Crashed(EOFError)), pos;
        }
        assert input[pos..][used..] == input[pos + used..];
        pos := pos + used;
        current, unread := edit.answers, edit.rest;
      } else if choice == "2" || choice == "3" {
        MenuSave(headers, current, file, unread, saves, parse, clock);
        store.SaveToCsv(headers, answers[..], clock(saves));
        assert store.rows == Some(Appended(file, headers, current, clock(saves)));
        if choice == "3" {
          assert goal.outcome == Quit && goal.file == store.rows;
          return Some(Quit), pos;
        }
        assert Leads(Resume(headers, Entry, store.rows, input[pos..], saves + 1, parse, clock), goal);
        return None, pos;
      } else {
        MenuOther(headers, current, file, unread, saves, parse, clock);
        unread := unread[1..];
      }
    }
  }

  /** The run `here` continues ends the way `goal` does. */
  ghost predicate Leads(here: SessionEnd, goal: SessionEnd) {
    here.outcome == goal.outcome && here.file == goal.file
  }

  // Single steps of `Resume` from the menu, one per branch of `main`'s inner loop.

  /** "1": `edit_answers` runs on the current answers; the menu comes back with
      the edited answers, or the run ends if input runs out inside it. */
  lemma MenuEdit(headers: seq<string>, answers: seq<string>, file: CsvFile, input: seq<string>,
                 saves: nat, parse: IntParser, clock: Clock, edit: EditOutcome)
    requires headers != [] && |answers| == |headers|
    requires input != [] && input[0] == "1"
    requires edit == EditRun(headers, answers, input[1..], parse)
    ensures edit.Interrupted? ==>
      Resume(headers, Menu(answers), file, input, saves, parse, clock) == SessionEnd(Crashed(EOFError), file, [])
    ensures edit.Finished? ==> |edit.answers| == |headers|
    ensures edit.Finished? ==>
      Resume(headers, Menu(answers), file, input, saves, parse, clock)
        == Resume(headers, Menu(edit.answers), file, edit.rest, saves, parse, clock)
  {
  }

  /** "2" and "3" each save the current answers exactly once, stamped with the
      clock's next reading; "3" then quits, "2" starts a new entry. */
  lemma MenuSave(headers: seq<string>, answers: seq<string>, file: CsvFile, input: seq<string>,
                 saves: nat, parse: IntParser, clock: Clock)
    requires headers != [] && |answers| == |headers|
    requires input != [] && (input[0] == "2" || input[0] == "3")
    ensures var r := Resume(headers, Menu(answers), file, input, saves, parse, clock);
      var written := Some(Appended(file, headers, answers, clock(saves)));
      var later := Resume(headers, Entry, written, input[1..], saves + 1, parse, clock);
      && (input[0] == "3" ==> r.outcome == Quit && r.file == written)
      && (input[0] == "2" ==> r.outcome == later.outcome && r.file == later.file)
  {
  }

  /** Input running out at the menu prompt ends the run with nothing more saved. */
  lemma MenuEof(headers: seq<string>, answers: seq<string>, file: CsvFile,
                saves: nat, parse: IntParser, clock: Clock)
    requires headers != [] && |answers| == |headers|
    ensures Resume(headers, Menu(answers), file, [], saves, parse, clock) == SessionEnd(Crashed(EOFError), file, [])
  {
  }

  /** Any other line re-prompts: answers, file and saves are as before. */
  lemma MenuOther(headers: seq<string>, answers: seq<string>, file: CsvFile, input: seq<string>,
                  saves: nat, parse: IntParser, clock: Clock)
    requires headers != [] && |answers| == |headers|
    requires input != [] && input[0] != "1" && input[0] != "2" && input[0] != "3"
    ensures Resume(headers, Menu(answers), file, input, saves, parse, clock)
         == Resume(headers, Menu(answers), file, input[1..], saves, parse, clock)
  {
  }

  /** `end.file` is `start` until something is saved, and afterwards the rows
      `start` held (or the header row, for a new file) followed by `end.saved`. */
  ghost predicate AppendsOnly(start: CsvFile, headers: seq<string>, end: SessionEnd) {
    end.file == if end.saved == [] then start else Some(Stored(start, headers) + end.saved)
  }

  /** A run only appends: the file is unchanged until the first save, and
      afterwards holds its earlier rows (or the new header row) followed by
      every saved record, in the order saved. */
  lemma {:induction false} ResumeAppendsSaved(headers: seq<string>, phase: Phase, file: CsvFile, input: seq<string>,
                                              saves: nat, parse: IntParser, clock: Clock)
    requires headers != []
    requires phase.Menu? ==> |phase.answers| == |headers|
    ensures AppendsOnly(file, headers, Resume(headers, phase, file, input, saves, parse, clock))
    decreases |input|
  {
    match phase
    case Entry =>
      if |input| >= |headers| {
        ResumeAppendsSaved(headers, Menu(input[..|headers|]), file, input[|headers|..], saves, parse, clock);
      }
    case Menu(answers) =>
      if input == [] {
      } else if input[0] == "1" {
        match EditRun(headers, answers, input[1..], parse)
        case Interrupted(_) =>
        case Finished(edited, rest) =>
          ResumeAppendsSaved(headers, Menu(edited), file, rest, saves, parse, clock);
      } else if input[0] == "2" {
        var record := [clock(saves)] + answers;
        var written := Some(Appended(file, headers, answers, clock(saves)));
        ResumeAppendsSaved(headers, Entry, written, input[1..], saves + 1, parse, clock);
        var later := Resume(headers, Entry, written, input[1..], saves + 1, parse, clock);
        assert Stored(written, headers) == Stored(file, headers) + [record];
        assert Resume(headers, phase, file, input, saves, parse, clock)
            == SessionEnd(later.outcome, later.file, [record] + later.saved);
        assert Stored(written, headers) + later.saved == Stored(file, headers) + ([record] + later.saved);
        assert later.saved == [] ==> [record] + later.saved == [record];
      } else if input[0] == "3" {
      } else {
        ResumeAppendsSaved(headers, Menu(answers), file, input[1..], saves, parse, clock);
      }
  }

  /** Each record has `width` columns, and the k-th starts with the clock's reading at save `first + k`. */
  ghost predicate Stamped(records: seq<Row>, width: nat, clock: Clock, first: nat) {
    forall k :: 0 <= k < |records| ==> records[k] != [] && |records[k]| == width && records[k][0] == clock(first + k)
  }

  /** A record stamped with reading `first`, put before records stamped from `first + 1` on. */
  lemma StampedPrepend(record: Row, records: seq<Row>, width: nat, clock: Clock, first: nat)
    requires record != [] && |record| == width && record[0] == clock(first)
    requires Stamped(records, width, clock, first + 1)
    ensures Stamped([record] + records, width, clock, first)
  {
    var all := [record] + records;
    forall k | 0 < k < |all|
      ensures all[k] != [] && |all[k]| == width && all[k][0] == clock(first + k)
    {
      assert all[k] == records[k - 1];
    }
  }

  /** Every saved record is the clock's reading at that save followed by one answer per question. */
  lemma {:induction false} ResumeRecordsWellFormed(headers: seq<string>, phase: Phase, file: CsvFile, input: seq<string>,
                                                   saves: nat, parse: IntParser, clock: Clock)
    requires headers != []
    requires phase.Menu? ==> |phase.answers| == |headers|
    ensures Stamped(Resume(headers, phase, file, input, saves, parse, clock).saved, |headers| + 1, clock, saves)
    decreases |input|
  {
    var r := Resume(headers, phase, file, input, saves, parse, clock);
    match phase
    case Entry =>
      if |input| >= |headers| {
        ResumeRecordsWellFormed(headers, Menu(input[..|headers|]), file, input[|headers|..], saves, parse, clock);
        assert r == Resume(headers, Menu(input[..|headers|]), file, input[|headers|..], saves, parse, clock);
      } else {
        assert r.saved == [];
      }
    case Menu(answers) =>
      if input == [] {
        assert r.saved == [];
      } else if input[0] == "1" {
        match EditRun(headers, answers, input[1..], parse)
        case Interrupted(_) =>
          assert r.saved == [];
        case Finished(edited, rest) =>
          ResumeRecordsWellFormed(headers, Menu(edited), file, rest, saves, parse, clock);
          assert r == Resume(headers, Menu(edited), file, rest, saves, parse, clock);
      } else if input[0] == "2" {
        var written := Some(Appended(file, headers, answers, clock(saves)));
        ResumeRecordsWellFormed(headers, Entry, written, input[1..], saves + 1, parse, clock);
        var later := Resume(headers, Entry, written, input[1..], saves + 1, parse, clock);
        StampedPrepend([clock(saves)] + answers, later.saved, |headers| + 1, clock, saves);
        assert r.saved == [[clock(saves)] + answers] + later.saved;
      } else if input[0] == "3" {
        assert r.saved == [[clock(saves)] + answers];
      } else {
        ResumeRecordsWellFormed(headers, Menu(answers), file, input[1..], saves, parse, clock);
        assert r == Resume(headers, Menu(answers), file, input[1..], saves, parse, clock);
      }
  }

  /** Only the menu choices "2" and "3" save, and only "3" quits: with neither
      among the input lines, nothing is saved and the run ends when input runs out. */
  lemma {:induction false} ResumeWithoutSaveChoice(headers: seq<string>, phase: Phase, file: CsvFile, input: seq<string>,
                                                   saves: nat, parse: IntParser, clock: Clock)
    requires headers != []
    requires phase.Menu? ==> |phase.answers| == |headers|
    requires forall k :: 0 <= k < |input| ==> input[k] != "2" && input[k] != "3"
    ensures Resume(headers, phase, file, input, saves, parse, clock) == SessionEnd(Crashed(EOFError), file, [])
    decreases |input|
  {
    match phase
    case Entry =>
      if |input| >= |headers| {
        var rest := input[|headers|..];
        assert forall k :: 0 <= k < |rest| ==> rest[k] == input[k + |headers|];
        ResumeWithoutSaveChoice(headers, Menu(input[..|headers|]), file, rest, saves, parse, clock);
      }
    case Menu(answers) =>
      if input == [] {
      } else if input[0] == "1" {
        match EditRun(headers, answers, input[1..], parse)
        case Interrupted(_) =>
        case Finished(edited, rest) =>
          EditRunEndsAfterZero(headers, answers, input[1..], parse);
          assert forall k :: 0 <= k < |rest| ==> rest[k] == input[1..][k + |input| - 1 - |rest|];
          ResumeWithoutSaveChoice(headers, Menu(edited), file, rest, saves, parse, clock);
      } else {
        assert forall k :: 0 <= k < |input| - 1 ==> input[1..][k] == input[k + 1];
        ResumeWithoutSaveChoice(headers, Menu(answers), file, input[1..], saves, parse, clock);
      }
  }

  /** How many lines of `input` read "2" or "3". */
  function SaveLines(input: seq<string>): nat
    decreases |input|
  {
    if input == [] then 0
    else (if input[0] == "2" || input[0] == "3" then 1 else 0) + SaveLines(input[1..])
  }

  /** Dropping lines from the front never adds "2"/"3" lines. */
  lemma {:induction false} SaveLinesOfSuffix(input: seq<string>, k: nat)
    requires k <= |input|
    ensures SaveLines(input[k..]) <= SaveLines(input)
    decreases k
  {
    if k > 0 {
      assert input[1..][k - 1..] == input[k..];
      SaveLinesOfSuffix(input[1..], k - 1);
    }
  }

  /** Only a menu line "2" or "3" saves, and each saves once: a run saves at most
      as many records as there are "2"/"3" lines, whatever the other lines read. */
  lemma {:induction false} ResumeSavesPerSaveLine(headers: seq<string>, phase: Phase, file: CsvFile, input: seq<string>,
                                                  saves: nat, parse: IntParser, clock: Clock)
    requires headers != []
    requires phase.Menu? ==> |phase.answers| == |headers|
    ensures |Resume(headers, phase, file, input, saves, parse, clock).saved| <= SaveLines(input)
    decreases |input|
  {
    var r := Resume(headers, phase, file, input, saves, parse, clock);
    match phase
    case Entry =>
      if |input| >= |headers| {
        ResumeSavesPerSaveLine(headers, Menu(input[..|headers|]), file, input[|headers|..], saves, parse, clock);
        SaveLinesOfSuffix(input, |headers|);
        assert r == Resume(headers, Menu(input[..|headers|]), file, input[|headers|..], saves, parse, clock);
      } else {
        assert r.saved == [];
      }
    case Menu(answers) =>
      if input == [] {
        assert r.saved == [];
      } else if input[0] == "1" {
        EditRunEndsAfterZero(headers, answers, input[1..], parse);
        match EditRun(headers, answers, input[1..], parse)
        case Interrupted(_) =>
          assert r.saved == [];
        case Finished(edited, rest) =>
          ResumeSavesPerSaveLine(headers, Menu(edited), file, rest, saves, parse, clock);
          SaveLinesOfSuffix(input, |input| - |rest|);
          assert input[1..][|input[1..]| - |rest|..] == input[|input| - |rest|..];
          assert r == Resume(headers, Menu(edited), file, rest, saves, parse, clock);
      } else if input[0] == "2" {
        var written := Some(Appended(file, headers, answers, clock(saves)));
        ResumeSavesPerSaveLine(headers, Entry, written, input[1..], saves + 1, parse, clock);
        var later := Resume(headers, Entry, written, input[1..], saves + 1, parse, clock);
        assert r.saved == [[clock(saves)] + answers] + later.saved;
      } else if input[0] == "3" {
        assert r.saved == [[clock(saves)] + answers];
      } else {
        ResumeSavesPerSaveLine(headers, Menu(answers), file, input[1..], saves, parse, clock);
        assert r == Resume(headers, Menu(answers), file, input[1..], saves, parse, clock);
      }
  }

  /** "3" is the only way out of `main`, and it saves first. */
  lemma {:induction false} QuitAfterSave(headers: seq<string>, phase: Phase, file: CsvFile, input: seq<string>,
                                         saves: nat, parse: IntParser, clock: Clock)
    requires headers != []
    requires phase.Menu? ==> |phase.answers| == |headers|
    ensures var r := Resume(headers, phase, file, input, saves, parse, clock);
      r.outcome == Quit ==> r.saved != [] && r.file.Some?
    decreases |input|
  {
    match phase
    case Entry =>
      if |input| >= |headers| {
        QuitAfterSave(headers, Menu(input[..|headers|]), file, input[|headers|..], saves, parse, clock);
      }
    case Menu(answers) =>
      if input == [] {
      } else if input[0] == "1" {
        match EditRun(headers, answers, input[1..], parse)
        case Interrupted(_) =>
        case Finished(edited, rest) =>
          QuitAfterSave(headers, Menu(edited), file, rest, saves, parse, clock);
      } else if input[0] == "2" {
        var written := Some(Appended(file, headers, answers, clock(saves)));
        QuitAfterSave(headers, Entry, written, input[1..], saves + 1, parse, clock);
        ResumeAppendsSaved(headers, Entry, written, input[1..], saves + 1, parse, clock);
      } else if input[0] == "3" {
      } else {
        QuitAfterSave(headers, Menu(answers), file, input[1..], saves, parse, clock);
      }
  }

  /** A run that starts without `responses.csv` leaves a file whose first row is
      the header row and whose every row has one column per question plus the timestamp. */
  lemma NewFileIsRectangular(input: seq<string>, parse: IntParser, clock: Clock)
    ensures var r := Session(None, input, parse, clock);
      r.file.Some? ==>
        && r.file.value != []
        && r.file.value[0] == ["Timestamp"] + DefaultHeaders
        && forall k :: 0 <= k < |r.file.value| ==> |r.file.value[k]| == |DefaultHeaders| + 1
  {
    ResumeAppendsSaved(DefaultHeaders, Entry, None, input, 0, parse, clock);
    ResumeRecordsWellFormed(DefaultHeaders, Entry, None, input, 0, parse, clock);
    var r := Session(None, input, parse, clock);
    if r.file.Some? {
      var rows := r.file.value;
      assert rows == [["Timestamp"] + DefaultHeaders] + r.saved;
      forall k | 0 <= k < |rows|
        ensures |rows[k]| == |DefaultHeaders| + 1
      {
        if k > 0 {
          assert rows[k] == r.saved[k - 1];
        }
      }
    }
  }

  /** A run keeps the rows the file had and adds only well-formed records after them. */
  lemma SessionOnlyAppends(rows: seq<Row>, input: seq<string>, parse: IntParser, clock: Clock)
    ensures var r := Session(Some(rows), input, parse, clock);
      && r.file.Some?
      && |r.file.value| == |rows| + |r.saved|
      && r.file.value[..|rows|] == rows
      && forall k :: |rows| <= k < |r.file.value| ==> r.file.value[k] != [] && r.file.value[k][0] == clock(k - |rows|)
  {
    var r := Session(Some(rows), input, parse, clock);
    match GetHeaders(Some(rows))
    case Err(_) =>
    case Ok(headers) =>
      ResumeAppendsSaved(headers, Entry, Some(rows), input, 0, parse, clock);
      ResumeRecordsWellFormed(headers, Entry, Some(rows), input, 0, parse, clock);
      assert r.file.value == rows + r.saved;
      forall k | |rows| <= k < |r.file.value|
        ensures r.file.value[k] != [] && r.file.value[k][0] == clock(k - |rows|)
      {
        assert r.file.value[k] == r.saved[k - |rows|];
      }
  }

  /** A run never changes the questions the next run asks, unless the file
      existed but was empty (see `Store.EmptyFileLosesHeaders`). */
  lemma NextRunAsksSameQuestions(file: CsvFile, input: seq<string>, parse: IntParser, clock: Clock)
    requires file != Some([])
    ensures GetHeaders(Session(file, input, parse, clock).file) == GetHeaders(file)
  {
    var r := Session(file, input, parse, clock);
    match GetHeaders(file)
    case Err(_) =>
    case Ok(headers) =>
      ResumeAppendsSaved(headers, Entry, file, input, 0, parse, clock);
      ResumeRecordsWellFormed(headers, Entry, file, input, 0, parse, clock);
      if r.saved != [] {
        var rows := Stored(file, headers) + r.saved;
        if file.None? {
          assert rows == [["Timestamp"] + headers] + r.saved;
          SavedHeadersReadBack(headers, r.saved[0][1..], r.saved[0][0]);
          assert Appended(None, headers, r.saved[0][1..], r.saved[0][0])[0] == rows[0];
        } else {
          assert rows[0] == file.value[0];
        }
      }
  }

  /** The edit loop of `ExampleRun`: "abc" is not a number, 9 and -1 are out of
      range, 2 then "31" overwrites the age, 0 returns with the menu lines unread. */
  lemma ExampleEdit(parse: IntParser)
    requires parse("abc") == None && parse("9") == Some(9) && parse("-1") == Some(-1)
    requires parse("2") == Some(2) && parse("0") == Some(0)
    ensures EditRun(DefaultHeaders, ["Ann", "30", "ann@example.org", "Engineer"],
                    ["abc", "9", "-1", "2", "31", "0", "4", "3"], parse)
         == Finished(["Ann", "31", "ann@example.org", "Engineer"], ["4", "3"])
  {
    var headers := DefaultHeaders;
    var entered := ["Ann", "30", "ann@example.org", "Engineer"];
    var edited := ["Ann", "31", "ann@example.org", "Engineer"];
    var e3 := ["2", "31", "0", "4", "3"];
    var e2 := ["-1"] + e3;
    var e1 := ["9"] + e2;
    var e0 := ["abc"] + e1;
    assert e3[2..] == ["0", "4", "3"];
    assert EditRun(headers, edited, ["0", "4", "3"], parse) == Finished(edited, ["4", "3"]);
    assert entered[1 := "31"] == edited;
    assert EditOnce(headers, entered, e3, parse) == Again(edited, ["0", "4", "3"]);
    assert EditRun(headers, entered, e3, parse) == Finished(edited, ["4", "3"]);
    assert EditOnce(headers, entered, e2, parse) == Again(entered, e3);
    assert EditRun(headers, entered, e2, parse) == Finished(edited, ["4", "3"]);
    assert EditOnce(headers, entered, e1, parse) == Again(entered, e2);
    assert EditRun(headers, entered, e1, parse) == Finished(edited, ["4", "3"]);
    assert EditOnce(headers, entered, e0, parse) == Again(entered, e1);
  }

  /** The menu of `ExampleRun`: "1" runs `ExampleEdit`, "4" is not a choice, "3" saves and quits. */
  lemma ExampleMenu(parse: IntParser, clock: Clock)
    requires parse("abc") == None && parse("9") == Some(9) && parse("-1") == Some(-1)
    requires parse("2") == Some(2) && parse("0") == Some(0)
    ensures var edited := ["Ann", "31", "ann@example.org", "Engineer"];
      Resume(DefaultHeaders, Menu(["Ann", "30", "ann@example.org", "Engineer"]), None,
             ["1", "abc", "9", "-1", "2", "31", "0", "4", "3"], 0, parse, clock)
        == SessionEnd(Quit, Some(Appended(None, DefaultHeaders, edited, clock(0))), [[clock(0)] + edited])
  {
    var headers := DefaultHeaders;
    var entered := ["Ann", "30", "ann@example.org", "Engineer"];
    var edited := ["Ann", "31", "ann@example.org", "Engineer"];
    var menu := ["1", "abc", "9", "-1", "2", "31", "0", "4", "3"];
    ExampleEdit(parse);
    assert menu[1..] == ["abc", "9", "-1", "2", "31", "0", "4", "3"];
    assert Resume(headers, Menu(edited), None, ["4", "3"], 0, parse, clock)
        == Resume(headers, Menu(edited), None, ["3"], 0, parse, clock);
    assert Resume(headers, Menu(entered), None, menu, 0, parse, clock)
        == Resume(headers, Menu(edited), None, ["4", "3"], 0, parse, clock);
  }

  /** One run against a missing file: four answers, the edit of `ExampleEdit`,
      an unknown menu choice "4", then "3" saves the header row and one record and quits. */
  lemma ExampleRun(parse: IntParser, clock: Clock)
    requires parse("abc") == None && parse("9") == Some(9) && parse("-1") == Some(-1)
    requires parse("2") == Some(2) && parse("0") == Some(0)
    ensures var entered := ["Ann", "30", "ann@example.org", "Engineer"];
      var record := [clock(0)] + entered[1 := "31"];
      Session(None, entered + ["1", "abc", "9", "-1", "2", "31", "0", "4", "3"], parse, clock)
        == SessionEnd(Quit, Some([["Timestamp"] + DefaultHeaders, record]), [record])
  {
    var headers := DefaultHeaders;
    var entered := ["Ann", "30", "ann@example.org", "Engineer"];
    var edited := ["Ann", "31", "ann@example.org", "Engineer"];
    var menu := ["1", "abc", "9", "-1", "2", "31", "0", "4", "3"];
    var input := entered + menu;
    assert entered[1 := "31"] == edited;
    assert Resume(headers, Entry, None, input, 0, parse, clock)
        == Resume(headers, Menu(entered), None, menu, 0, parse, clock) by {
      assert input[..4] == entered && input[4..] == menu;
    }
    assert Appended(None, headers, edited, clock(0)) == [["Timestamp"] + headers, [clock(0)] + edited];
    ExampleMenu(parse, clock);
  }
}
