# Questionnaire (clicount `main.py`) in Dafny

A verified model of the command-line questionnaire in `main.py`. The program
reads the questions from the first row of `responses.csv` (dropping a leading
`Timestamp` column, falling back to `Name, Age, Email, Occupation`), asks one
question per header, lets the user edit answers by number, and appends each
entry to `responses.csv` as `[timestamp] + answers`, writing the header row
`["Timestamp"] + headers` only when it creates the file. A menu offers
"1" edit, "2" save and start a new entry, "3" save and quit.

The model is abstract where the program talks to the outside world:

- standard input is a `seq<string>`, one line consumed per `input()` call;
  running out of lines is Python's `EOFError`, which the program does not catch
  and which the model reports as an outcome (`Crashed(EOFError)`);
- `int(...)` is a parameter `parse: string -> Option<int>` (`None` is a `ValueError`);
- `datetime.now().strftime(...)` is a parameter `clock: nat -> string`, the
  reading taken at the n-th save of a run;
- `responses.csv` is `CsvFile = Option<seq<Row>>` (`None`: the file does not
  exist), held by the class `Store.ResponsesFile` whose `SaveToCsv` updates it.

Modules, one per part of `main.py`:

- `common.dfy` — `Option`, `Result`, the two uncaught exceptions (`IndexError`, `EOFError`), rows and files.
- `headers.dfy` — `get_headers` (`GetHeaders`), with `.lower()` on the first column.
- `answers.dfy` — `get_user_input` (`GetUserInput`, a `for` loop) and
  `edit_answers`: one pass of its loop is the function `EditOnce`, the whole
  call is `EditRun`, and the method `EditAnswers` overwrites an `array<string>`
  in place and is proved equal to `EditRun`.
- `store.dfy` — `save_to_csv`: the pure row logic `Appended` and the method
  `ResponsesFile.SaveToCsv` that applies it to the file.
- `session.dfy` — `main`: the functions `Resume`/`Session` give the outcome of a
  whole run (how it ends, the file it leaves, the records it saved); the methods
  `RunQuestionnaire` (outer loop) and `RunMenu` (inner menu loop) are proved to
  end the same way and leave the same file.

The repository's tests exercise functions that `main.py` does not contain
(category flattening and selection from YAML, `show_entries`, argument
parsing, `save_to_csv(filename, headers, data)`, `get_user_input(headers,
categories)`, newline repair before appending). The model follows `main.py`
as written; those features are not modelled.

## Model

| member | source | states |
|---|---|---|
| Headers.GetHeaders | main.py:5-21 | missing file or no rows gives the defaults; an empty first row is the only failure (IndexError); a first column reading "timestamp" in any case is dropped and the other columns are kept in order; a header list left empty falls back to the defaults; the result is never empty |
| Headers.IsTimestampColumn | main.py:17 | a column is the timestamp column exactly when it is nine characters spelling "timestamp" with each letter in either case |
| Answers.GetUserInput | main.py:23-30 | one answer per header; answer i is the i-th line read; fails with EOFError exactly when fewer lines than headers remain |
| Answers.InRange | main.py:50 | the range test `1 <= choice <= len(headers)` that decides whether a number names a field (a predicate; `EditOnce` states what it guards) |
| Answers.EditOnce | main.py:46-57 | one pass of the edit loop: 0 stops and consumes one line; a choice c in 1..len(headers) sets slot c-1 to the next line and keeps every other slot; a non-number or out-of-range number (negatives included) changes nothing and consumes one line; input ending at either prompt is EOFError |
| Answers.EditRun | main.py:39-59 | a finished edit keeps the length of the answers and consumes at least one line |
| Answers.EditAnswers | main.py:39-59 | editing the array in place leaves exactly the answers of `EditRun` and reports the lines read, or that input ran out |
| Answers.EditRunEndsAfterZero | main.py:47-49 | a finished edit stops right after a line that parses to 0 and leaves the following lines unread |
| Answers.EditRunKeepsUnchosen | main.py:50-53 | a slot whose number no line spells keeps its answer |
| Answers.EditRunValuesFromInput | main.py:51-52 | every answer after editing is the old one or a line typed by the user |
| Answers.EditRunRejectsInvalid | main.py:54-57 | input of only non-numbers and out-of-range numbers never changes the answers and the loop only ends when input runs out |
| Store.Stored | main.py:64-72 | the rows of an existing file are kept as they are; a new file gets the header row `["Timestamp"] + headers`, which reads back as those questions |
| Store.Appended | main.py:64-73 | the new record `[timestamp] + answers` is the last row; existing rows are kept in place; a header row `["Timestamp"] + headers` is written only when the file did not exist |
| Store.ResponsesFile.SaveToCsv | main.py:61-73 | the file afterwards exists and holds `Appended` of its old contents |
| Store.ResponsesFile.constructor | main.py:67 | the file starts as given (present with its rows, or missing) |
| Store.SavedHeadersReadBack | main.py:64-72 | the questions saved into a new file are the questions `get_headers` reads back from it |
| Store.SaveKeepsHeaders | main.py:69-73 | appending to a file that has a first row never changes the questions it yields |
| Store.EmptyFileLosesHeaders | main.py:67-72 | for every answer list and every timestamp: a file that exists but is empty yields the defaults (main.py:20-21), yet a save writes only the record into it; unless the timestamp spells "timestamp", the next run takes that record as its questions, which (with one answer per default question) differ from the defaults |
| Session.Resume | main.py:80-104 | the rest of a run from the entry prompt or the menu: it ends only by "3" or by input running out, and saves at most one record per input line |
| Session.Session | main.py:77-104 | a whole run: it ends with IndexError exactly when `get_headers` raises it, and then before any question, with the file untouched and nothing saved |
| Session.RunQuestionnaire | main.py:77-104 | the run ends with the outcome of `Session` and leaves the file `Session` describes |
| Session.RunMenu | main.py:87-104 | the menu loop quits, crashes or hands back the next entry's position exactly as `Resume` does from the menu, leaving the same file |
| Session.MenuEdit | main.py:95-96 | "1" continues the menu with the answers `edit_answers` leaves and the unread lines, or ends with EOFError |
| Session.MenuSave | main.py:97-102 | "3" saves once with the next clock reading and quits; "2" saves once and continues with a new entry |
| Session.MenuEof | main.py:93 | input running out at the menu prompt ends the run with the file unchanged |
| Session.MenuOther | main.py:103-104 | any other line re-prompts with the same answers, file and save count |
| Session.ResumeAppendsSaved | main.py:80-104 | the file is unchanged until the first save and then holds its earlier rows (or the header row) followed by every saved record in order |
| Session.ResumeRecordsWellFormed | main.py:63-65 | every saved record has one column per question plus the timestamp, and the k-th starts with the clock's k-th reading |
| Session.ResumeWithoutSaveChoice | main.py:93-104 | if no input line at all (answer, edit or menu line) reads "2" or "3", nothing is saved, the file is unchanged and the run ends with EOFError; `ResumeSavesPerSaveLine` bounds the saves for every input |
| Session.ResumeSavesPerSaveLine | main.py:93-102 | for every input, a run saves at most as many records as there are lines reading "2" or "3": only those menu choices save, once each, whatever the answer and edit lines read |
| Session.QuitAfterSave | main.py:100-102 | a run that quits has saved at least once and the file exists |
| Session.NewFileIsRectangular | main.py:64-73 | starting without a file, the file left has the header row first and every row has five columns |
| Session.SessionOnlyAppends | main.py:69-73 | starting from existing rows, they are kept as a prefix and each added row starts with the clock's reading for its save |
| Session.NextRunAsksSameQuestions | main.py:5-21 | unless the file existed empty, a run never changes the questions the next run asks |
| Session.ExampleEdit | main.py:39-59 | "abc", 9, -1 are rejected; 2 then "31" sets the age; 0 returns with the menu lines unread |
| Session.ExampleMenu | main.py:87-104 | edit, an unknown choice "4", then "3": one record saved into a new file and the run quits |
| Session.ExampleRun | main.py:77-104 | a whole run from a missing file leaves the header row and exactly one record |

## Left out

- File I/O: `os.path.exists`, `open` and the `csv` module's quoting and escaping; the model assumes that a row written by `csv.writer` is read back unchanged by `csv.reader`.
- Appending in `'a'` mode to a file whose last line has no newline would join the new record onto that line; a file of rows cannot express this, so the model does not capture it.
- The timestamp's format: `clock` returns arbitrary strings.
- Console output: `print`, `print_summary` and the prompt texts.
- `int(...)` is the parameter `parse`; the model does not fix which strings Python accepts.
- `KeyboardInterrupt`, `OSError` and other failures of the environment.
- The `while True` loops end only on user input; the model runs them on a finite input and reports input running out as `Crashed(EOFError)` instead of proving that the real loops terminate.
- Headers.Lower: folds only the ASCII letters A-Z, whereas `str.lower()` also folds other Unicode letters (for example "É"). This does not change `Headers.IsTimestampColumn`, which agrees with the test at main.py:17 on every string: no non-ASCII character lowers to one of the letters of "timestamp" (the Kelvin sign lowers to "k", and "İ" lowers to two characters).
- Answers.EditAnswers: requires the answer array to have one slot per header; `edit_answers` itself would raise IndexError on a shorter list, but `main` always passes one answer per header.
- Session.RunQuestionnaire: `responses.csv` is one object (`ResponsesFile`) passed in, rather than a fixed file name opened anew at each call.
- Category flattening and selection, YAML loading, `show_entries`, argument parsing and newline repair are exercised by the repository's tests but are not in `main.py`.
