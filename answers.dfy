/** `get_user_input` and `edit_answers`: collecting one answer per question
    and letting the user overwrite answers by ordinal choice. Standard input is
    the sequence of lines still to be read; each prompt takes the first one. */
module Answers {
  import opened Common

  /** `get_user_input`: one prompt per header, in header order. */
  method GetUserInput(headers: seq<string>, input: seq<string>) returns (answers: Result<seq<string>>)
    ensures answers.Ok? <==> |headers| <= |input|
    ensures answers.Err? ==> answers.error == EOFError
    ensures answers.Ok? ==> |answers.value| == |headers|
    ensures answers.Ok? ==> forall i :: 0 <= i < |headers| ==> answers.value[i] == input[i]
  {
    var collected: seq<string> := [];
    for i := 0 to |headers|
      invariant i <= |input|
      invariant collected == input[..i]
    {
      if i == |input| {
        return Err(EOFError);
      }
      collected := collected + [input[i]];
    }
    return Ok(collected);
  }

  /** What one pass of the `while True` loop in `edit_answers` does. */
  datatype EditStep =
    | Stop(rest: seq<string>)                           // choice 0: leave the loop
    | Again(answers: seq<string>, rest: seq<string>)    // go round once more
    | OutOfInput                                        // EOFError from input()

  /** True when `choice` names a field: `1 <= choice <= len(headers)`. */
  predicate InRange(choice: int, headers: seq<string>) {
    1 <= choice <= |headers|
  }

  function EditOnce(headers: seq<string>, answers: seq<string>, input: seq<string>, parse: IntParser): (r: EditStep)
    requires |answers| == |headers|
    // input ends at the choice prompt, or at the new-value prompt after a valid choice
    ensures r.OutOfInput? <==>
      input == [] || (parse(input[0]).Some? && InRange(parse(input[0]).value, headers) && |input| == 1)
    // 0 ends editing and consumes only the choice line
    ensures r.Stop? <==> input != [] && parse(input[0]) == Some(0)
    ensures r.Stop? ==> r.rest == input[1..]
    // a valid choice c overwrites slot c-1 with the next line and nothing else
    ensures r.Again? && parse(input[0]).Some? && InRange(parse(input[0]).value, headers) ==>
      var c := parse(input[0]).value;
      && |r.answers| == |answers|
      && r.answers[c - 1] == input[1]
      && (forall j :: 0 <= j < |answers| && j != c - 1 ==> r.answers[j] == answers[j])
      && r.rest == input[2..]
    // a non-number or a number out of range changes nothing and consumes one line
    ensures r.Again? && !(parse(input[0]).Some? && InRange(parse(input[0]).value, headers)) ==>
      r.answers == answers && r.rest == input[1..]
  {
    if input == [] then OutOfInput
    else match parse(input[0])
      case None => Again(answers, input[1..])
      case Some(choice) =>
        if choice == 0 then Stop(input[1..])
        else if InRange(choice, headers) then
          if |input| == 1 then OutOfInput
          else Again(answers[choice - 1 := input[1]], input[2..])
        else Again(answers, input[1..])
  }

  /** How a whole call of `edit_answers` ends. */
  datatype EditOutcome =
    | Finished(answers: seq<string>, rest: seq<string>)   // returned after a 0
    | Interrupted(answers: seq<string>)                   // EOFError escaped

  /** The answers and the unread input after `edit_answers` returns, by repeating `EditOnce`. */
  function EditRun(headers: seq<string>, answers: seq<string>, input: seq<string>, parse: IntParser): (r: EditOutcome)
    requires |answers| == |headers|
    ensures |r.answers| == |answers|
    ensures r.Finished? ==> |r.rest| < |input|
    decreases |input|
  {
    match EditOnce(headers, answers, input, parse)
    case OutOfInput => Interrupted(answers)
    case Stop(rest) => Finished(answers, rest)
    case Again(next, rest) => EditRun(headers, next, rest, parse)
  }

  /** `edit_answers` returns right after a line reading 0 and leaves the lines after it unread. */
  lemma {:induction false} EditRunEndsAfterZero(headers: seq<string>, answers: seq<string>, input: seq<string>, parse: IntParser)
    requires |answers| == |headers|
    ensures var r := EditRun(headers, answers, input, parse);
      r.Finished? ==>
        && r.rest == input[|input| - |r.rest|..]
        && parse(input[|input| - |r.rest| - 1]) == Some(0)
    decreases |input|
  {
    match EditOnce(headers, answers, input, parse)
    case OutOfInput =>
    case Stop(rest) =>
    case Again(next, rest) =>
      EditRunEndsAfterZero(headers, next, rest, parse);
      var r := EditRun(headers, next, rest, parse);
      if r.Finished? {
        assert input[|input| - |rest|..][|rest| - |r.rest|..] == input[|input| - |r.rest|..];
      }
  }

  /** `edit_answers`: overwrites `answers` in place and hands back the same list.
      `done` is false when input ran out (the EOFError escapes); otherwise the
      first `used` lines of `input` were read. */
  method EditAnswers(headers: seq<string>, answers: array<string>, input: seq<string>, parse: IntParser)
    returns (done: bool, used: nat)
    requires answers.Length == |headers|
    modifies answers
    ensures used <= |input|
    ensures EditRun(headers, old(answers[..]), input, parse) ==
      if done then Finished(answers[..], input[used..]) else Interrupted(answers[..])
  {
    var pos := 0;
    while true
      invariant pos <= |input|
      invariant EditRun(headers, answers[..], input[pos..], parse) == EditRun(headers, old(answers[..]), input, parse)
      decreases |input| - pos
    {
      if pos == |input| {
        return false, pos;
      }
      ghost var before, unread := answers[..], input[pos..];
      ghost var step := EditOnce(headers, before, unread, parse);
      assert unread[0] == input[pos] && unread[1..] == input[pos + 1..];
      assert |unread| > 1 ==> unread[1] == input[pos + 1] && unread[2..] == input[pos + 2..];
      var choice := parse(input[pos]);
      pos := pos + 1;
      if choice.Some? {
        var c := choice.value;
        if c == 0 {
          return true, pos;
        }
        if InRange(c, headers) {
          if pos == |input| {
            return false, pos;
          }
          answers[c - 1] := input[pos];
          pos := pos + 1;
          assert step == Again(answers[..], input[pos..]);
        } else {
          assert step == Again(answers[..], input[pos..]);
        }
      } else {
        assert step == Again(answers[..], input[pos..]);
      }
    }
  }

  /** A slot whose number no input line spells keeps its old answer. */
  lemma {:induction false} EditRunKeepsUnchosen(headers: seq<string>, answers: seq<string>, input: seq<string>, parse: IntParser, i: nat)
    requires |answers| == |headers| && i < |answers|
    requires forall k :: 0 <= k < |input| ==> parse(input[k]) != Some(i + 1)
    ensures EditRun(headers, answers, input, parse).answers[i] == answers[i]
    decreases |input|
  {
    match EditOnce(headers, answers, input, parse)
    case OutOfInput =>
    case Stop(_) =>
    case Again(next, rest) =>
      assert forall k :: 0 <= k < |rest| ==> rest[k] == input[k + |input| - |rest|];
      EditRunKeepsUnchosen(headers, next, rest, parse, i);
  }

  /** Every answer after editing is the old one or a line the user typed. */
  lemma {:induction false} EditRunValuesFromInput(headers: seq<string>, answers: seq<string>, input: seq<string>, parse: IntParser)
    requires |answers| == |headers|
    ensures var r := EditRun(headers, answers, input, parse);
      forall i :: 0 <= i < |answers| ==> r.answers[i] == answers[i] || r.answers[i] in input
    decreases |input|
  {
    match EditOnce(headers, answers, input, parse)
    case OutOfInput =>
    case Stop(_) =>
    case Again(next, rest) =>
      EditRunValuesFromInput(headers, next, rest, parse);
      assert forall k :: 0 <= k < |rest| ==> rest[k] == input[k + |input| - |rest|];
  }

  /** Input made only of non-numbers and out-of-range numbers never edits:
      the loop keeps asking until input runs out. */
  lemma {:induction false} EditRunRejectsInvalid(headers: seq<string>, answers: seq<string>, input: seq<string>, parse: IntParser)
    requires |answers| == |headers|
    requires forall k :: 0 <= k < |input| ==>
      parse(input[k]).None? || (parse(input[k]).value != 0 && !InRange(parse(input[k]).value, headers))
    ensures EditRun(headers, answers, input, parse) == Interrupted(answers)
    decreases |input|
  {
    if input != [] {
      assert forall k :: 0 <= k < |input| - 1 ==> input[1..][k] == input[k + 1];
      EditRunRejectsInvalid(headers, answers, input[1..], parse);
    }
  }
}
