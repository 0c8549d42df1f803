/** The answer-key lookups of src/explanation.py: the key row of the answer
    sheet, the letter-to-column table that picks the text of the correct
    alternative, and the letter check that decides which questions get an
    explanation. */
module Explanation {
  import opened Wrappers

  /** `IndexError` from a position outside a row or a list;
      `ZeroDivisionError` from the progress pace of an empty question table;
      `UnboundLocalError` from reading `explanation` before any question
      has set it. */
  datatype ExplanationError = IndexError | ZeroDivisionError | UnboundLocalError

  /** get_correct_answers: the row at position 1 of the answer sheet (the
      row after the titles), in full. */
  function CorrectAnswers<V>(sheet: seq<seq<V>>): (r: Result<seq<V>, ExplanationError>)
    ensures r.Ok? <==> |sheet| >= 2
    ensures r.Ok? ==> r.value == sheet[1]
  {
    if |sheet| >= 2 then Ok(sheet[1]) else Err(IndexError)
  }

  /** The titles row is skipped: the key row follows it, whatever comes next. */
  lemma CorrectAnswersSkipTitles<V>(titles: seq<V>, key: seq<V>, students: seq<seq<V>>)
    ensures CorrectAnswers([titles, key] + students) == Ok(key)
  {
  }

  // ---------------------------------------------------------------------
  // get_correct_alternative_text

  /** The table of get_correct_alternative_text: the letters A to E name the
      columns 2 to 6, in order; any other string, lower case included, names
      none. */
  function AlternativeColumn(letter: string): (col: Option<nat>)
    ensures col.Some? <==> letter in {"A", "B", "C", "D", "E"}
    ensures col.Some? ==> |letter| == 1 && col.value == (letter[0] as int) - ('A' as int) + 2
  {
    if letter == "A" then Some(2)
    else if letter == "B" then Some(3)
    else if letter == "C" then Some(4)
    else if letter == "D" then Some(5)
    else if letter == "E" then Some(6)
    else None
  }

  /** A row of the questions table: its `question_number` and its cells by
      position. */
  datatype InfoRow<N, T> = InfoRow(number: N, cells: seq<T>)

  /** The column of the correct alternative for a row, when the key holds a
      letter of the table for its question. */
  function RowColumn<N, T>(row: InfoRow<N, T>, key: map<N, string>): Option<nat>
  {
    if row.number in key then AlternativeColumn(key[row.number]) else None
  }

  /** The dictionary after the first `n` rows: each row whose question has a
      valid key letter stores the cell at that letter's column under its
      question number; a row too short for the column raises IndexError. */
  function AlternativesUpTo<N, T>(rows: seq<InfoRow<N, T>>, key: map<N, string>, n: nat): (r: Result<map<N, T>, ExplanationError>)
    requires n <= |rows|
    ensures r.Err? ==> r.error == IndexError
    ensures r.Ok? ==> forall q :: q in r.value ==> exists j :: 0 <= j < n && rows[j].number == q
  {
    if n == 0 then Ok(map[])
    else
      match AlternativesUpTo(rows, key, n - 1)
      case Err(e) => Err(e)
      case Ok(m) =>
        var row := rows[n - 1];
        match RowColumn(row, key)
        case None => Ok(m)
        case Some(col) => if col < |row.cells| then Ok(m[row.number := row.cells[col]]) else Err(IndexError)
  }

  /** Row `r` can be read: it is skipped, or it reaches its column. */
  predicate Readable<N, T>(rows: seq<InfoRow<N, T>>, key: map<N, string>, r: nat)
    requires r < |rows|
  {
    RowColumn(rows[r], key).Some? ==> RowColumn(rows[r], key).value < |rows[r].cells|
  }

  /** The lookup fails exactly when a row with a valid letter is too short. */
  lemma {:induction false} AlternativesOk<N, T>(rows: seq<InfoRow<N, T>>, key: map<N, string>, n: nat)
    requires n <= |rows|
    ensures AlternativesUpTo(rows, key, n).Ok? <==> forall r :: 0 <= r < n ==> Readable(rows, key, r)
  {
    if n > 0 {
      AlternativesOk(rows, key, n - 1);
      assert (forall r :: 0 <= r < n ==> Readable(rows, key, r))
             <==> (forall r :: 0 <= r < n - 1 ==> Readable(rows, key, r)) && Readable(rows, key, n - 1);
    }
  }

  /** The dictionary's keys are the question numbers of the rows whose key
      letter is valid, and nothing else. */
  lemma {:induction false} AlternativesKeys<N, T>(rows: seq<InfoRow<N, T>>, key: map<N, string>, n: nat)
    requires n <= |rows| && AlternativesUpTo(rows, key, n).Ok?
    ensures AlternativesUpTo(rows, key, n).value.Keys
            == set r | 0 <= r < n && RowColumn(rows[r], key).Some? :: rows[r].number
  {
    if n > 0 {
      AlternativesKeys(rows, key, n - 1);
    }
  }

  /** A later row with the same question number overwrites an earlier one:
      the entry is the cell of the last row for that number. */
  lemma {:induction false} AlternativesLastWins<N, T>(rows: seq<InfoRow<N, T>>, key: map<N, string>, n: nat, r: nat)
    requires r < n <= |rows| && AlternativesUpTo(rows, key, n).Ok?
    requires RowColumn(rows[r], key).Some?
    requires forall s :: r < s < n ==> rows[s].number != rows[r].number
    ensures rows[r].number in AlternativesUpTo(rows, key, n).value
    ensures RowColumn(rows[r], key).value < |rows[r].cells|
    ensures AlternativesUpTo(rows, key, n).value[rows[r].number] == rows[r].cells[RowColumn(rows[r], key).value]
  {
    if r < n - 1 {
      AlternativesLastWins(rows, key, n - 1, r);
    }
  }

  /** get_correct_alternative_text: the row loop filling the dictionary. */
  method GetCorrectAlternativeText<N, T>(rows: seq<InfoRow<N, T>>, key: map<N, string>)
    returns (r: Result<map<N, T>, ExplanationError>)
    ensures r == AlternativesUpTo(rows, key, |rows|)
  {
    var alternatives: map<N, T> := map[];
    for i := 0 to |rows|
      invariant AlternativesUpTo(rows, key, i) == Ok(alternatives)
    {
      var row := rows[i];
      var letter := if row.number in key then Some(key[row.number]) else None;
      if letter.Some? && AlternativeColumn(letter.value).Some? {
        var col := AlternativeColumn(letter.value).value;
        if col >= |row.cells| {
          ErrorSticks(rows, key, i + 1, |rows|);
          return Err(IndexError);
        }
        alternatives := alternatives[row.number := row.cells[col]];
      }
    }
    return Ok(alternatives);
  }

  /** Once a row has raised, the loop never resumes. */
  lemma {:induction false} ErrorSticks<N, T>(rows: seq<InfoRow<N, T>>, key: map<N, string>, j: nat, n: nat)
    requires 0 < j <= n <= |rows| && AlternativesUpTo(rows, key, j) == Err(IndexError)
    ensures AlternativesUpTo(rows, key, n) == Err(IndexError)
  {
    if j < n {
      ErrorSticks(rows, key, j, n - 1);
    }
  }

  // ---------------------------------------------------------------------
  // the letter check of create_explanations

  /** Python's `str.upper` on an ASCII letter; other characters unchanged. */
  function Upper(c: char): char
  {
    if 'a' <= c <= 'z' then (c as int - 32) as char else c
  }

  function UpperString(s: string): (u: string)
    ensures |u| == |s|
    ensures forall k :: 0 <= k < |s| ==> u[k] == Upper(s[k])
    ensures forall k :: 0 <= k < |u| ==> !('a' <= u[k] <= 'z')
  {
    seq(|s|, k requires 0 <= k < |s| => Upper(s[k]))
  }

  /** `correct_answers[int(q) - 1]`: Python list indexing, where a negative
      position counts from the end. */
  function KeyAt(answers: seq<string>, q: int): (r: Result<string, ExplanationError>)
    ensures r.Ok? <==> -|answers| <= q - 1 < |answers|
    ensures 1 <= q <= |answers| ==> r == Ok(answers[q - 1])
  {
    var p := q - 1;
    if 0 <= p < |answers| then Ok(answers[p])
    else if -|answers| <= p < 0 then Ok(answers[|answers| + p])
    else Err(IndexError)
  }

  /** The letter check of create_explanations: the key letter is
      upper-cased and only A to D pass, giving columns 2 to 5; no other
      letter, E included, gets an explanation. */
  function ExplanationColumn(answers: seq<string>, q: int): (r: Result<Option<nat>, ExplanationError>)
    ensures r.Ok? <==> KeyAt(answers, q).Ok?
    ensures r.Ok? && r.value.Some? <==> KeyAt(answers, q).Ok? && UpperString(KeyAt(answers, q).value) in {"A", "B", "C", "D"}
    ensures r.Ok? && r.value.Some? ==> 2 <= r.value.value <= 5
    ensures r.Ok? && r.value.Some? ==> Some(r.value.value) == AlternativeColumn(UpperString(KeyAt(answers, q).value))
  {
    match KeyAt(answers, q)
    case Err(e) => Err(e)
    case Ok(letter) =>
      var upper := UpperString(letter);
      if |upper| > 0 && upper in {"A", "B", "C", "D"} then
        Ok(Some((upper[0] as int) - ('A' as int) + 2))
      else Ok(None)
  }

  /** The check is case-blind: a lower-case key letter gets the same column
      as its capital. */
  lemma ExplanationColumnCaseBlind(letter: char)
    requires 'a' <= letter <= 'd'
    ensures ExplanationColumn([[letter]], 1) == ExplanationColumn([[Upper(letter)]], 1)
    ensures ExplanationColumn([[letter]], 1).Ok? && ExplanationColumn([[letter]], 1).value.Some?
  {
    assert UpperString([letter]) == [Upper(letter)];
    assert UpperString([Upper(letter)]) == [Upper(letter)];
  }

  /** On the capitals A to D both tables agree; E has an alternative column
      but is never explained, and lower case is read only by the check. */
  lemma LetterTablesAgree(letter: string)
    ensures letter in {"A", "B", "C", "D"} ==> ExplanationColumn([letter], 1) == Ok(AlternativeColumn(letter))
    ensures letter == "E" ==> AlternativeColumn(letter) == Some(6) && ExplanationColumn([letter], 1) == Ok(None)
    ensures letter == "a" ==> AlternativeColumn(letter) == None && ExplanationColumn([letter], 1) == Ok(Some(2))
  {
    if letter in {"A", "B", "C", "D", "E"} {
      assert UpperString(letter) == letter;
    }
    if letter == "a" {
      assert UpperString(letter) == "A";
    }
  }

  /** Question 0 reads the last key letter, as `int(q) - 1` is -1. */
  lemma QuestionZeroWraps(answers: seq<string>)
    requires |answers| > 0
    ensures KeyAt(answers, 0) == Ok(answers[|answers| - 1])
  {
  }

  // ---------------------------------------------------------------------
  // the question loop of create_explanations

  /** A row of the question table: `question_number`, `statement`, and its
      cells by position. */
  datatype QuestionRow<T> = QuestionRow(number: int, statement: string, cells: seq<T>)

  /** generate_explanation, a call to a language model: the explanation of
      a statement given the text of its correct alternative, or None when
      the call fails. */
  type Explainer<!T> = (string, T) -> Option<string>

  /** Python truthiness of the value of `explanation`. */
  predicate Truthy(e: Option<string>)
  {
    e.Some? && e.value != ""
  }

  /** At most this many questions are explained: the loop breaks after the
      question whose counter exceeds 10. */
  const QUESTION_CAP: nat := 12

  function Processed<T>(rows: seq<QuestionRow<T>>): (n: nat)
    ensures n <= |rows| && n <= QUESTION_CAP
    ensures |rows| <= QUESTION_CAP ==> n == |rows|
  {
    if |rows| < QUESTION_CAP then |rows| else QUESTION_CAP
  }

  /** The explanation one question produces, if it passes the letter check. */
  function ExplainQuestion<T>(row: QuestionRow<T>, answers: seq<string>, explain: Explainer<T>)
    : (r: Result<Option<Option<string>>, ExplanationError>)
    ensures r.Ok? && r.value.None? <==> ExplanationColumn(answers, row.number) == Ok(None)
    ensures r.Err? <==>
              (|| ExplanationColumn(answers, row.number).Err?
               || (ExplanationColumn(answers, row.number).Ok? && ExplanationColumn(answers, row.number).value.Some?
                   && ExplanationColumn(answers, row.number).value.value >= |row.cells|))
    ensures r.Ok? && r.value.Some? ==>
              ExplanationColumn(answers, row.number).Ok? && ExplanationColumn(answers, row.number).value.Some?
              && ExplanationColumn(answers, row.number).value.value < |row.cells|
              && r.value.value == explain(row.statement, row.cells[ExplanationColumn(answers, row.number).value.value])
  {
    match ExplanationColumn(answers, row.number)
    case Err(e) => Err(e)
    case Ok(None) => Ok(None)
    case Ok(Some(col)) =>
      if col < |row.cells| then Ok(Some(explain(row.statement, row.cells[col]))) else Err(IndexError)
  }

  /** The loop as written: `explanation` is not reset between questions, so
      a question that fails the letter check stores the previous question's
      explanation under its own statement, and a first question that fails
      it reads an unbound variable. The state is the dictionary and the
      variable, None while unbound. */
  function AsWrittenUpTo<T>(rows: seq<QuestionRow<T>>, answers: seq<string>, explain: Explainer<T>, n: nat)
    : (r: Result<(map<string, string>, Option<Option<string>>), ExplanationError>)
    requires n <= |rows|
    ensures r.Ok? ==> forall s :: s in r.value.0 ==> r.value.0[s] != ""
    ensures r.Ok? ==> forall s :: s in r.value.0 ==> exists j :: 0 <= j < n && rows[j].statement == s
    ensures r.Ok? && n > 0 ==> r.value.1.Some?
  {
    if n == 0 then Ok((map[], None))
    else
      match AsWrittenUpTo(rows, answers, explain, n - 1)
      case Err(e) => Err(e)
      case Ok((m, last)) =>
        match ExplainQuestion(rows[n - 1], answers, explain)
        case Err(e) => Err(e)
        case Ok(produced) =>
          var current := if produced.Some? then Some(produced.value) else last;
          match current
          case None => Err(UnboundLocalError)
          case Some(e) => Ok((if Truthy(e) then m[rows[n - 1].statement := e.value] else m, current))
  }

  function CreateExplanationsAsWritten<T>(rows: seq<QuestionRow<T>>, sheet: seq<seq<string>>, explain: Explainer<T>)
    : (r: Result<map<string, string>, ExplanationError>)
    ensures |sheet| < 2 ==> r == Err(IndexError)
    ensures |sheet| >= 2 && |rows| == 0 ==> r == Err(ZeroDivisionError)
    ensures r.Ok? ==> forall s :: s in r.value ==> r.value[s] != ""
    ensures r.Ok? ==> forall s :: s in r.value ==> exists j :: 0 <= j < QUESTION_CAP && j < |rows| && rows[j].statement == s
  {
    match CorrectAnswers(sheet)
    case Err(e) => Err(e)
    case Ok(answers) =>
      if |rows| == 0 then Err(ZeroDivisionError)
      else
        match AsWrittenUpTo(rows, answers, explain, Processed(rows))
        case Err(e) => Err(e)
        case Ok((m, _)) => Ok(m)
  }

  /** Two questions, the first keyed A and the second keyed E, explained
      by the text of their correct alternative: the second fails the letter
      check, yet the loop as written files the first question's explanation
      under the second statement. */
  lemma StaleExplanationReused()
    ensures var rows := [QuestionRow(1, "q1", ["1", "q1", "a1", "b1", "c1", "d1", "e1"]),
                         QuestionRow(2, "q2", ["2", "q2", "a2", "b2", "c2", "d2", "e2"])];
            var answers := ["A", "E"];
            var explain: Explainer<string> := (s, t) => Some(t);
            && ExplanationColumn(answers, 2) == Ok(None)
            && CreateExplanationsAsWritten(rows, [["1", "2"], answers], explain) == Ok(map["q1" := "a1", "q2" := "a1"])
  {
    var rows := [QuestionRow(1, "q1", ["1", "q1", "a1", "b1", "c1", "d1", "e1"]),
                 QuestionRow(2, "q2", ["2", "q2", "a2", "b2", "c2", "d2", "e2"])];
    var answers := ["A", "E"];
    var explain: Explainer<string> := (s, t) => Some(t);
    assert UpperString("A") == "A";
    assert UpperString("E") == "E";
    assert KeyAt(answers, 1) == Ok("A");
    assert ExplanationColumn(answers, 1) == Ok(Some(2));
    assert ExplainQuestion(rows[0], answers, explain) == Ok(Some(Some("a1")));
    assert ExplainQuestion(rows[1], answers, explain) == Ok(None);
  }

  /** A first question that fails the letter check makes the loop as written
      read `explanation` before it is bound. */
  lemma FirstQuestionUnbound<T>(rows: seq<QuestionRow<T>>, sheet: seq<seq<string>>, explain: Explainer<T>)
    requires |rows| > 0 && |sheet| >= 2 && ExplanationColumn(sheet[1], rows[0].number) == Ok(None)
    ensures CreateExplanationsAsWritten(rows, sheet, explain) == Err(UnboundLocalError)
  {
    AsWrittenErrorSticks(rows, sheet[1], explain, 1, Processed(rows));
  }

  lemma {:induction false} AsWrittenErrorSticks<T>(rows: seq<QuestionRow<T>>, answers: seq<string>, explain: Explainer<T>, j: nat, n: nat)
    requires 0 < j <= n <= |rows| && AsWrittenUpTo(rows, answers, explain, j).Err?
    ensures AsWrittenUpTo(rows, answers, explain, n) == AsWrittenUpTo(rows, answers, explain, j)
  {
    if j < n {
      AsWrittenErrorSticks(rows, answers, explain, j, n - 1);
    }
  }

  /** The loop as intended: each question starts without an explanation, so
      only questions that pass the letter check are filed. */
  function ExplanationsUpTo<T>(rows: seq<QuestionRow<T>>, answers: seq<string>, explain: Explainer<T>, n: nat)
    : (r: Result<map<string, string>, ExplanationError>)
    requires n <= |rows|
    ensures r.Ok? ==> forall s :: s in r.value ==> r.value[s] != ""
    ensures r.Ok? ==> forall s :: s in r.value ==> exists j :: 0 <= j < n && rows[j].statement == s
  {
    if n == 0 then Ok(map[])
    else
      match ExplanationsUpTo(rows, answers, explain, n - 1)
      case Err(e) => Err(e)
      case Ok(m) =>
        match ExplainQuestion(rows[n - 1], answers, explain)
        case Err(e) => Err(e)
        case Ok(None) => Ok(m)
        case Ok(Some(e)) => Ok(if Truthy(e) then m[rows[n - 1].statement := e.value] else m)
  }

  /** Question `r` passes the letter check and its explanation is the
      non-empty `text`. */
  predicate ExplainedAs<T>(rows: seq<QuestionRow<T>>, answers: seq<string>, explain: Explainer<T>, r: nat, text: string)
    requires r < |rows|
  {
    ExplainQuestion(rows[r], answers, explain) == Ok(Some(Some(text))) && text != ""
  }

  /** Every filed explanation belongs to a question with that statement that
      passed the letter check and whose explanation it is. */
  lemma {:induction false} ExplanationsSound<T>(rows: seq<QuestionRow<T>>, answers: seq<string>, explain: Explainer<T>, n: nat, s: string)
    requires n <= |rows| && ExplanationsUpTo(rows, answers, explain, n).Ok?
    requires s in ExplanationsUpTo(rows, answers, explain, n).value
    ensures exists r :: 0 <= r < n && rows[r].statement == s
                        && ExplainedAs(rows, answers, explain, r, ExplanationsUpTo(rows, answers, explain, n).value[s])
  {
    var m := ExplanationsUpTo(rows, answers, explain, n).value;
    var prev := ExplanationsUpTo(rows, answers, explain, n - 1);
    if rows[n - 1].statement == s && ExplainQuestion(rows[n - 1], answers, explain).value.Some?
       && Truthy(ExplainQuestion(rows[n - 1], answers, explain).value.value) {
      assert ExplainedAs(rows, answers, explain, n - 1, m[s]);
    } else {
      assert prev.Ok? && s in prev.value && m[s] == prev.value[s];
      ExplanationsSound(rows, answers, explain, n - 1, s);
    }
  }

  /** Conversely every question that passes the check with a non-empty
      explanation is filed, unless a later question with the same statement
      replaced it. */
  lemma {:induction false} ExplanationsComplete<T>(rows: seq<QuestionRow<T>>, answers: seq<string>, explain: Explainer<T>, n: nat, r: nat, text: string)
    requires r < n <= |rows| && ExplanationsUpTo(rows, answers, explain, n).Ok?
    requires ExplainedAs(rows, answers, explain, r, text)
    requires forall k :: r < k < n ==> rows[k].statement != rows[r].statement
    ensures rows[r].statement in ExplanationsUpTo(rows, answers, explain, n).value
    ensures ExplanationsUpTo(rows, answers, explain, n).value[rows[r].statement] == text
  {
    if r < n - 1 {
      ExplanationsComplete(rows, answers, explain, n - 1, r, text);
    }
  }

  /** When every question passes the letter check the two loops agree: the
      stale value is only ever read by a question that fails it. */
  lemma {:induction false} AsWrittenAgreesWhenAllPass<T>(rows: seq<QuestionRow<T>>, answers: seq<string>, explain: Explainer<T>, n: nat)
    requires n <= |rows|
    requires forall r :: 0 <= r < n ==> ExplanationColumn(answers, rows[r].number) != Ok(None)
    ensures AsWrittenUpTo(rows, answers, explain, n).Ok? <==> ExplanationsUpTo(rows, answers, explain, n).Ok?
    ensures AsWrittenUpTo(rows, answers, explain, n).Ok? ==>
              AsWrittenUpTo(rows, answers, explain, n).value.0 == ExplanationsUpTo(rows, answers, explain, n).value
    ensures n > 0 && AsWrittenUpTo(rows, answers, explain, n).Ok? ==> AsWrittenUpTo(rows, answers, explain, n).value.1.Some?
  {
    if n > 0 {
      AsWrittenAgreesWhenAllPass(rows, answers, explain, n - 1);
    }
  }

  /** create_explanations, with each question starting afresh: an answer
      sheet without a key row raises IndexError first, then an empty table
      divides by zero, and at most the first twelve questions are explained. */
  method CreateExplanations<T>(rows: seq<QuestionRow<T>>, sheet: seq<seq<string>>, explain: Explainer<T>)
    returns (r: Result<map<string, string>, ExplanationError>)
    ensures |sheet| < 2 ==> r == Err(IndexError)
    ensures |sheet| >= 2 && |rows| == 0 ==> r == Err(ZeroDivisionError)
    ensures |sheet| >= 2 && |rows| > 0 ==> r == ExplanationsUpTo(rows, sheet[1], explain, Processed(rows))
  {
    var correctAnswers := CorrectAnswers(sheet);
    if correctAnswers.Err? {
      return Err(correctAnswers.error);
    }
    var answers := correctAnswers.value;
    if |rows| == 0 {
      return Err(ZeroDivisionError);
    }
    var explanations: map<string, string> := map[];
    var count := 0;
    var i := 0;
    while i < |rows|
      invariant 0 <= i <= Processed(rows) && count == i
      invariant ExplanationsUpTo(rows, answers, explain, i) == Ok(explanations)
      decreases |rows| - i
    {
      var row := rows[i];
      var explanation: Option<string> := None;
      var passed := false;
      var column := ExplanationColumn(answers, row.number);
      if column.Err? {
        ExplanationsErrorSticks(rows, answers, explain, i + 1, Processed(rows));
        return Err(column.error);
      }
      if column.value.Some? {
        var col := column.value.value;
        if col >= |row.cells| {
          ExplanationsErrorSticks(rows, answers, explain, i + 1, Processed(rows));
          return Err(IndexError);
        }
        explanation := explain(row.statement, row.cells[col]);
        passed := true;
      }
      if passed && Truthy(explanation) {
        explanations := explanations[row.statement := explanation.value];
      }
      i := i + 1;
      if count > 10 {
        break;
      }
      count := count + 1;
    }
    return Ok(explanations);
  }

  lemma {:induction false} ExplanationsErrorSticks<T>(rows: seq<QuestionRow<T>>, answers: seq<string>, explain: Explainer<T>, j: nat, n: nat)
    requires 0 < j <= n <= |rows| && ExplanationsUpTo(rows, answers, explain, j).Err?
    ensures ExplanationsUpTo(rows, answers, explain, n) == ExplanationsUpTo(rows, answers, explain, j)
  {
    if j < n {
      ExplanationsErrorSticks(rows, answers, explain, j, n - 1);
    }
  }
}
