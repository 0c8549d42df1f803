/** The per-student topic mastery report (generate_student_report in
    src/student_report.py): every question a student answered routes the
    topics mapped to it into "mastered" or "needs study". */
module StudentReport {
  import opened Wrappers
  import Sequences
  import Topics

  /** A labelled table: row labels, column labels and one row of cells per
      row label. */
  datatype Sheet<L, V> = Sheet(index: seq<L>, columns: seq<L>, cells: seq<seq<V>>)

  /** Rows and columns match their labels, and no label is repeated. */
  predicate WellFormed<L(==), V>(sheet: Sheet<L, V>)
  {
    && |sheet.cells| == |sheet.index|
    && (forall k :: 0 <= k < |sheet.cells| ==> |sheet.cells[k]| == |sheet.columns|)
    && Sequences.Distinct(sheet.index)
    && Sequences.Distinct(sheet.columns)
  }

  /** `sheet[col][row]`: the cell in column `col` and row `row`, if both
      labels exist. */
  function Lookup<L(==), V>(sheet: Sheet<L, V>, row: L, col: L): (r: Option<V>)
    requires WellFormed(sheet)
    ensures r.Some? <==> row in sheet.index && col in sheet.columns
    ensures forall i, j :: 0 <= i < |sheet.index| && 0 <= j < |sheet.columns| && sheet.index[i] == row && sheet.columns[j] == col ==>
              r == Some(sheet.cells[i][j])
  {
    if row in sheet.index && col in sheet.columns then
      Some(sheet.cells[Sequences.FirstIndex(sheet.index, row)][Sequences.FirstIndex(sheet.columns, col)])
    else None
  }

  /** A KeyError from the key lookup, or the AttributeError of calling
      `split` on a topic value that is not a string. */
  datatype ReportError = KeyError | NotAString

  datatype Mastery = Mastery(mastered: seq<string>, needsStudy: seq<string>)

  datatype StudentRecord<L> = StudentRecord(student: L, mastery: Mastery)

  /** `series.to_dict()` of (question, topics) pairs: a question listed twice
      keeps its last value. */
  function ToDict<L(==)>(pairs: seq<(L, Topics.TopicCell)>): (m: map<L, Topics.TopicCell>)
    ensures m.Keys == set j | 0 <= j < |pairs| :: pairs[j].0
  {
    if |pairs| == 0 then map[]
    else
      var init := pairs[..|pairs| - 1];
      assert forall j :: 0 <= j < |init| ==> init[j] == pairs[j];
      ToDict(init)[pairs[|pairs| - 1].0 := pairs[|pairs| - 1].1]
  }

  /** The value kept for a question is the one of its last pair. */
  lemma {:induction false} ToDictLastWins<L>(pairs: seq<(L, Topics.TopicCell)>, j: nat)
    requires j < |pairs|
    requires forall i :: j < i < |pairs| ==> pairs[i].0 != pairs[j].0
    ensures ToDict(pairs)[pairs[j].0] == pairs[j].1
  {
    if j < |pairs| - 1 {
      var init := pairs[..|pairs| - 1];
      ToDictLastWins(init, j);
    }
  }

  /** `topic_difficulty_map.get(q, "").split(",")`, each piece stripped. */
  function QuestionTopics<L(==)>(topicMap: map<L, Topics.TopicCell>, q: L): (r: Result<seq<string>, ReportError>)
    ensures r.Err? <==> q in topicMap && topicMap[q].ListCell?
    ensures r.Err? ==> r.error == NotAString
    ensures r.Ok? ==> |r.value| >= 1
  {
    var cell := if q in topicMap then topicMap[q] else Topics.TextCell("");
    match cell
    case TextCell(s) => Ok(Topics.SplitTopics(s))
    case ListCell(_) => Err(NotAString)
  }

  /** A question without a topic mapping yields the single empty topic. */
  lemma UnmappedQuestionTopics<L>(topicMap: map<L, Topics.TopicCell>, q: L)
    requires q !in topicMap
    ensures QuestionTopics(topicMap, q) == Ok([""])
  {
    Topics.SplitTopicsShape("");
  }

  /** A string mapping yields one topic per comma-separated piece. */
  lemma QuestionTopicsCount<L>(topicMap: map<L, Topics.TopicCell>, q: L)
    requires QuestionTopics(topicMap, q).Ok?
    ensures |QuestionTopics(topicMap, q).value| >= 1
    ensures q in topicMap ==> |QuestionTopics(topicMap, q).value| == Sequences.Count(topicMap[q].text, ',') + 1
  {
    if q in topicMap {
      Topics.SplitTopicsShape(topicMap[q].text);
    } else {
      Topics.SplitTopicsShape("");
    }
  }

  /** Question column `j` is scored: it is not the key column. */
  predicate Scored<L(==), V>(sheet: Sheet<L, V>, trueAnswers: L, j: nat)
    requires j < |sheet.columns|
  {
    sheet.columns[j] != trueAnswers
  }

  /** Student row `k` after its first `n` answers. */
  function MasteryUpTo<L(==), V(==)>(sheet: Sheet<L, V>, topicMap: map<L, Topics.TopicCell>, trueAnswers: L, k: nat, n: nat): (r: Result<Mastery, ReportError>)
    requires WellFormed(sheet) && k < |sheet.index| && n <= |sheet.columns|
    ensures r.Ok? ==> forall t :: t in r.value.mastered ==> ',' !in t
    ensures r.Ok? ==> forall t :: t in r.value.needsStudy ==> ',' !in t
  {
    if n == 0 then Ok(Mastery([], []))
    else
      match MasteryUpTo(sheet, topicMap, trueAnswers, k, n - 1)
      case Err(e) => Err(e)
      case Ok(m) =>
        var q := sheet.columns[n - 1];
        if q == trueAnswers then Ok(m)
        else
          match Lookup(sheet, q, trueAnswers)
          case None => Err(KeyError)
          case Some(correct) =>
            match QuestionTopics(topicMap, q)
            case Err(e) => Err(e)
            case Ok(topics) =>
              Topics.SplitTopicsShape(if q in topicMap then topicMap[q].text else "");
              if sheet.cells[k][n - 1] == correct then Ok(Mastery(m.mastered + topics, m.needsStudy))
              else Ok(Mastery(m.mastered, m.needsStudy + topics))
  }

  /** The records of the first `n` students. */
  function ReportUpTo<L(==), V(==)>(sheet: Sheet<L, V>, topicMap: map<L, Topics.TopicCell>, trueAnswers: L, n: nat): (r: Result<seq<StudentRecord<L>>, ReportError>)
    requires WellFormed(sheet) && n <= |sheet.index|
    ensures r.Ok? ==> |r.value| == n
    ensures r.Ok? ==> forall k :: 0 <= k < n ==>
              r.value[k].student == sheet.index[k]
              && MasteryUpTo(sheet, topicMap, trueAnswers, k, |sheet.columns|) == Ok(r.value[k].mastery)
  {
    if n == 0 then Ok([])
    else
      match ReportUpTo(sheet, topicMap, trueAnswers, n - 1)
      case Err(e) => Err(e)
      case Ok(records) =>
        match MasteryUpTo(sheet, topicMap, trueAnswers, n - 1, |sheet.columns|)
        case Err(e) => Err(e)
        case Ok(m) => Ok(records + [StudentRecord(sheet.index[n - 1], m)])
  }

  /** generate_student_report: one record per row label of the answer sheet,
      in order. */
  function Report<L(==), V(==)>(sheet: Sheet<L, V>, metrics: seq<(L, Topics.TopicCell)>, trueAnswers: L): (r: Result<seq<StudentRecord<L>>, ReportError>)
    requires WellFormed(sheet)
    ensures r.Ok? ==> |r.value| == |sheet.index|
    ensures r.Ok? ==> forall k :: 0 <= k < |sheet.index| ==> r.value[k].student == sheet.index[k]
  {
    ReportUpTo(sheet, ToDict(metrics), trueAnswers, |sheet.index|)
  }

  lemma {:induction false} MasteryErrorSticks<L, V>(sheet: Sheet<L, V>, topicMap: map<L, Topics.TopicCell>, trueAnswers: L, k: nat, j: nat, n: nat)
    requires WellFormed(sheet) && k < |sheet.index| && j <= n <= |sheet.columns|
    requires MasteryUpTo(sheet, topicMap, trueAnswers, k, j).Err?
    ensures MasteryUpTo(sheet, topicMap, trueAnswers, k, n) == MasteryUpTo(sheet, topicMap, trueAnswers, k, j)
  {
    if n > j {
      MasteryErrorSticks(sheet, topicMap, trueAnswers, k, j, n - 1);
    }
  }

  lemma {:induction false} ReportErrorSticks<L, V>(sheet: Sheet<L, V>, topicMap: map<L, Topics.TopicCell>, trueAnswers: L, j: nat, n: nat)
    requires WellFormed(sheet) && j <= n <= |sheet.index|
    requires ReportUpTo(sheet, topicMap, trueAnswers, j).Err?
    ensures ReportUpTo(sheet, topicMap, trueAnswers, n) == ReportUpTo(sheet, topicMap, trueAnswers, j)
  {
    if n > j {
      ReportErrorSticks(sheet, topicMap, trueAnswers, j, n - 1);
    }
  }

  /** Question column `j` can be scored: its key exists and its topics are
      a string. */
  predicate Answerable<L(==), V>(sheet: Sheet<L, V>, topicMap: map<L, Topics.TopicCell>, trueAnswers: L, j: nat)
    requires WellFormed(sheet) && j < |sheet.columns|
  {
    Lookup(sheet, sheet.columns[j], trueAnswers).Some? && QuestionTopics(topicMap, sheet.columns[j]).Ok?
  }

  /** A student's record fails exactly when one of the scored questions has
      no key or a topic value that is not a string. */
  lemma {:induction false} MasteryOk<L, V>(sheet: Sheet<L, V>, topicMap: map<L, Topics.TopicCell>, trueAnswers: L, k: nat, n: nat)
    requires WellFormed(sheet) && k < |sheet.index| && n <= |sheet.columns|
    ensures MasteryUpTo(sheet, topicMap, trueAnswers, k, n).Ok?
            <==> forall j :: 0 <= j < n && Scored(sheet, trueAnswers, j) ==> Answerable(sheet, topicMap, trueAnswers, j)
  {
    if n > 0 {
      MasteryOk(sheet, topicMap, trueAnswers, k, n - 1);
      MasteryStepOk(sheet, topicMap, trueAnswers, k, n);
      AnswerableSplit(sheet, topicMap, trueAnswers, n);
    }
  }

  /** The first `n` questions can be scored exactly when the first `n - 1`
      and the last of them can. */
  lemma AnswerableSplit<L, V>(sheet: Sheet<L, V>, topicMap: map<L, Topics.TopicCell>, trueAnswers: L, n: nat)
    requires WellFormed(sheet) && 0 < n <= |sheet.columns|
    ensures (forall j :: 0 <= j < n && Scored(sheet, trueAnswers, j) ==> Answerable(sheet, topicMap, trueAnswers, j))
            <==> (forall j :: 0 <= j < n - 1 && Scored(sheet, trueAnswers, j) ==> Answerable(sheet, topicMap, trueAnswers, j))
                 && (Scored(sheet, trueAnswers, n - 1) ==> Answerable(sheet, topicMap, trueAnswers, n - 1))
  {
  }

  /** One more question keeps the record successful exactly when it is not
      scored or can be scored. */
  lemma MasteryStepOk<L, V>(sheet: Sheet<L, V>, topicMap: map<L, Topics.TopicCell>, trueAnswers: L, k: nat, n: nat)
    requires WellFormed(sheet) && k < |sheet.index| && 0 < n <= |sheet.columns|
    ensures MasteryUpTo(sheet, topicMap, trueAnswers, k, n).Ok?
            <==> MasteryUpTo(sheet, topicMap, trueAnswers, k, n - 1).Ok?
                 && (Scored(sheet, trueAnswers, n - 1) ==> Answerable(sheet, topicMap, trueAnswers, n - 1))
  {
  }

  /** The report fails exactly when there is a student and a scored
      question without a key or with a topic value that is not a string. */
  lemma ReportOk<L, V>(sheet: Sheet<L, V>, metrics: seq<(L, Topics.TopicCell)>, trueAnswers: L)
    requires WellFormed(sheet)
    ensures Report(sheet, metrics, trueAnswers).Ok?
            <==> |sheet.index| == 0
                 || forall j :: 0 <= j < |sheet.columns| && Scored(sheet, trueAnswers, j) ==> Answerable(sheet, ToDict(metrics), trueAnswers, j)
  {
    var topicMap := ToDict(metrics);
    if |sheet.index| > 0 {
      MasteryOk(sheet, topicMap, trueAnswers, 0, |sheet.columns|);
      ReportUpToOk(sheet, topicMap, trueAnswers, |sheet.index|);
    }
  }

  lemma {:induction false} ReportUpToOk<L, V>(sheet: Sheet<L, V>, topicMap: map<L, Topics.TopicCell>, trueAnswers: L, n: nat)
    requires WellFormed(sheet) && 0 < n <= |sheet.index|
    ensures ReportUpTo(sheet, topicMap, trueAnswers, n).Ok?
            <==> MasteryUpTo(sheet, topicMap, trueAnswers, 0, |sheet.columns|).Ok?
  {
    MasteryOk(sheet, topicMap, trueAnswers, 0, |sheet.columns|);
    MasteryOk(sheet, topicMap, trueAnswers, n - 1, |sheet.columns|);
    if n > 1 {
      ReportUpToOk(sheet, topicMap, trueAnswers, n - 1);
    }
  }

  /** The number of topics the first `n` scored questions contribute. */
  function Pieces<L(==), V>(sheet: Sheet<L, V>, topicMap: map<L, Topics.TopicCell>, trueAnswers: L, n: nat): nat
    requires WellFormed(sheet) && n <= |sheet.columns|
  {
    if n == 0 then 0
    else
      var q := sheet.columns[n - 1];
      var here := if q != trueAnswers && QuestionTopics(topicMap, q).Ok? then |QuestionTopics(topicMap, q).value| else 0;
      Pieces(sheet, topicMap, trueAnswers, n - 1) + here
  }

  /** Every topic piece of every scored question lands in exactly one of the
      two lists, duplicates included. */
  lemma {:induction false} MasteryLength<L, V>(sheet: Sheet<L, V>, topicMap: map<L, Topics.TopicCell>, trueAnswers: L, k: nat, n: nat)
    requires WellFormed(sheet) && k < |sheet.index| && n <= |sheet.columns|
    requires MasteryUpTo(sheet, topicMap, trueAnswers, k, n).Ok?
    ensures var m := MasteryUpTo(sheet, topicMap, trueAnswers, k, n).value;
            |m.mastered| + |m.needsStudy| == Pieces(sheet, topicMap, trueAnswers, n)
  {
    if n > 0 {
      MasteryLength(sheet, topicMap, trueAnswers, k, n - 1);
    }
  }

  /** A student needs to study nothing exactly when every scored answer
      matches its key, and masters nothing exactly when none does. */
  lemma {:induction false} MasteryExtremes<L, V>(sheet: Sheet<L, V>, topicMap: map<L, Topics.TopicCell>, trueAnswers: L, k: nat, n: nat)
    requires WellFormed(sheet) && k < |sheet.index| && n <= |sheet.columns|
    requires MasteryUpTo(sheet, topicMap, trueAnswers, k, n).Ok?
    ensures var m := MasteryUpTo(sheet, topicMap, trueAnswers, k, n).value;
            && (m.needsStudy == [] <==> forall j :: 0 <= j < n && Scored(sheet, trueAnswers, j) ==>
                  Lookup(sheet, sheet.columns[j], trueAnswers) == Some(sheet.cells[k][j]))
            && (m.mastered == [] <==> forall j :: 0 <= j < n && Scored(sheet, trueAnswers, j) ==>
                  Lookup(sheet, sheet.columns[j], trueAnswers) != Some(sheet.cells[k][j]))
  {
    if n > 0 {
      MasteryStep(sheet, topicMap, trueAnswers, k, n);
      MasteryExtremes(sheet, topicMap, trueAnswers, k, n - 1);
    }
  }

  /** Question column `j` is scored and student row `k` answers it as keyed. */
  predicate AnsweredAsKeyed<L(==), V(==)>(sheet: Sheet<L, V>, trueAnswers: L, k: nat, j: nat)
    requires WellFormed(sheet) && k < |sheet.index| && j < |sheet.columns|
  {
    Scored(sheet, trueAnswers, j) && Lookup(sheet, sheet.columns[j], trueAnswers) == Some(sheet.cells[k][j])
  }

  /** Question column `j` lists topic `t`. */
  predicate ListsTopic<L(==)>(topicMap: map<L, Topics.TopicCell>, q: L, t: string)
  {
    QuestionTopics(topicMap, q).Ok? && t in QuestionTopics(topicMap, q).value
  }

  /** The routing of topics: a topic is mastered exactly when some scored
      question the student answered as keyed lists it, and needs study
      exactly when some scored question the student missed lists it. */
  lemma {:induction false} MasteryRouting<L, V>(sheet: Sheet<L, V>, topicMap: map<L, Topics.TopicCell>, trueAnswers: L, k: nat, n: nat, t: string)
    requires WellFormed(sheet) && k < |sheet.index| && n <= |sheet.columns|
    requires MasteryUpTo(sheet, topicMap, trueAnswers, k, n).Ok?
    ensures var m := MasteryUpTo(sheet, topicMap, trueAnswers, k, n).value;
            && (t in m.mastered <==>
                  exists j :: 0 <= j < n && AnsweredAsKeyed(sheet, trueAnswers, k, j) && ListsTopic(topicMap, sheet.columns[j], t))
            && (t in m.needsStudy <==>
                  exists j :: 0 <= j < n && Scored(sheet, trueAnswers, j) && !AnsweredAsKeyed(sheet, trueAnswers, k, j)
                               && ListsTopic(topicMap, sheet.columns[j], t))
  {
    if n > 0 {
      MasteryStep(sheet, topicMap, trueAnswers, k, n);
      MasteryRouting(sheet, topicMap, trueAnswers, k, n - 1, t);
    }
  }

  /** One successful step: the key column changes nothing; a scored question
      appends its topics to mastered when answered as keyed, and to
      needs_study otherwise. */
  lemma MasteryStep<L, V>(sheet: Sheet<L, V>, topicMap: map<L, Topics.TopicCell>, trueAnswers: L, k: nat, n: nat)
    requires WellFormed(sheet) && k < |sheet.index| && 0 < n <= |sheet.columns|
    requires MasteryUpTo(sheet, topicMap, trueAnswers, k, n).Ok?
    ensures MasteryUpTo(sheet, topicMap, trueAnswers, k, n - 1).Ok?
    ensures var m := MasteryUpTo(sheet, topicMap, trueAnswers, k, n).value;
            var prev := MasteryUpTo(sheet, topicMap, trueAnswers, k, n - 1).value;
            var q := sheet.columns[n - 1];
            && (!Scored(sheet, trueAnswers, n - 1) ==> m == prev)
            && (Scored(sheet, trueAnswers, n - 1) ==>
                  && QuestionTopics(topicMap, q).Ok?
                  && (AnsweredAsKeyed(sheet, trueAnswers, k, n - 1) ==>
                        m == Mastery(prev.mastered + QuestionTopics(topicMap, q).value, prev.needsStudy))
                  && (!AnsweredAsKeyed(sheet, trueAnswers, k, n - 1) ==>
                        m == Mastery(prev.mastered, prev.needsStudy + QuestionTopics(topicMap, q).value)))
  {
  }

  /** A successful record was successful on every shorter prefix. */
  lemma MasteryErrorFree<L, V>(sheet: Sheet<L, V>, topicMap: map<L, Topics.TopicCell>, trueAnswers: L, k: nat, n: nat)
    requires WellFormed(sheet) && k < |sheet.index| && 0 < n <= |sheet.columns|
    requires MasteryUpTo(sheet, topicMap, trueAnswers, k, n).Ok?
    ensures MasteryUpTo(sheet, topicMap, trueAnswers, k, n - 1).Ok?
  {
  }

  /** `for topic in text.split(","): acc.append(topic.strip())`. */
  method AppendTopics(acc: seq<string>, text: string) returns (r: seq<string>)
    ensures r == acc + Topics.SplitTopics(text)
  {
    var pieces := Topics.Split(text, ',');
    r := acc;
    for i := 0 to |pieces|
      invariant r == acc + Topics.StripAll(pieces[..i])
    {
      assert Topics.StripAll(pieces[..i + 1]) == Topics.StripAll(pieces[..i]) + [Topics.Strip(pieces[i])];
      r := r + [Topics.Strip(pieces[i])];
    }
    assert pieces[..|pieces|] == pieces;
  }

  /** The inner loop of generate_student_report for student row `k`: each
      question other than the key column routes its topics by correctness. */
  method StudentMastery<L(==), V(==)>(sheet: Sheet<L, V>, topicMap: map<L, Topics.TopicCell>, trueAnswers: L, k: nat)
    returns (r: Result<Mastery, ReportError>)
    requires WellFormed(sheet) && k < |sheet.index|
    ensures r == MasteryUpTo(sheet, topicMap, trueAnswers, k, |sheet.columns|)
  {
    var mastered: seq<string>, needsStudy: seq<string> := [], [];
    for j := 0 to |sheet.columns|
      invariant MasteryUpTo(sheet, topicMap, trueAnswers, k, j) == Ok(Mastery(mastered, needsStudy))
    {
      var questionNumber := sheet.columns[j];
      var studentAnswer := sheet.cells[k][j];
      if questionNumber != trueAnswers {
        var correctAnswer := Lookup(sheet, questionNumber, trueAnswers);
        var cell := if questionNumber in topicMap then topicMap[questionNumber] else Topics.TextCell("");
        if correctAnswer.None? || cell.ListCell? {
          r := Err(if correctAnswer.None? then KeyError else NotAString);
          MasteryErrorSticks(sheet, topicMap, trueAnswers, k, j + 1, |sheet.columns|);
          return;
        }
        if studentAnswer == correctAnswer.value {
          mastered := AppendTopics(mastered, cell.text);
        } else {
          needsStudy := AppendTopics(needsStudy, cell.text);
        }
      }
    }
    return Ok(Mastery(mastered, needsStudy));
  }

  /** The outer loop of generate_student_report: a fresh record per row
      label of the answer sheet, in order. */
  method GenerateStudentReport<L(==), V(==)>(sheet: Sheet<L, V>, metrics: seq<(L, Topics.TopicCell)>, trueAnswers: L)
    returns (r: Result<seq<StudentRecord<L>>, ReportError>)
    requires WellFormed(sheet)
    ensures r == Report(sheet, metrics, trueAnswers)
  {
    var topicMap := ToDict(metrics);
    var studentMastery: seq<StudentRecord<L>> := [];
    for k := 0 to |sheet.index|
      invariant ReportUpTo(sheet, topicMap, trueAnswers, k) == Ok(studentMastery)
    {
      var mastery := StudentMastery(sheet, topicMap, trueAnswers, k);
      if mastery.Err? {
        r := Err(mastery.error);
        ReportErrorSticks(sheet, topicMap, trueAnswers, k + 1, |sheet.index|);
        return;
      }
      studentMastery := studentMastery + [StudentRecord(sheet.index[k], mastery.value)];
    }
    return Ok(studentMastery);
  }
}
