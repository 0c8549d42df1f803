/** Total scores per student (calculate_scores in src/new_project.py). The
    uploaded frame is a header row, the answer-key row and one row per
    student, each row starting with the student's identifier. */
module Scoring {
  import Irt

  /** One row of the result: the student's identifier and total score. */
  datatype StudentScore<C> = StudentScore(student: C, score: nat)

  /** `None` for an empty frame, IndexError when the frame has no row after
      the dropped first one, or the scores. */
  datatype ScoreOutcome<C> = EmptyFrame | MissingKeyRow | Scores(entries: seq<StudentScore<C>>)

  /** Every row of the frame has one cell per column. */
  predicate Rectangular<C>(width: nat, rows: seq<seq<C>>)
  {
    forall k :: 0 <= k < |rows| ==> |rows[k]| == width
  }

  /** `zip(response, correct_answers)`: the pairs up to the shorter length. */
  function Zip<C>(response: seq<C>, key: seq<C>): (z: seq<(C, C)>)
    ensures |z| <= |response| && |z| <= |key| && (|z| == |response| || |z| == |key|)
    ensures forall i :: 0 <= i < |z| ==> z[i] == (response[i], key[i])
  {
    var n := if |response| <= |key| then |response| else |key|;
    seq(n, i requires 0 <= i < n => (response[i], key[i]))
  }

  /** `sum([r == c for r, c in pairs])`: the number of agreeing pairs. */
  function CountAgreeing<C(==)>(pairs: seq<(C, C)>): (n: nat)
    ensures n <= |pairs|
    ensures n == |pairs| <==> forall i :: 0 <= i < |pairs| ==> pairs[i].0 == pairs[i].1
  {
    if |pairs| == 0 then 0
    else CountAgreeing(pairs[..|pairs| - 1]) + (if pairs[|pairs| - 1].0 == pairs[|pairs| - 1].1 then 1 else 0)
  }

  /** A student's score: the positions where the response equals the key. */
  function MatchingAnswers<C(==)>(response: seq<C>, key: seq<C>): (n: nat)
    ensures n <= |response| && n <= |key|
  {
    CountAgreeing(Zip(response, key))
  }

  /** The score never exceeds the length of either row, and a row as long as
      the key gets full marks exactly when it equals the key. */
  lemma MatchingAnswersBounds<C>(response: seq<C>, key: seq<C>)
    ensures MatchingAnswers(response, key) <= |response|
    ensures MatchingAnswers(response, key) <= |key|
    ensures |response| == |key| ==> (MatchingAnswers(response, key) == |key| <==> response == key)
  {
    var z := Zip(response, key);
    if |response| == |key| && MatchingAnswers(response, key) == |key| {
      forall i | 0 <= i < |key| ensures response[i] == key[i] {
        assert z[i] == (response[i], key[i]);
      }
    }
  }

  /** Swapping the response and the key leaves the score unchanged. */
  lemma {:induction false} MatchingAnswersSymmetric<C>(response: seq<C>, key: seq<C>)
    ensures MatchingAnswers(response, key) == MatchingAnswers(key, response)
  {
    var z, w := Zip(response, key), Zip(key, response);
    CountSwapped(z, w);
  }

  lemma {:induction false} CountSwapped<C>(z: seq<(C, C)>, w: seq<(C, C)>)
    requires |z| == |w| && forall i :: 0 <= i < |z| ==> w[i] == (z[i].1, z[i].0)
    ensures CountAgreeing(z) == CountAgreeing(w)
  {
    if |z| > 0 {
      CountSwapped(z[..|z| - 1], w[..|w| - 1]);
    }
  }

  /** On a rectangular frame this is the total score the IRT discrimination
      uses: the number of key items answered as keyed. */
  lemma MatchingAnswersIsIrtScore<C>(response: seq<C>, key: seq<C>)
    requires |response| == |key|
    ensures MatchingAnswers(response, key) == Irt.Score(key, response)
  {
    PrefixCount(response, key, |key|);
    assert Zip(response, key)[..|key|] == Zip(response, key);
  }

  lemma {:induction false} PrefixCount<C>(response: seq<C>, key: seq<C>, n: nat)
    requires |response| == |key| && n <= |key|
    ensures CountAgreeing(Zip(response, key)[..n]) == Irt.MatchCount(key, response, n)
  {
    if n > 0 {
      PrefixCount(response, key, n - 1);
      assert Zip(response, key)[..n][..n - 1] == Zip(response, key)[..n - 1];
    }
  }

  /** The score of student row `k` (a row after the key row): its answers
      against the key's, both without the identifier column. */
  function RowScore<C(==)>(rows: seq<seq<C>>, k: nat): (s: StudentScore<C>)
    requires 2 <= k < |rows| && |rows[k]| > 0 && |rows[1]| > 0
    ensures s.student == rows[k][0]
    ensures s.score < |rows[k]| && s.score < |rows[1]|
  {
    StudentScore(rows[k][0], MatchingAnswers(rows[k][1..], rows[1][1..]))
  }

  /** calculate_scores on a frame with `width` columns: the first row is
      dropped, the next one is the key, and every later row is scored. */
  method CalculateScores<C(==)>(width: nat, rows: seq<seq<C>>) returns (outcome: ScoreOutcome<C>)
    requires Rectangular(width, rows)
    ensures outcome.EmptyFrame? <==> width == 0 || |rows| == 0
    ensures outcome.MissingKeyRow? <==> width > 0 && |rows| == 1
    ensures outcome.Scores? ==>
              && |outcome.entries| == |rows| - 2
              && forall k :: 2 <= k < |rows| ==> outcome.entries[k - 2] == RowScore(rows, k)
  {
    if width == 0 || |rows| == 0 {
      return EmptyFrame;
    }
    var df := rows[1..];
    if |df| == 0 {
      return MissingKeyRow;
    }
    var correctAnswers := df[0][1..];
    var students := df[1..];
    var scores: seq<StudentScore<C>> := [];
    for j := 0 to |students|
      invariant |scores| == j
      invariant forall k :: 0 <= k < j ==> scores[k] == RowScore(rows, k + 2)
    {
      var response := students[j];
      var score := MatchingAnswers(response[1..], correctAnswers);
      scores := scores + [StudentScore(response[0], score)];
    }
    return Scores(scores);
  }

  /** Every score lies between 0 and the number of items, and a student gets
      full marks exactly when their row repeats the key row. */
  lemma ScoresBounded<C>(width: nat, rows: seq<seq<C>>, k: nat)
    requires Rectangular(width, rows) && width > 0 && 2 <= k < |rows|
    ensures RowScore(rows, k).score <= width - 1
    ensures RowScore(rows, k).score == width - 1 <==> rows[k][1..] == rows[1][1..]
  {
    MatchingAnswersBounds(rows[k][1..], rows[1][1..]);
  }
}
