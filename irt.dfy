/** The IRT proxy estimators of src/irt.py: per item, difficulty (share of
    rows matching the key), discrimination (item-total correlation, NaN
    read as 0) and guessing (1 / number of distinct answers seen).
    Answers are values of any type with equality; a response is a row of
    answers indexed like the key. */
module Irt {
  import opened Wrappers

  /** The exceptions the estimators can raise: ZeroDivisionError and
      IndexError. */
  datatype IrtError = DivisionByZero | IndexOutOfRange

  /** One row of the metrics table; `item` is 1-based. */
  datatype ItemParameters = ItemParameters(item: int, difficulty: real, discrimination: real, guessing: real)

  /** The value of `np.corrcoef(x, y)[0, 1]` for vectors where it is a number.
      The numeric routine is a foreign library call, so it is a parameter. */
  type Correlation = (seq<int>, seq<int>) -> real

  /** Every row has an entry at position `i`. */
  predicate HasColumn<T>(responses: seq<seq<T>>, i: nat)
  {
    forall k :: 0 <= k < |responses| ==> i < |responses[k]|
  }

  /** Every row has an entry for every key item. */
  predicate Covers<T>(key: seq<T>, responses: seq<seq<T>>)
  {
    forall k :: 0 <= k < |responses| ==> |key| <= |responses[k]|
  }

  /** `sum(1 for response in responses if response[i] == key[i])`. */
  function CorrectCount<T(==)>(key: seq<T>, responses: seq<seq<T>>, i: nat): (n: nat)
    requires i < |key| && HasColumn(responses, i)
    ensures n <= |responses|
    ensures n == |responses| <==> forall k :: 0 <= k < |responses| ==> responses[k][i] == key[i]
    ensures n == 0 <==> forall k :: 0 <= k < |responses| ==> responses[k][i] != key[i]
  {
    if |responses| == 0 then 0
    else
      var init := responses[..|responses| - 1];
      assert forall k :: 0 <= k < |init| ==> init[k] == responses[k];
      CorrectCount(key, init, i) + (if responses[|responses| - 1][i] == key[i] then 1 else 0)
  }

  /** Difficulty of item `i`: the proportion of rows matching the key. */
  function Difficulty<T(==)>(key: seq<T>, responses: seq<seq<T>>, i: nat): (d: real)
    requires i < |key| && HasColumn(responses, i) && |responses| > 0
    ensures 0.0 <= d <= 1.0
    ensures d == 1.0 <==> forall k :: 0 <= k < |responses| ==> responses[k][i] == key[i]
    ensures d == 0.0 <==> forall k :: 0 <= k < |responses| ==> responses[k][i] != key[i]
    ensures d == Fraction(CorrectCount(key, responses, i), |responses|)
  {
    var n, m := CorrectCount(key, responses, i) as real, |responses| as real;
    Proportion(n, m);
    n / m
  }

  /** `n / m` in Python 3: true division of two counts. */
  function Fraction(n: nat, m: nat): real
    requires m > 0
  {
    n as real / m as real
  }

  /** A count out of a positive total is a proportion in [0, 1], equal to 1
      only for the full count and to 0 only for the empty one. */
  lemma Proportion(n: real, m: real)
    requires 0.0 <= n <= m && m > 0.0
    ensures 0.0 <= n / m <= 1.0
    ensures n / m == 1.0 <==> n == m
    ensures n / m == 0.0 <==> n == 0.0
  {
    var q := n / m;
    assert q * m == n;
  }

  /** The correct count is the sum of the item's 0/1 column, the vector the
      discrimination correlates. */
  lemma {:induction false} CorrectCountIsColumnSum<T>(key: seq<T>, responses: seq<seq<T>>, i: nat)
    requires i < |key| && HasColumn(responses, i)
    ensures CorrectCount(key, responses, i) == Sum(ItemIndicators(key, responses, i))
  {
    if |responses| > 0 {
      var init := responses[..|responses| - 1];
      CorrectCountIsColumnSum(key, init, i);
      var x := ItemIndicators(key, responses, i);
      assert x[..|x| - 1] == ItemIndicators(key, init, i);
      assert Sum(x) == Sum(ItemIndicators(key, init, i)) + x[|x| - 1];
      assert CorrectCount(key, responses, i) == CorrectCount(key, init, i) + x[|x| - 1];
    }
  }

  /** Difficulty is the mean of the item's 0/1 column. */
  lemma DifficultyIsColumnMean<T>(key: seq<T>, responses: seq<seq<T>>, i: nat)
    requires i < |key| && HasColumn(responses, i) && |responses| > 0
    ensures Sum(ItemIndicators(key, responses, i)) >= 0
    ensures Difficulty(key, responses, i) == Fraction(Sum(ItemIndicators(key, responses, i)), |responses|)
  {
    CorrectCountIsColumnSum(key, responses, i);
  }

  /** 1 when the row matches the key on item `i`, else 0. */
  function Indicator<T(==)>(key: seq<T>, resp: seq<T>, i: nat): (b: int)
    requires i < |key| && i < |resp|
    ensures b == 0 || b == 1
    ensures b == 1 <==> resp[i] == key[i]
  {
    if resp[i] == key[i] then 1 else 0
  }

  /** Number of the first `n` items on which `resp` matches the key. */
  function MatchCount<T(==)>(key: seq<T>, resp: seq<T>, n: nat): (c: nat)
    requires n <= |key| && n <= |resp|
    ensures c <= n
    ensures c == n <==> forall j :: 0 <= j < n ==> resp[j] == key[j]
    ensures c == 0 <==> forall j :: 0 <= j < n ==> resp[j] != key[j]
  {
    if n == 0 then 0 else MatchCount(key, resp, n - 1) + Indicator(key, resp, n - 1)
  }

  /** An examinee's total score: the number of key items answered as keyed. */
  function Score<T(==)>(key: seq<T>, resp: seq<T>): (s: nat)
    requires |key| <= |resp|
    ensures s <= |key|
  {
    MatchCount(key, resp, |key|)
  }

  function Sum(xs: seq<int>): int
  {
    if |xs| == 0 then 0 else Sum(xs[..|xs| - 1]) + xs[|xs| - 1]
  }

  /** The item's 0/1 column: `[resp[i] == key[i] for resp in responses]`. */
  function ItemIndicators<T(==)>(key: seq<T>, responses: seq<seq<T>>, i: nat): (x: seq<int>)
    requires i < |key| && HasColumn(responses, i)
    ensures |x| == |responses|
    ensures forall k :: 0 <= k < |x| ==> (x[k] == 0 || x[k] == 1) && (x[k] == 1 <==> responses[k][i] == key[i])
  {
    seq(|responses|, k requires 0 <= k < |responses| => Indicator(key, responses[k], i))
  }

  /** The examinees' total scores, in row order. */
  function Scores<T(==)>(key: seq<T>, responses: seq<seq<T>>): (s: seq<int>)
    requires Covers(key, responses)
    ensures |s| == |responses|
    ensures forall k :: 0 <= k < |s| ==> 0 <= s[k] <= |key|
  {
    seq(|responses|, k requires 0 <= k < |responses| => Score(key, responses[k]) as int)
  }

  /** A score is the sum of the examinee's 0/1 item indicators. */
  lemma {:induction false} ScoreIsSumOfIndicators<T>(key: seq<T>, resp: seq<T>, n: nat)
    requires n <= |key| && n <= |resp|
    ensures MatchCount(key, resp, n) == Sum(seq(n, j requires 0 <= j < n => Indicator(key, resp, j)))
  {
    if n > 0 {
      ScoreIsSumOfIndicators(key, resp, n - 1);
      var s := seq(n, j requires 0 <= j < n => Indicator(key, resp, j));
      assert s[..n - 1] == seq(n - 1, j requires 0 <= j < n - 1 => Indicator(key, resp, j));
    }
  }

  /** All entries equal: a vector with zero variance, including the empty
      vector and a vector of one entry. */
  predicate Constant(xs: seq<int>)
  {
    forall k :: 0 <= k < |xs| ==> xs[k] == xs[0]
  }

  /** `np.corrcoef(x, y)[0, 1]` with NaN replaced by 0: the correlation is
      NaN exactly when one of the vectors has zero variance. */
  function CorrelationOrZero(x: seq<int>, y: seq<int>, corr: Correlation): (r: real)
    ensures Constant(x) || Constant(y) ==> r == 0.0
    ensures !Constant(x) && !Constant(y) ==> r == corr(x, y)
  {
    if Constant(x) || Constant(y) then 0.0 else corr(x, y)
  }

  /** Discrimination of item `i`: the correlation between the item column
      and the total scores, 0 when undefined. */
  function Discrimination<T(==)>(key: seq<T>, responses: seq<seq<T>>, i: nat, corr: Correlation): (d: real)
    requires i < |key| && Covers(key, responses)
    ensures d == 0.0 || d == corr(ItemIndicators(key, responses, i), Scores(key, responses))
    ensures |responses| <= 1 ==> d == 0.0
    ensures !Constant(ItemIndicators(key, responses, i)) && !Constant(Scores(key, responses)) ==>
              d == corr(ItemIndicators(key, responses, i), Scores(key, responses))
    ensures Constant(ItemIndicators(key, responses, i)) || Constant(Scores(key, responses)) ==> d == 0.0
  {
    CorrelationOrZero(ItemIndicators(key, responses, i), Scores(key, responses), corr)
  }

  /** Discrimination is 0 whenever the correlation is undefined: with at most
      one examinee, when everyone answers the item alike (difficulty 0 or
      1), or when everyone has the same total score. */
  lemma DiscriminationUndefinedIsZero<T>(key: seq<T>, responses: seq<seq<T>>, i: nat, corr: Correlation)
    requires i < |key| && Covers(key, responses)
    requires || |responses| <= 1
             || (forall k :: 0 <= k < |responses| ==> responses[k][i] == key[i])
             || (forall k :: 0 <= k < |responses| ==> responses[k][i] != key[i])
             || (forall k :: 0 <= k < |responses| ==> Score(key, responses[k]) == Score(key, responses[0]))
    ensures Discrimination(key, responses, i, corr) == 0.0
  {
    var x := ItemIndicators(key, responses, i);
    assert forall k :: 0 <= k < |responses| ==> x[k] == Indicator(key, responses[k], i);
  }

  /** With a one-item key the item column is the score vector. */
  lemma SingleItemScoresAreIndicators<T>(key: seq<T>, responses: seq<seq<T>>)
    requires |key| == 1 && Covers(key, responses)
    ensures ItemIndicators(key, responses, 0) == Scores(key, responses)
  {
    var x, y := ItemIndicators(key, responses, 0), Scores(key, responses);
    forall k | 0 <= k < |responses| ensures x[k] == y[k] {
      assert MatchCount(key, responses[k], 1) == MatchCount(key, responses[k], 0) + Indicator(key, responses[k], 0);
    }
  }

  /** Discrimination stays in [-1, 1] when the correlation routine does. */
  lemma DiscriminationBounded<T>(key: seq<T>, responses: seq<seq<T>>, i: nat, corr: Correlation)
    requires i < |key| && Covers(key, responses)
    requires forall x, y :: -1.0 <= corr(x, y) <= 1.0
    ensures -1.0 <= Discrimination(key, responses, i, corr) <= 1.0
  {
  }

  /** The distinct answers given to item `i`. */
  function Options<T(==)>(responses: seq<seq<T>>, i: nat): (o: set<T>)
    requires HasColumn(responses, i)
    ensures forall k :: 0 <= k < |responses| ==> responses[k][i] in o
  {
    set k | 0 <= k < |responses| :: responses[k][i]
  }

  /** Every distinct answer was given by some row. */
  lemma OptionsAreAnswers<T>(responses: seq<seq<T>>, i: nat, a: T)
    requires HasColumn(responses, i) && a in Options(responses, i)
    ensures exists k :: 0 <= k < |responses| && responses[k][i] == a
  {
  }

  /** At least one answer is seen, and exactly one when every row agrees. */
  lemma OptionsCount<T>(responses: seq<seq<T>>, i: nat)
    requires HasColumn(responses, i) && |responses| > 0
    ensures |Options(responses, i)| >= 1
    ensures |Options(responses, i)| == 1 <==> forall k :: 0 <= k < |responses| ==> responses[k][i] == responses[0][i]
  {
    var options := Options(responses, i);
    var first := responses[0][i];
    assert first in options;
    if forall k :: 0 <= k < |responses| ==> responses[k][i] == first {
      assert options == {first};
    } else {
      var k :| 0 <= k < |responses| && responses[k][i] != first;
      var pair := {first, responses[k][i]};
      assert responses[k][i] in options;
      assert options == pair + (options - pair);
      assert |pair| == 2;
    }
  }

  /** Guessing of item `i`: one over the number of distinct answers seen.
      It is 1 exactly when every row gave the same answer, right or wrong. */
  function Guessing<T(==)>(responses: seq<seq<T>>, i: nat): (g: real)
    requires HasColumn(responses, i) && |responses| > 0
    ensures 0.0 < g <= 1.0
    ensures g == 1.0 <==> forall k :: 0 <= k < |responses| ==> responses[k][i] == responses[0][i]
    ensures g == Fraction(1, |Options(responses, i)|)
  {
    var options := Options(responses, i);
    OptionsCount(responses, i);
    1.0 / (|options| as real)
  }

  /** The metrics row of item `i` (0-based index, 1-based `item`). */
  function ItemParams<T(==)>(key: seq<T>, responses: seq<seq<T>>, i: nat, corr: Correlation): (p: ItemParameters)
    requires i < |key| && Covers(key, responses) && |responses| > 0
    ensures p.item == i + 1
    ensures p.difficulty == 1.0 <==> forall k :: 0 <= k < |responses| ==> responses[k][i] == key[i]
    ensures p.guessing == 1.0 <==> forall k :: 0 <= k < |responses| ==> responses[k][i] == responses[0][i]
    ensures p.difficulty == Fraction(CorrectCount(key, responses, i), |responses|)
    ensures p.discrimination == CorrelationOrZero(ItemIndicators(key, responses, i), Scores(key, responses), corr)
    ensures p.guessing == Fraction(1, |Options(responses, i)|)
  {
    var difficulty := Difficulty(key, responses, i);
    var discrimination := Discrimination(key, responses, i, corr);
    var guessing := Guessing(responses, i);
    ItemParameters(i + 1, difficulty, discrimination, guessing)
  }

  /** Difficulty lies in [0, 1] and guessing in (0, 1]. */
  lemma ItemParamsInRange<T>(key: seq<T>, responses: seq<seq<T>>, i: nat, corr: Correlation)
    requires i < |key| && Covers(key, responses) && |responses| > 0
    ensures var p := ItemParams(key, responses, i, corr);
            p.item == i + 1 && 0.0 <= p.difficulty <= 1.0 && 0.0 < p.guessing <= 1.0
  {
  }

  /** The exception calculate_difficulty and calculate_guessing raise, if
      any: IndexError when some row is shorter than the key, otherwise
      ZeroDivisionError when there are items but no rows. */
  function EstimationFailure<T>(key: seq<T>, responses: seq<seq<T>>): (r: Option<IrtError>)
    ensures r.None? <==> Covers(key, responses) && (|key| == 0 || |responses| > 0)
    ensures r == Some(DivisionByZero) ==> |key| > 0 && |responses| == 0
  {
    if !Covers(key, responses) then Some(IndexOutOfRange)
    else if |key| > 0 && |responses| == 0 then Some(DivisionByZero)
    else None
  }

  /** `sigmoid(x, a, b, c)`, the item characteristic curve, with `exp`
      supplied by the caller. With a guessing floor in [0, 1] the curve
      stays between the floor and 1, and a floor of 1 makes it flat. */
  function Sigmoid(x: real, a: real, b: real, c: real, exp: real -> real): (s: real)
    requires exp(-a * (x - b)) >= 0.0
    ensures 0.0 <= c <= 1.0 ==> c <= s <= 1.0
    ensures c == 1.0 ==> s == 1.0
  {
    var e := exp(-a * (x - b));
    assert 0.0 <= c <= 1.0 ==> 0.0 <= (1.0 - c) / (1.0 + e) <= 1.0 - c;
    c + (1.0 - c) / (1.0 + e)
  }

  /** At ability equal to the difficulty the curve is halfway between the
      guessing floor and 1; with no guessing it is 0.5. */
  lemma SigmoidAtDifficulty(a: real, b: real, c: real, exp: real -> real)
    requires exp(0.0) == 1.0
    ensures Sigmoid(b, a, b, c, exp) == c + (1.0 - c) / 2.0
    ensures Sigmoid(b, a, b, 0.0, exp) == 0.5
  {
  }

  /** calculate_difficulty: one difficulty per key item, in key order. */
  method CalculateDifficulty<T(==)>(key: seq<T>, responses: seq<seq<T>>) returns (r: Result<seq<real>, IrtError>)
    ensures r.Err? <==> EstimationFailure(key, responses).Some?
    ensures r.Err? ==> r.error == EstimationFailure(key, responses).value
    ensures r.Ok? ==> |r.value| == |key|
    ensures r.Ok? ==> forall i :: 0 <= i < |key| ==> r.value[i] == Difficulty(key, responses, i)
  {
    var difficulties := [];
    for i := 0 to |key|
      invariant |difficulties| == i
      invariant forall k :: 0 <= k < |responses| ==> i <= |responses[k]|
      invariant i > 0 ==> |responses| > 0
      invariant forall j :: 0 <= j < i ==> difficulties[j] == Difficulty(key, responses, j)
    {
      if exists k :: 0 <= k < |responses| && |responses[k]| <= i {
        return Err(IndexOutOfRange);
      }
      var correctCount := CorrectCount(key, responses, i);
      if |responses| == 0 {
        return Err(DivisionByZero);
      }
      difficulties := difficulties + [correctCount as real / |responses| as real];
    }
    return Ok(difficulties);
  }

  /** calculate_discrimination: the total scores first, then one
      correlation per key item. */
  method CalculateDiscrimination<T(==)>(responses: seq<seq<T>>, key: seq<T>, corr: Correlation)
    returns (r: Result<seq<real>, IrtError>)
    ensures r.Err? <==> !Covers(key, responses)
    ensures r.Err? ==> r.error == IndexOutOfRange
    ensures r.Ok? ==> |r.value| == |key|
    ensures r.Ok? ==> forall i :: 0 <= i < |key| ==> r.value[i] == Discrimination(key, responses, i, corr)
  {
    if exists k :: 0 <= k < |responses| && |responses[k]| < |key| {
      return Err(IndexOutOfRange);
    }
    var totalScores := Scores(key, responses);
    var discriminations := [];
    for i := 0 to |key|
      invariant |discriminations| == i
      invariant forall j :: 0 <= j < i ==> discriminations[j] == Discrimination(key, responses, j, corr)
    {
      var itemScores := ItemIndicators(key, responses, i);
      discriminations := discriminations + [CorrelationOrZero(itemScores, totalScores, corr)];
    }
    return Ok(discriminations);
  }

  /** calculate_guessing: one guessing parameter per key item. */
  method CalculateGuessing<T(==)>(key: seq<T>, responses: seq<seq<T>>) returns (r: Result<seq<real>, IrtError>)
    ensures r.Err? <==> EstimationFailure(key, responses).Some?
    ensures r.Err? ==> r.error == EstimationFailure(key, responses).value
    ensures r.Ok? ==> |r.value| == |key|
    ensures r.Ok? ==> forall i :: 0 <= i < |key| ==> r.value[i] == Guessing(responses, i)
  {
    var guessingParams := [];
    for i := 0 to |key|
      invariant |guessingParams| == i
      invariant forall k :: 0 <= k < |responses| ==> i <= |responses[k]|
      invariant i > 0 ==> |responses| > 0
      invariant forall j :: 0 <= j < i ==> guessingParams[j] == Guessing(responses, j)
    {
      if exists k :: 0 <= k < |responses| && |responses[k]| <= i {
        return Err(IndexOutOfRange);
      }
      var uniqueOptions := Options(responses, i);
      if |responses| > 0 {
        OptionsCount(responses, i);
      }
      if |uniqueOptions| == 0 {
        return Err(DivisionByZero);
      }
      guessingParams := guessingParams + [1.0 / |uniqueOptions| as real];
    }
    return Ok(guessingParams);
  }

  /** calculate_irt_metrics: exactly one row per key item, `Item` running
      1..n in key order, each row's three parameters describing that item. */
  method CalculateIrtMetrics<T(==)>(key: seq<T>, responses: seq<seq<T>>, corr: Correlation)
    returns (r: Result<seq<ItemParameters>, IrtError>)
    ensures r.Err? <==> EstimationFailure(key, responses).Some?
    ensures r.Err? ==> r.error == EstimationFailure(key, responses).value
    ensures r.Ok? ==> |r.value| == |key|
    ensures r.Ok? ==> forall i :: 0 <= i < |key| ==> r.value[i].item == i + 1
    ensures r.Ok? ==> |key| > 0 ==> |responses| > 0
    ensures r.Ok? ==> forall i :: 0 <= i < |key| ==> r.value[i] == ItemParams(key, responses, i, corr)
  {
    var difficulty := CalculateDifficulty(key, responses);
    if difficulty.Err? {
      return Err(difficulty.error);
    }
    var discrimination := CalculateDiscrimination(responses, key, corr);
    var guessing := CalculateGuessing(key, responses);
    assert discrimination.Ok? && guessing.Ok?;
    r := Ok(seq(|key|, i requires 0 <= i < |key| =>
      ItemParameters(i + 1, difficulty.value[i], discrimination.value[i], guessing.value[i])));
  }
}
