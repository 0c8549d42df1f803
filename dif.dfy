/** Differential item functioning (create_dif_report in src/dif.py): split
    the examinees by a two-valued group column, estimate the IRT proxies on
    each half against the same key, and compare the estimates item by item. */
module Dif {
  import opened Wrappers
  import Sequences
  import Irt

  /** A group-column value after the left merge: a label, or NaN for a
      student without a row in the student-info table. */
  datatype Label<G> = Known(value: G) | Missing

  /** pandas `==` on the group column: NaN equals nothing, not even NaN. */
  predicate InGroup<G(==)>(l: Label<G>, group: Label<G>)
    ensures l.Missing? || group.Missing? ==> !InGroup(l, group)
    ensures l.Known? ==> (InGroup(l, group) <==> l == group)
  {
    l.Known? && l == group
  }

  /** The ValueErrors of the group checks, and an exception raised by the
      estimators. */
  datatype DifError = MissingGroupColumn | InvalidGroupCount(count: nat) | Estimation(cause: Irt.IrtError)

  /** One result row; `item` is the 0-based item index. */
  datatype DifRow = DifRow(
    item: nat,
    difficulty1: real, difficulty2: real,
    discrimination1: real, discrimination2: real,
    guessing1: real, guessing2: real,
    difficultyDiff: real, discriminationDiff: real, guessingDiff: real,
    chi2: real, pValue: real, detected: bool)

  /** The two labels in order of first appearance, each group's metrics,
      and the per-item comparison. */
  datatype DifReport<G> = DifReport(
    group1: Label<G>, group2: Label<G>,
    metrics1: seq<Irt.ItemParameters>, metrics2: seq<Irt.ItemParameters>,
    rows: seq<DifRow>)

  /** `chi2.sf(x, 3)`, the survival function of the chi-square distribution
      with 3 degrees of freedom: a foreign routine, so a parameter. */
  type SurvivalFunction = real -> real

  const SIGNIFICANCE: real := 0.05

  /** The positions whose label is `group`, in increasing order: the boolean
      mask `student_data[group_column] == group`. */
  function GroupPositions<G(==)>(labels: seq<Label<G>>, group: Label<G>): (idx: seq<nat>)
    ensures forall j :: 0 <= j < |idx| ==> idx[j] < |labels| && InGroup(labels[idx[j]], group)
    ensures forall j, j' :: 0 <= j < j' < |idx| ==> idx[j] < idx[j']
    ensures forall k :: 0 <= k < |labels| && InGroup(labels[k], group) ==> k in idx
  {
    if |labels| == 0 then []
    else
      var init := labels[..|labels| - 1];
      var prev := GroupPositions(init, group);
      assert forall k :: 0 <= k < |init| ==> init[k] == labels[k];
      prev + (if InGroup(labels[|labels| - 1], group) then [|labels| - 1] else [])
  }

  /** `student_data[student_data[group_column] == group]`: the rows whose
      label is `group`, in row order. */
  function Partition<T, G(==)>(responses: seq<seq<T>>, labels: seq<Label<G>>, group: Label<G>): (p: seq<seq<T>>)
    requires |labels| == |responses|
    ensures |p| <= |responses|
    ensures forall j :: 0 <= j < |p| ==> p[j] in responses
    ensures |p| == |GroupPositions(labels, group)|
    ensures forall j :: 0 <= j < |p| ==> p[j] == responses[GroupPositions(labels, group)[j]]
  {
    if |responses| == 0 then []
    else
      var n := |responses|;
      var prev := Partition(responses[..n - 1], labels[..n - 1], group);
      var p := prev + (if InGroup(labels[n - 1], group) then [responses[n - 1]] else []);
      PartitionStep(responses, labels, group, prev, p);
      p
  }

  /** A partition of rows as long as the key is made of such rows. */
  lemma PartitionCovers<T, G>(key: seq<T>, responses: seq<seq<T>>, labels: seq<Label<G>>, group: Label<G>)
    requires |labels| == |responses|
    requires forall k :: 0 <= k < |responses| ==> |responses[k]| == |key|
    ensures Irt.Covers(key, Partition(responses, labels, group))
  {
  }

  /** One step of Partition: extending the rows of the prefix by the last
      row, when it is in the group, follows the positions. */
  lemma PartitionStep<T, G>(responses: seq<seq<T>>, labels: seq<Label<G>>, group: Label<G>, prev: seq<seq<T>>, p: seq<seq<T>>)
    requires |labels| == |responses| > 0
    requires var n := |responses|;
             var idx := GroupPositions(labels[..n - 1], group);
             |prev| == |idx| && forall j :: 0 <= j < |prev| ==> prev[j] == responses[..n - 1][idx[j]]
    requires p == prev + (if InGroup(labels[|labels| - 1], group) then [responses[|responses| - 1]] else [])
    ensures |p| == |GroupPositions(labels, group)|
    ensures forall j :: 0 <= j < |p| ==> p[j] == responses[GroupPositions(labels, group)[j]]
  {
    var n := |responses|;
    var idx := GroupPositions(labels, group);
    var before := GroupPositions(labels[..n - 1], group);
    assert idx == before + (if InGroup(labels[n - 1], group) then [n - 1] else []);
    forall j | 0 <= j < |p|
      ensures p[j] == responses[idx[j]]
    {
      if j < |prev| {
        assert p[j] == responses[..n - 1][before[j]];
      }
    }
  }

  /** When every label is one of two different groups, each row goes to
      exactly one partition unless its label is NaN, which goes to none. */
  lemma {:induction false} PartitionSizes<T, G>(responses: seq<seq<T>>, labels: seq<Label<G>>, g1: Label<G>, g2: Label<G>)
    requires |labels| == |responses| && g1 != g2
    requires forall k :: 0 <= k < |labels| ==> labels[k] == g1 || labels[k] == g2
    ensures forall k :: 0 <= k < |labels| && labels[k].Known? ==>
              (k in GroupPositions(labels, g1)) != (k in GroupPositions(labels, g2))
    ensures forall k :: 0 <= k < |labels| && labels[k].Missing? ==>
              k !in GroupPositions(labels, g1) && k !in GroupPositions(labels, g2)
    ensures |Partition(responses, labels, g1)| + |Partition(responses, labels, g2)|
            + Sequences.Count(labels, Missing) == |responses|
  {
    PositionsAreGroup(labels, g1);
    PositionsAreGroup(labels, g2);
    PartitionCounts(responses, labels, g1, g2);
  }

  /** A position is listed exactly when its label is the group. */
  lemma PositionsAreGroup<G>(labels: seq<Label<G>>, group: Label<G>)
    ensures forall k :: k in GroupPositions(labels, group) <==> 0 <= k < |labels| && InGroup(labels[k], group)
  {
    var idx := GroupPositions(labels, group);
    forall k | k in idx
      ensures 0 <= k < |labels| && InGroup(labels[k], group)
    {
      var j :| 0 <= j < |idx| && idx[j] == k;
    }
  }

  lemma {:induction false} PartitionCounts<T, G>(responses: seq<seq<T>>, labels: seq<Label<G>>, g1: Label<G>, g2: Label<G>)
    requires |labels| == |responses| && g1 != g2
    requires forall k :: 0 <= k < |labels| ==> labels[k] == g1 || labels[k] == g2
    ensures |Partition(responses, labels, g1)| + |Partition(responses, labels, g2)|
            + Sequences.Count(labels, Missing) == |responses|
  {
    if |responses| > 0 {
      var n := |responses|;
      PartitionCounts(responses[..n - 1], labels[..n - 1], g1, g2);
      Sequences.CountLast(labels, Missing);
    }
  }

  /** A known label that occurs in the column gets a non-empty partition. */
  lemma PartitionNonEmpty<T, G>(responses: seq<seq<T>>, labels: seq<Label<G>>, group: Label<G>)
    requires |labels| == |responses| && group.Known? && group in labels
    ensures |Partition(responses, labels, group)| > 0
  {
    var k :| 0 <= k < |labels| && labels[k] == group;
    assert k in GroupPositions(labels, group);
  }

  /** The comparison of one item's estimates: group-1 minus group-2
      differences, their sum of squares, its p-value and the flag. */
  function Compare(item: nat, p1: Irt.ItemParameters, p2: Irt.ItemParameters, sf: SurvivalFunction): (row: DifRow)
    ensures row.item == item
    ensures row.chi2 >= 0.0
    ensures row.chi2 == 0.0 <==> row.difficultyDiff == 0.0 && row.discriminationDiff == 0.0 && row.guessingDiff == 0.0
    ensures row.detected <==> row.pValue < SIGNIFICANCE
    ensures row.difficulty1 == p1.difficulty && row.difficulty2 == p2.difficulty
    ensures row.discrimination1 == p1.discrimination && row.discrimination2 == p2.discrimination
    ensures row.guessing1 == p1.guessing && row.guessing2 == p2.guessing
    ensures row.difficultyDiff == p1.difficulty - p2.difficulty
    ensures row.discriminationDiff == p1.discrimination - p2.discrimination
    ensures row.guessingDiff == p1.guessing - p2.guessing
    ensures row.chi2 == Chi2(row.difficultyDiff, row.discriminationDiff, row.guessingDiff)
    ensures row.pValue == sf(row.chi2)
  {
    var difficultyDiff := p1.difficulty - p2.difficulty;
    var discriminationDiff := p1.discrimination - p2.discrimination;
    var guessingDiff := p1.guessing - p2.guessing;
    var chi2 := Chi2(difficultyDiff, discriminationDiff, guessingDiff);
    DifRow(item, p1.difficulty, p2.difficulty, p1.discrimination, p2.discrimination,
           p1.guessing, p2.guessing, difficultyDiff, discriminationDiff, guessingDiff,
           chi2, sf(chi2), sf(chi2) < SIGNIFICANCE)
  }

  /** The product of two non-negative reals. */
  function Times(a: real, b: real): (p: real)
    requires a >= 0.0 && b >= 0.0
    ensures p >= 0.0
    ensures a > 0.0 && b > 0.0 ==> p > 0.0
  {
    a * b
  }

  /** `x ** 2`, computed as |x| times |x| so that its sign is evident. */
  function Square(x: real): (s: real)
    ensures s >= 0.0
    ensures x != 0.0 ==> s > 0.0
    ensures x == 0.0 ==> s == 0.0
  {
    if x >= 0.0 then Times(x, x) else Times(-x, -x)
  }

  lemma SquareIsProduct(x: real)
    ensures Square(x) == x * x
  {
    if x < 0.0 {
      assert (-x) * (-x) == x * x;
    }
  }

  /** The statistic: the sum of the squared differences. It is zero exactly
      when the two groups' estimates agree. */
  function Chi2(difficultyDiff: real, discriminationDiff: real, guessingDiff: real): (s: real)
    ensures s >= 0.0
    ensures s == 0.0 <==> difficultyDiff == 0.0 && discriminationDiff == 0.0 && guessingDiff == 0.0
  {
    Square(difficultyDiff) + Square(discriminationDiff) + Square(guessingDiff)
  }

  /** Swapping the groups negates every difference and keeps the statistic,
      the p-value and the flag. */
  lemma CompareSwapped(item: nat, p1: Irt.ItemParameters, p2: Irt.ItemParameters, sf: SurvivalFunction)
    ensures var row, swapped := Compare(item, p1, p2, sf), Compare(item, p2, p1, sf);
            && swapped.difficultyDiff == -row.difficultyDiff
            && swapped.discriminationDiff == -row.discriminationDiff
            && swapped.guessingDiff == -row.guessingDiff
            && swapped.chi2 == row.chi2
            && swapped.pValue == row.pValue
            && swapped.detected == row.detected
  {
  }

  /** Identical estimates give no difference, a zero statistic, and no DIF
      when the p-value of 0 is 1. */
  lemma CompareIdentical(item: nat, p: Irt.ItemParameters, sf: SurvivalFunction)
    ensures var row := Compare(item, p, p, sf);
            && row.difficultyDiff == 0.0 && row.discriminationDiff == 0.0 && row.guessingDiff == 0.0
            && row.chi2 == 0.0 && row.pValue == sf(0.0)
            && (sf(0.0) == 1.0 ==> !row.detected)
  {
  }

  /** The result rows for two metrics tables: one per item, in item order. */
  function DifRows(m1: seq<Irt.ItemParameters>, m2: seq<Irt.ItemParameters>, sf: SurvivalFunction): (rows: seq<DifRow>)
    requires |m1| == |m2|
    ensures |rows| == |m1|
    ensures forall k :: 0 <= k < |rows| ==>
              rows[k].item == k && rows[k].chi2 >= 0.0 && (rows[k].detected <==> rows[k].pValue < SIGNIFICANCE)
    ensures forall k :: 0 <= k < |rows| ==> rows[k] == Compare(k, m1[k], m2[k], sf)
  {
    seq(|m1|, k requires 0 <= k < |m1| => Compare(k, m1[k], m2[k], sf))
  }

  /** Swapping the two groups' tables negates every difference of every row
      and keeps every statistic, p-value and flag. */
  lemma DifRowsSwapped(m1: seq<Irt.ItemParameters>, m2: seq<Irt.ItemParameters>, sf: SurvivalFunction)
    requires |m1| == |m2|
    ensures forall k :: 0 <= k < |m1| ==>
      var row, swapped := DifRows(m1, m2, sf)[k], DifRows(m2, m1, sf)[k];
      && swapped.difficultyDiff == -row.difficultyDiff
      && swapped.discriminationDiff == -row.discriminationDiff
      && swapped.guessingDiff == -row.guessingDiff
      && swapped.chi2 == row.chi2 && swapped.detected == row.detected
  {
    forall k | 0 <= k < |m1| {
      CompareSwapped(k, m1[k], m2[k], sf);
    }
  }

  /** Two groups with identical estimates (as two groups with identical
      responses have) show no DIF on any item when the p-value of 0 is 1. */
  lemma IdenticalGroupsShowNoDif(m: seq<Irt.ItemParameters>, sf: SurvivalFunction)
    requires sf(0.0) == 1.0
    ensures forall k :: 0 <= k < |m| ==>
              DifRows(m, m, sf)[k].chi2 == 0.0 && DifRows(m, m, sf)[k].pValue == 1.0
              && !DifRows(m, m, sf)[k].detected
  {
    forall k | 0 <= k < |m| {
      CompareIdentical(k, m[k], sf);
    }
  }

  /** What create_dif_report gives once the group column has two distinct
      labels: the groups in order of first appearance; ZeroDivisionError
      exactly when the key is non-empty and a partition is empty; otherwise
      both partitions estimated against the same key, and the item rows
      comparing the two tables. */
  predicate Outcome<T(==), G(==)>(
    key: seq<T>, responses: seq<seq<T>>, labels: seq<Label<G>>,
    corr: Irt.Correlation, sf: SurvivalFunction, r: Result<DifReport<G>, DifError>)
    requires forall k :: 0 <= k < |responses| ==> |responses[k]| == |key|
    requires |labels| == |responses| && |Sequences.Unique(labels)| == 2
  {
    var groups := Sequences.Unique(labels);
    var p1 := Partition(responses, labels, groups[0]);
    var p2 := Partition(responses, labels, groups[1]);
    PartitionCovers(key, responses, labels, groups[0]);
    PartitionCovers(key, responses, labels, groups[1]);
    && (r.Err? <==> |key| > 0 && (|p1| == 0 || |p2| == 0))
    && (r.Err? ==> r.error == Estimation(Irt.DivisionByZero))
    && (r.Ok? ==>
          && r.value.group1 == groups[0] && r.value.group2 == groups[1]
          && |r.value.metrics1| == |key| && |r.value.metrics2| == |key|
          && (forall k :: 0 <= k < |key| ==>
                r.value.metrics1[k] == Irt.ItemParams(key, p1, k, corr)
                && r.value.metrics2[k] == Irt.ItemParams(key, p2, k, corr))
          && r.value.rows == DifRows(r.value.metrics1, r.value.metrics2, sf))
  }

  /** create_dif_report from the group check on: fails without the group
      column or without exactly two distinct labels; otherwise estimates each
      partition against the same key and compares item by item. */
  method CreateDifReport<T(==), G(==)>(
    key: seq<T>, responses: seq<seq<T>>, groupColumn: Option<seq<Label<G>>>,
    corr: Irt.Correlation, sf: SurvivalFunction)
    returns (r: Result<DifReport<G>, DifError>)
    requires forall k :: 0 <= k < |responses| ==> |responses[k]| == |key|
    requires groupColumn.Some? ==> |groupColumn.value| == |responses|
    ensures groupColumn.None? ==> r == Err(MissingGroupColumn)
    ensures groupColumn.Some? && |Sequences.Unique(groupColumn.value)| != 2 ==>
              r == Err(InvalidGroupCount(|Sequences.Unique(groupColumn.value)|))
    ensures groupColumn.Some? && |Sequences.Unique(groupColumn.value)| == 2 ==>
              Outcome(key, responses, groupColumn.value, corr, sf, r)
  {
    if groupColumn.None? {
      return Err(MissingGroupColumn);
    }
    var labels := groupColumn.value;
    var groups := Sequences.Unique(labels);
    if |groups| != 2 {
      return Err(InvalidGroupCount(|groups|));
    }
    var group1, group2 := groups[0], groups[1];
    var group1Data := Partition(responses, labels, group1);
    var group2Data := Partition(responses, labels, group2);
    PartitionCovers(key, responses, labels, group1);
    PartitionCovers(key, responses, labels, group2);

    var metrics1 := Irt.CalculateIrtMetrics(key, group1Data, corr);
    if metrics1.Err? {
      return Err(Estimation(metrics1.error));
    }
    var metrics2 := Irt.CalculateIrtMetrics(key, group2Data, corr);
    if metrics2.Err? {
      return Err(Estimation(metrics2.error));
    }
    var m1, m2 := metrics1.value, metrics2.value;

    var difResults := CompareItems(m1, m2, sf);
    return Ok(DifReport(group1, group2, m1, m2, difResults));
  }

  /** The loop over the items of create_dif_report: one comparison row per
      item, in item order. */
  method CompareItems(m1: seq<Irt.ItemParameters>, m2: seq<Irt.ItemParameters>, sf: SurvivalFunction)
    returns (rows: seq<DifRow>)
    requires |m1| == |m2|
    ensures rows == DifRows(m1, m2, sf)
  {
    rows := [];
    for item := 0 to |m1|
      invariant |rows| == item
      invariant forall k :: 0 <= k < item ==> rows[k] == Compare(k, m1[k], m2[k], sf)
    {
      var difficultyDiff := m1[item].difficulty - m2[item].difficulty;
      var discriminationDiff := m1[item].discrimination - m2[item].discrimination;
      var guessingDiff := m1[item].guessing - m2[item].guessing;
      var chi2Val := Square(difficultyDiff) + Square(discriminationDiff) + Square(guessingDiff);
      var pValue := sf(chi2Val);
      rows := rows + [DifRow(item,
        m1[item].difficulty, m2[item].difficulty,
        m1[item].discrimination, m2[item].discrimination,
        m1[item].guessing, m2[item].guessing,
        difficultyDiff, discriminationDiff, guessingDiff,
        chi2Val, pValue, pValue < SIGNIFICANCE)];
    }
  }

  /** The estimation can only fail, with ZeroDivisionError, when the key is
      non-empty and one of the two labels is NaN: a known label always has
      its own row. */
  lemma EstimationFailsOnlyForMissingLabel<T, G>(responses: seq<seq<T>>, labels: seq<Label<G>>)
    requires |labels| == |responses| && |Sequences.Unique(labels)| == 2
    ensures var groups := Sequences.Unique(labels);
            (|Partition(responses, labels, groups[0])| == 0 || |Partition(responses, labels, groups[1])| == 0)
            <==> Missing in groups
  {
    var groups := Sequences.Unique(labels);
    var g0, g1 := groups[0], groups[1];
    assert g0 in labels && g1 in labels;
    PartitionEmptyIff(responses, labels, g0);
    PartitionEmptyIff(responses, labels, g1);
    assert groups == [g0, g1];
  }

  /** A label of the column has an empty partition exactly when it is NaN. */
  lemma PartitionEmptyIff<T, G>(responses: seq<seq<T>>, labels: seq<Label<G>>, group: Label<G>)
    requires |labels| == |responses| && group in labels
    ensures |Partition(responses, labels, group)| == 0 <==> group == Missing
  {
    if group.Known? {
      PartitionNonEmpty(responses, labels, group);
    } else {
      PartitionOfMissing(responses, labels);
    }
  }

  /** NaN never equals the group value, so the NaN partition is empty. */
  lemma PartitionOfMissing<T, G>(responses: seq<seq<T>>, labels: seq<Label<G>>)
    requires |labels| == |responses|
    ensures |Partition(responses, labels, Missing)| == 0
  {
  }
}
