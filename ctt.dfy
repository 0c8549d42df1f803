/** Classical test theory views (src/ctt.py): the per-question answer
    distribution of create_ctt_report, with the keyed answer highlighted,
    and the single-item histogram of plot_item_histogram_with_answer. */
module Ctt {
  import opened Wrappers
  import Sequences

  /** A cell of the answer sheet: an answer, or NaN for a blank. */
  type Cell = Option<string>

  /** `df.iloc` outside the frame. */
  datatype CttError = IndexError

  // ---------------------------------------------------------------------
  // Python's ordering of strings, used by `sorted`

  /** `a < b` on Python strings: code point by code point, with a proper
      prefix ordered first. */
  predicate Less(a: string, b: string)
  {
    |b| > 0 && (|a| == 0 || a[0] < b[0] || (a[0] == b[0] && Less(a[1..], b[1..])))
  }

  lemma {:induction false} LessIrreflexive(a: string)
    ensures !Less(a, a)
  {
    if |a| > 0 {
      LessIrreflexive(a[1..]);
    }
  }

  lemma {:induction false} LessTransitive(a: string, b: string, c: string)
    requires Less(a, b) && Less(b, c)
    ensures Less(a, c)
  {
    if |a| > 0 && a[0] == b[0] && b[0] == c[0] {
      LessTransitive(a[1..], b[1..], c[1..]);
    }
  }

  lemma {:induction false} LessTotal(a: string, b: string)
    requires a != b
    ensures Less(a, b) || Less(b, a)
  {
    if |a| > 0 && |b| > 0 && a[0] == b[0] {
      assert a == [a[0]] + a[1..] && b == [b[0]] + b[1..];
      LessTotal(a[1..], b[1..]);
    }
  }

  /** Ascending without repetitions. */
  predicate StrictlySorted(s: seq<string>)
  {
    forall i, j :: 0 <= i < j < |s| ==> Less(s[i], s[j])
  }

  /** Putting in front of a sorted list an element below all of its
      elements keeps it sorted. */
  lemma SortedCons(x: string, t: seq<string>)
    requires StrictlySorted(t)
    requires forall y :: y in t ==> Less(x, y)
    ensures StrictlySorted([x] + t)
  {
    var r := [x] + t;
    forall i, j | 0 <= i < j < |r|
      ensures Less(r[i], r[j])
    {
      if i == 0 {
        assert r[j] == t[j - 1];
      } else {
        assert r[i] == t[i - 1] && r[j] == t[j - 1];
      }
    }
  }

  /** Everything in a sorted list is above anything below its head. */
  lemma BelowHead(x: string, s: seq<string>)
    requires StrictlySorted(s) && |s| > 0 && Less(x, s[0])
    ensures forall y :: y in s ==> Less(x, y)
  {
    forall y | y in s
      ensures Less(x, y)
    {
      var j :| 0 <= j < |s| && s[j] == y;
      if j > 0 {
        LessTransitive(x, s[0], y);
      }
    }
  }

  /** Inserts `x` into a sorted list unless it is already there. */
  function Insert(x: string, s: seq<string>): (r: seq<string>)
    requires StrictlySorted(s)
    ensures StrictlySorted(r)
    ensures forall y :: y in r <==> y == x || y in s
  {
    if |s| == 0 then [x]
    else if x == s[0] then s
    else if Less(x, s[0]) then
      BelowHead(x, s);
      SortedCons(x, s);
      [x] + s
    else
      LessTotal(x, s[0]);
      var rest := Insert(x, s[1..]);
      HeadBelowInsert(x, s);
      SortedCons(s[0], rest);
      [s[0]] + rest
  }

  lemma HeadBelowInsert(x: string, s: seq<string>)
    requires StrictlySorted(s) && |s| > 0 && Less(s[0], x)
    ensures forall y :: y == x || y in s[1..] ==> Less(s[0], y)
  {
    forall y | y in s[1..]
      ensures Less(s[0], y)
    {
      var j :| 0 <= j < |s| - 1 && s[1..][j] == y;
      assert s[j + 1] == y;
    }
  }

  /** `sorted(set(xs))`: the distinct elements of `xs` in ascending order. */
  function SortedDistinct(xs: seq<string>): (r: seq<string>)
    ensures StrictlySorted(r)
    ensures forall y :: y in r <==> y in xs
  {
    if |xs| == 0 then []
    else
      assert xs == xs[..|xs| - 1] + [xs[|xs| - 1]];
      Insert(xs[|xs| - 1], SortedDistinct(xs[..|xs| - 1]))
  }

  /** A set has only one ascending listing, so SortedDistinct is `sorted`
      applied to the distinct values whatever order they came in. */
  lemma {:induction false} SortedListingIsUnique(r: seq<string>, t: seq<string>)
    requires StrictlySorted(r) && StrictlySorted(t)
    requires forall y :: y in r <==> y in t
    ensures r == t
  {
    if |r| > 0 {
      assert r[0] in r;
    }
    if |t| > 0 {
      assert t[0] in t;
    }
    if |r| > 0 && |t| > 0 {
      if r[0] != t[0] {
        var i :| 0 <= i < |r| && r[i] == t[0];
        var j :| 0 <= j < |t| && t[j] == r[0];
        LessTransitive(r[0], t[0], r[0]);
        LessIrreflexive(r[0]);
        assert false;
      }
      forall y
        ensures y in r[1..] <==> y in t[1..]
      {
        TailMembers(r, y);
        TailMembers(t, y);
      }
      SortedListingIsUnique(r[1..], t[1..]);
    }
  }

  /** The tail of a sorted list holds everything in it but its head. */
  lemma TailMembers(r: seq<string>, y: string)
    requires StrictlySorted(r) && |r| > 0
    ensures y in r[1..] <==> y in r && y != r[0]
  {
    if y in r[1..] {
      var j :| 0 <= j < |r| - 1 && r[1..][j] == y;
      assert r[j + 1] == y;
      LessIrreflexive(y);
    }
    if y in r && y != r[0] {
      var j :| 0 <= j < |r| && r[j] == y;
      assert r[1..][j - 1] == y;
    }
  }

  // ---------------------------------------------------------------------
  // The frame

  /** The answers of a row, blanks left out, in column order. */
  function Answered(row: seq<Cell>): (r: seq<string>)
    ensures forall v :: v in r <==> Some(v) in row
    ensures forall v :: Sequences.Count(r, v) == Sequences.Count(row, Some(v))
    ensures |r| == |row| - Sequences.Count(row, None)
  {
    if |row| == 0 then []
    else
      assert row == [row[0]] + row[1..];
      var rest := Answered(row[1..]);
      if row[0].Some? then
        assert ([row[0].value] + rest)[1..] == rest;
        [row[0].value] + rest
      else rest
  }

  /** `df.stack()`: the answers of all rows, blanks left out, row by row. */
  function Stack(rows: seq<seq<Cell>>): (r: seq<string>)
    ensures forall v :: v in r <==> exists k :: 0 <= k < |rows| && Some(v) in rows[k]
  {
    if |rows| == 0 then []
    else
      var rest := Stack(rows[1..]);
      assert forall v :: (exists k :: 0 <= k < |rows| - 1 && Some(v) in rows[1..][k])
                         ==> exists k :: 0 <= k < |rows| && Some(v) in rows[k];
      Answered(rows[0]) + rest
  }

  /** `sorted(df.iloc[1:].stack().unique())`: every answer a student gave. */
  function AllOptions(students: seq<seq<Cell>>): (options: seq<string>)
    ensures StrictlySorted(options)
    ensures forall v :: v in options <==> exists k :: 0 <= k < |students| && Some(v) in students[k]
  {
    SortedDistinct(Stack(students))
  }

  predicate HasColumn(rows: seq<seq<Cell>>, col: nat)
  {
    forall k :: 0 <= k < |rows| ==> col < |rows[k]|
  }

  /** `df[col]`: one cell per row. */
  function Column(rows: seq<seq<Cell>>, col: nat): (c: seq<Cell>)
    requires HasColumn(rows, col)
    ensures |c| == |rows|
    ensures forall k :: 0 <= k < |rows| ==> c[k] == rows[k][col]
  {
    seq(|rows|, k requires 0 <= k < |rows| => rows[k][col])
  }

  // ---------------------------------------------------------------------
  // create_ctt_report

  /** One question's chart: a bar per option, and the position of the keyed
      answer among the options when it is one of them. */
  datatype ItemChart = ItemChart(counts: seq<nat>, highlighted: Option<nat>)

  /** The options on every chart's axis and one chart per question. */
  datatype CttReport = CttReport(options: seq<string>, charts: seq<ItemChart>)

  /** `df[col].value_counts().reindex(all_options, fill_value=0)` and the
      highlight test: counts run over the whole column, key row included. */
  function Chart(rows: seq<seq<Cell>>, col: nat, options: seq<string>): (c: ItemChart)
    requires |rows| > 0 && HasColumn(rows, col)
    ensures |c.counts| == |options|
    ensures forall j :: 0 <= j < |options| ==> (c.counts[j] == 0 <==> Some(options[j]) !in Column(rows, col))
    ensures c.highlighted.Some? <==> rows[0][col].Some? && rows[0][col].value in options
    ensures c.highlighted.Some? ==>
              c.highlighted.value < |options| && options[c.highlighted.value] == rows[0][col].value
              && c.counts[c.highlighted.value] >= 1
  {
    var column := Column(rows, col);
    var counts := seq(|options|, j requires 0 <= j < |options| => Sequences.Count(column, Some(options[j])));
    var key := rows[0][col];
    assert key == column[0];
    ItemChart(counts, if key.Some? && key.value in options then Some(Sequences.FirstIndex(options, key.value)) else None)
  }

  /** The key row is itself counted: a count is the key row's match plus the
      students' answers equal to the option. */
  lemma KeyRowIsCounted(rows: seq<seq<Cell>>, col: nat, options: seq<string>, j: nat)
    requires |rows| > 0 && HasColumn(rows, col) && j < |options|
    ensures Chart(rows, col, options).counts[j]
            == (if rows[0][col] == Some(options[j]) then 1 else 0) + Sequences.Count(Column(rows[1..], col), Some(options[j]))
  {
    assert Column(rows, col)[1..] == Column(rows[1..], col);
  }

  /** create_ctt_report: fails on a frame without rows; otherwise draws one
      chart per column over the options the students used (`r`). The list
      it returns (`report`) is never filled. */
  method CreateCttReport(width: nat, rows: seq<seq<Cell>>) returns (r: Result<CttReport, CttError>, report: seq<ItemChart>)
    requires forall k :: 0 <= k < |rows| ==> |rows[k]| == width
    ensures r.Ok? ==> report == []
    ensures r.Err? <==> |rows| == 0
    ensures r.Ok? ==>
              && r.value.options == AllOptions(rows[1..])
              && |r.value.charts| == width
              && forall col :: 0 <= col < width ==> r.value.charts[col] == Chart(rows, col, r.value.options)
  {
    report := [];
    if |rows| == 0 {
      return Err(IndexError), report;
    }
    var allOptions := AllOptions(rows[1..]);
    var charts: seq<ItemChart> := [];
    for col := 0 to width
      invariant |charts| == col
      invariant forall c {:trigger charts[c]} :: 0 <= c < col ==> charts[c] == Chart(rows, c, allOptions)
    {
      assert HasColumn(rows, col);
      var chart := Chart(rows, col, allOptions);
      charts := charts + [chart];
    }
    return Ok(CttReport(allOptions, charts)), report;
  }

  // ---------------------------------------------------------------------
  // plot_item_histogram_with_answer

  /** One bar: an alternative, how many students chose it, and whether it is
      drawn green (the keyed answer) rather than blue. */
  datatype Bar = Bar(alternative: string, count: nat, green: bool)

  /** Python's position `i` in a sequence of length `n`: a negative index
      counts from the end; anything outside the sequence is an IndexError. */
  function Position(n: nat, i: int): (p: Option<nat>)
    ensures p.Some? <==> -(n as int) <= i < n
    ensures p.Some? ==> p.value < n && (p.value == i || p.value == i + n)
  {
    if 0 <= i < n then Some(i) else if -(n as int) <= i < 0 then Some(i + n) else None
  }

  /** The students' answers to question `col`, blanks left out. */
  function StudentAnswers(rows: seq<seq<Cell>>, col: nat): (r: seq<string>)
    requires |rows| > 0 && HasColumn(rows, col)
    ensures forall v :: v in r <==> exists k :: 1 <= k < |rows| && rows[k][col] == Some(v)
    ensures forall v :: Sequences.Count(r, v) == Sequences.Count(Column(rows[1..], col), Some(v))
    ensures |r| == |rows| - 1 - Sequences.Count(Column(rows[1..], col), None)
  {
    var c := Column(rows[1..], col);
    assert forall k :: 1 <= k < |rows| ==> c[k - 1] == rows[k][col];
    Answered(c)
  }

  /** The bars of the histogram: the students' alternatives in order of first
      appearance (`value_counts(sort=False)`), each with its count. */
  function Histogram(width: nat, rows: seq<seq<Cell>>, itemIndex: int): (r: Result<seq<Bar>, CttError>)
    requires forall k :: 0 <= k < |rows| ==> |rows[k]| == width
    ensures r.Err? <==> |rows| == 0 || Position(width, itemIndex).None?
    ensures r.Ok? ==> forall j :: 0 <= j < |r.value| ==>
              r.value[j].count == Sequences.Count(Column(rows[1..], Position(width, itemIndex).value), Some(r.value[j].alternative))
  {
    var p := Position(width, itemIndex);
    if |rows| == 0 || p.None? then Err(IndexError)
    else
      var col := p.value;
      var correctAnswer := rows[0][col];
      Ok(Bars(StudentAnswers(rows, col), correctAnswer))
  }

  /** One bar per distinct answer, in order of first appearance, with its
      count and its colour against the key cell. */
  function Bars(answers: seq<string>, key: Cell): seq<Bar>
  {
    var alternatives := Sequences.Unique(answers);
    seq(|alternatives|, j requires 0 <= j < |alternatives| =>
      Bar(alternatives[j], Sequences.Count(answers, alternatives[j]), key == Some(alternatives[j])))
  }

  /** The bars name each answer exactly once, on a bar of non-zero height,
      and nothing else. */
  lemma BarsShape(answers: seq<string>, key: Cell)
    ensures var bars := Bars(answers, key);
            && (forall i, j :: 0 <= i < j < |bars| ==> bars[i].alternative != bars[j].alternative)
            && (forall v :: v in answers <==> exists j :: 0 <= j < |bars| && bars[j].alternative == v)
            && (forall j :: 0 <= j < |bars| ==> bars[j].count > 0)
  {
    var bars := Bars(answers, key);
    var alternatives := Sequences.Unique(answers);
    forall v | v in answers
      ensures exists j :: 0 <= j < |bars| && bars[j].alternative == v
    {
      var i :| 0 <= i < |answers| && answers[i] == v;
      var j :| 0 <= j < |alternatives| && alternatives[j] == v;
      assert bars[j].alternative == v;
    }
  }

  /** The histogram shows each answer a student gave exactly once, on a bar
      of non-zero height, and nothing else. */
  lemma HistogramAlternatives(width: nat, rows: seq<seq<Cell>>, itemIndex: int)
    requires forall k :: 0 <= k < |rows| ==> |rows[k]| == width
    requires Histogram(width, rows, itemIndex).Ok?
    ensures var bars := Histogram(width, rows, itemIndex).value;
            var answers := StudentAnswers(rows, Position(width, itemIndex).value);
            && (forall i, j :: 0 <= i < j < |bars| ==> bars[i].alternative != bars[j].alternative)
            && (forall v :: v in answers <==> exists j :: 0 <= j < |bars| && bars[j].alternative == v)
            && (forall j :: 0 <= j < |bars| ==> bars[j].count > 0)
  {
    var col := Position(width, itemIndex).value;
    BarsShape(StudentAnswers(rows, col), rows[0][col]);
  }

  /** Only the keyed answer is green, and it has a bar exactly when some
      student chose it. */
  lemma HistogramGreenBar(width: nat, rows: seq<seq<Cell>>, itemIndex: int)
    requires forall k :: 0 <= k < |rows| ==> |rows[k]| == width
    requires Histogram(width, rows, itemIndex).Ok?
    ensures var bars := Histogram(width, rows, itemIndex).value;
            var col := Position(width, itemIndex).value;
            && (forall j :: 0 <= j < |bars| ==> (bars[j].green <==> rows[0][col] == Some(bars[j].alternative)))
            && (forall i, j :: 0 <= i < j < |bars| ==> !(bars[i].green && bars[j].green))
            && ((exists j :: 0 <= j < |bars| && bars[j].green)
                <==> rows[0][col].Some? && rows[0][col].value in StudentAnswers(rows, col))
  {
    HistogramAlternatives(width, rows, itemIndex);
  }

  /** Total height of a list of bars. */
  function BarTotal(bars: seq<Bar>): nat
  {
    if |bars| == 0 then 0 else bars[0].count + BarTotal(bars[1..])
  }

  /** The bars add up to the number of students who answered the question:
      the student rows less those left blank. */
  lemma HistogramCountsAddUp(width: nat, rows: seq<seq<Cell>>, itemIndex: int)
    requires forall k :: 0 <= k < |rows| ==> |rows[k]| == width
    requires Histogram(width, rows, itemIndex).Ok?
    ensures BarTotal(Histogram(width, rows, itemIndex).value)
            == |StudentAnswers(rows, Position(width, itemIndex).value)|
            == |rows| - 1 - Sequences.Count(Column(rows[1..], Position(width, itemIndex).value), None)
  {
    var answers := StudentAnswers(rows, Position(width, itemIndex).value);
    var alternatives := Sequences.Unique(answers);
    BarTotalIsTotalCount(alternatives, answers, rows[0][Position(width, itemIndex).value]);
    Sequences.UniqueCountsAddUp(answers);
  }

  lemma {:induction false} BarTotalIsTotalCount(u: seq<string>, answers: seq<string>, key: Cell)
    ensures BarTotal(seq(|u|, j requires 0 <= j < |u| => Bar(u[j], Sequences.Count(answers, u[j]), key == Some(u[j]))))
            == Sequences.TotalCount(u, answers)
  {
    if |u| > 0 {
      var bars := seq(|u|, j requires 0 <= j < |u| => Bar(u[j], Sequences.Count(answers, u[j]), key == Some(u[j])));
      var tail := u[1..];
      assert bars[1..] == seq(|tail|, j requires 0 <= j < |tail| => Bar(tail[j], Sequences.Count(answers, tail[j]), key == Some(tail[j])));
      BarTotalIsTotalCount(tail, answers, key);
    }
  }
}
