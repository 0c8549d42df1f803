/** Sequence helpers shared by several reports: first-appearance
    de-duplication (what pandas `unique()` returns) and occurrence counts. */
module Sequences {

  /** No element occurs twice. */
  predicate Distinct<X(==)>(s: seq<X>)
  {
    forall i, j :: 0 <= i < j < |s| ==> s[i] != s[j]
  }

  /** Position of the first occurrence of `x` in `xs`. */
  function FirstIndex<X(==)>(xs: seq<X>, x: X): (k: nat)
    requires x in xs
    ensures k < |xs| && xs[k] == x
    ensures x !in xs[..k]
  {
    if xs[0] == x then 0
    else
      var k' := FirstIndex(xs[1..], x);
      assert xs[..k' + 1] == [xs[0]] + xs[1..][..k'];
      k' + 1
  }

  /** The distinct elements of `xs` in order of first appearance. */
  function Unique<X(==)>(xs: seq<X>): (u: seq<X>)
    ensures forall i :: 0 <= i < |u| ==> u[i] in xs
    ensures forall i :: 0 <= i < |xs| ==> xs[i] in u
    ensures Distinct(u)
    ensures |u| <= |xs|
    ensures |xs| > 0 ==> |u| > 0 && u[0] == xs[0]
  {
    if |xs| == 0 then []
    else
      var init := xs[..|xs| - 1];
      var prefix := Unique(init);
      assert forall i :: 0 <= i < |xs| - 1 ==> xs[i] == init[i];
      if xs[|xs| - 1] in prefix then prefix else prefix + [xs[|xs| - 1]]
  }

  /** Unique keeps the order of first appearance: an element listed earlier
      first occurs earlier in `xs`. */
  lemma {:induction false} UniqueKeepsFirstAppearanceOrder<X>(xs: seq<X>, a: nat, b: nat)
    requires a < b < |Unique(xs)|
    ensures FirstIndex(xs, Unique(xs)[a]) < FirstIndex(xs, Unique(xs)[b])
  {
    var n := |xs|;
    var init := xs[..n - 1];
    var u, u' := Unique(xs), Unique(init);
    assert u[a] == u'[a];
    FirstIndexInPrefix(xs, u[a]);
    if b < |u'| {
      assert u[b] == u'[b] && u'[b] in init;
      UniqueKeepsFirstAppearanceOrder(init, a, b);
      FirstIndexInPrefix(xs, u[b]);
    } else {
      assert u[b] == xs[n - 1];
      NewLastFirstIndex(xs);
    }
  }

  /** A last element that does not occur earlier first occurs at the end. */
  lemma NewLastFirstIndex<X>(xs: seq<X>)
    requires |xs| > 0 && xs[|xs| - 1] !in Unique(xs[..|xs| - 1])
    ensures FirstIndex(xs, xs[|xs| - 1]) == |xs| - 1
  {
    var n := |xs|;
    var init := xs[..n - 1];
    forall i | 0 <= i < n - 1
      ensures xs[i] in Unique(init)
    {
      assert xs[i] == init[i];
    }
  }

  /** An element of the prefix `xs[..|xs|-1]` first occurs at the same place
      in `xs`. */
  lemma FirstIndexInPrefix<X>(xs: seq<X>, x: X)
    requires |xs| > 0 && x in xs[..|xs| - 1]
    ensures FirstIndex(xs, x) == FirstIndex(xs[..|xs| - 1], x)
  {
    var init := xs[..|xs| - 1];
    var k, k' := FirstIndex(xs, x), FirstIndex(init, x);
    forall i | 0 <= i < k
      ensures xs[i] != x
    {
      assert xs[..k][i] == xs[i];
    }
    forall i | 0 <= i < k'
      ensures init[i] != x
    {
      assert init[..k'][i] == init[i];
    }
    assert forall i :: 0 <= i < |init| ==> xs[i] == init[i];
  }

  /** The second distinct element is the first element that differs from
      the first one: every earlier element equals `xs[0]`. */
  lemma SecondUniqueIsFirstDifferent<X>(xs: seq<X>)
    requires |Unique(xs)| >= 2
    ensures var j := FirstIndex(xs, Unique(xs)[1]);
            xs[j] != xs[0] && forall k :: 0 <= k < j ==> xs[k] == xs[0]
  {
    var u := Unique(xs);
    var j := FirstIndex(xs, u[1]);
    forall k | 0 <= k < j
      ensures xs[k] == xs[0]
    {
      var m := FirstIndex(u, xs[k]);
      var fk := FirstIndex(xs, xs[k]);
      forall i | 0 <= i < fk
        ensures xs[i] != xs[k]
      {
        assert xs[..fk][i] == xs[i];
      }
      if m >= 1 {
        if m > 1 {
          UniqueKeepsFirstAppearanceOrder(xs, 1, m);
        }
        assert false;
      }
    }
  }

  /** Number of occurrences of `x` in `xs`. */
  function Count<X(==)>(xs: seq<X>, x: X): (n: nat)
    ensures n <= |xs|
    ensures n == 0 <==> x !in xs
  {
    if |xs| == 0 then 0
    else (if xs[0] == x then 1 else 0) + Count(xs[1..], x)
  }

  /** Counting up to the last element, then the last element itself. */
  lemma {:induction false} CountLast<X>(xs: seq<X>, x: X)
    requires |xs| > 0
    ensures Count(xs, x) == Count(xs[..|xs| - 1], x) + (if xs[|xs| - 1] == x then 1 else 0)
  {
    if |xs| > 1 {
      CountLast(xs[1..], x);
      assert xs[1..][..|xs| - 2] == xs[..|xs| - 1][1..];
    }
  }

  /** In a sequence without repetitions an element occurs at most once. */
  lemma {:induction false} CountInDistinct<X>(u: seq<X>, x: X)
    requires Distinct(u)
    ensures Count(u, x) == if x in u then 1 else 0
  {
    if |u| > 0 {
      CountInDistinct(u[1..], x);
      if u[0] == x {
        assert x !in u[1..] by {
          forall i | 0 <= i < |u| - 1 ensures u[1..][i] != x {
            assert u[1..][i] == u[i + 1];
          }
        }
      }
    }
  }

  /** The occurrences in `xs` of the elements of `u`, added up. */
  function TotalCount<X(==)>(u: seq<X>, xs: seq<X>): nat
  {
    if |u| == 0 then 0 else Count(xs, u[0]) + TotalCount(u[1..], xs)
  }

  /** Taking off the first element of `xs` takes off one occurrence for each
      time it is listed in `u`. */
  lemma {:induction false} TotalCountFront<X>(u: seq<X>, xs: seq<X>)
    requires |xs| > 0
    ensures TotalCount(u, xs) == Count(u, xs[0]) + TotalCount(u, xs[1..])
  {
    if |u| > 0 {
      TotalCountFront(u[1..], xs);
    }
  }

  /** Counting every element of a repetition-free list that covers `xs`
      counts every position of `xs` exactly once. */
  lemma {:induction false} TotalCountOfCover<X>(u: seq<X>, xs: seq<X>)
    requires Distinct(u)
    requires forall i :: 0 <= i < |xs| ==> xs[i] in u
    ensures TotalCount(u, xs) == |xs|
  {
    if |xs| == 0 {
      TotalCountOfNothing(u, xs);
    } else {
      TotalCountFront(u, xs);
      CountInDistinct(u, xs[0]);
      assert forall i :: 0 <= i < |xs| - 1 ==> xs[1..][i] == xs[i + 1];
      TotalCountOfCover(u, xs[1..]);
    }
  }

  lemma {:induction false} TotalCountOfNothing<X>(u: seq<X>, xs: seq<X>)
    requires |xs| == 0
    ensures TotalCount(u, xs) == 0
  {
    if |u| > 0 {
      TotalCountOfNothing(u[1..], xs);
    }
  }

  /** The occurrence counts of the distinct elements add up to the length. */
  lemma UniqueCountsAddUp<X>(xs: seq<X>)
    ensures TotalCount(Unique(xs), xs) == |xs|
  {
    TotalCountOfCover(Unique(xs), xs);
  }
}
