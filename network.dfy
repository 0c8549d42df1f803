/** The question–topic graphs of src/network.py: a bipartite graph joining
    each question to its topics, and a topic graph joining the topics that
    share a question. Both are networkx undirected simple graphs, modelled
    as a class whose node set, node attribute, edge set and edge attribute
    the graph-building code updates in place. */
module Network {
  import Topics

  /** Every node of `ns` carrying the attribute value `v`. */
  function Labelled(ns: set<Node>, v: nat): (m: map<Node, nat>)
    ensures m.Keys == ns
  {
    map n | n in ns :: v
  }

  /** A graph node: a question number or a topic name (networkx keeps the
      integer 1 and the string "1" apart). */
  datatype Node = Question(number: int) | Topic(name: string)

  /** An undirected edge is the set of its ends; a self-loop has one end. */
  type Edge = set<Node>

  /** A `metrics_df` row: the question number and its `mapped_topics`. */
  type MetricsRow = (int, Topics.TopicCell)

  /** A row as the loops read it: the question number and its stripped
      topics in order. */
  type TopicRow = (int, seq<string>)

  /** Each row's topics as both graph builders extract them. */
  function TopicRows(metrics: seq<MetricsRow>): (rows: seq<TopicRow>)
    ensures |rows| == |metrics|
  {
    if |metrics| == 0 then []
    else
      var last := metrics[|metrics| - 1];
      TopicRows(metrics[..|metrics| - 1]) + [(last.0, Topics.CellTopics(last.1))]
  }

  lemma {:induction false} TopicRowsAt(metrics: seq<MetricsRow>, n: nat)
    requires n < |metrics|
    ensures TopicRows(metrics)[n] == (metrics[n].0, Topics.CellTopics(metrics[n].1))
  {
    if n < |metrics| - 1 {
      TopicRowsAt(metrics[..|metrics| - 1], n);
    }
  }

  /** One row as both loops read it: `row['question_number']` and its
      topics. */
  method ReadRow(metrics: seq<MetricsRow>, n: nat) returns (questionNumber: int, mappedTopics: seq<string>)
    requires n < |metrics|
    ensures (questionNumber, mappedTopics) == TopicRows(metrics)[n]
  {
    questionNumber := metrics[n].0;
    mappedTopics := Topics.CellTopics(metrics[n].1);
    TopicRowsAt(metrics, n);
  }

  /** The nodes an edge set touches. */
  function Ends(edges: set<Edge>): set<Node>
  {
    set e, n | e in edges && n in e :: n
  }

  /** `nx.Graph()`: nodes with a `bipartite` attribute where one was given,
      and edges with a `question` attribute where one was given. */
  class Graph {
    var nodes: set<Node>
    var side: map<Node, nat>
    var edges: set<Edge>
    var question: map<Edge, int>

    /** Every end of an edge is a node, and attributes sit only on existing
        nodes and edges. */
    ghost predicate Valid()
      reads this
    {
      && (forall e :: e in edges ==> e <= nodes)
      && side.Keys <= nodes
      && question.Keys <= edges
    }

    constructor()
      ensures Valid()
      ensures nodes == {} && side == map[] && edges == {} && question == map[]
    {
      nodes, side, edges, question := {}, map[], {}, map[];
    }

    /** `add_nodes_from(ns, bipartite=b)`: adds the nodes and sets their
        attribute, leaving the edges alone. */
    method AddNodesFrom(ns: set<Node>, bipartite: nat)
      requires Valid()
      modifies this
      ensures Valid()
      ensures nodes == old(nodes) + ns
      ensures side == old(side) + Labelled(ns, bipartite)
      ensures edges == old(edges) && question == old(question)
    {
      nodes := nodes + ns;
      side := side + Labelled(ns, bipartite);
    }

    /** `add_edge(u, v)`: adds both ends and the edge; nothing changes when
        they are already there. */
    method AddEdge(u: Node, v: Node)
      requires Valid()
      modifies this
      ensures Valid()
      ensures nodes == old(nodes) + {u, v}
      ensures edges == old(edges) + {{u, v}}
      ensures side == old(side) && question == old(question)
    {
      nodes := nodes + {u, v};
      edges := edges + {{u, v}};
    }

    /** `add_edge(u, v, question=q)`: as AddEdge, and the edge's `question`
        attribute becomes `q`, replacing an earlier one. */
    method AddEdgeWithQuestion(u: Node, v: Node, q: int)
      requires Valid()
      modifies this
      ensures Valid()
      ensures nodes == old(nodes) + {u, v}
      ensures edges == old(edges) + {{u, v}}
      ensures question == old(question)[{u, v} := q]
      ensures side == old(side)
    {
      nodes := nodes + {u, v};
      edges := edges + {{u, v}};
      question := question[{u, v} := q];
    }
  }

  // ---------------------------------------------------------------------
  // generate_bipartite_graph

  /** The topics of the first `n` rows, in row order (the `topics` list). */
  function TopicsUpTo(rows: seq<TopicRow>, n: nat): seq<string>
    requires n <= |rows|
  {
    if n == 0 then [] else TopicsUpTo(rows, n - 1) + rows[n - 1].1
  }

  lemma TopicsUpToStep(rows: seq<TopicRow>, n: nat)
    requires n < |rows|
    ensures TopicsUpTo(rows, n + 1) == TopicsUpTo(rows, n) + rows[n].1
  {
  }

  /** Every topic collected comes from some row ... */
  lemma {:induction false} TopicsUpToFromRow(rows: seq<TopicRow>, n: nat, t: string)
    requires n <= |rows| && t in TopicsUpTo(rows, n)
    ensures exists i :: 0 <= i < n && t in rows[i].1
  {
    if t in TopicsUpTo(rows, n - 1) {
      TopicsUpToFromRow(rows, n - 1, t);
    }
  }

  /** ... and every row's topics are collected. */
  lemma {:induction false} TopicsUpToHasRow(rows: seq<TopicRow>, n: nat, i: nat, t: string)
    requires i < n <= |rows| && t in rows[i].1
    ensures t in TopicsUpTo(rows, n)
  {
    if i < n - 1 {
      TopicsUpToHasRow(rows, n - 1, i, t);
    }
  }

  /** Side 0: one node per question number. */
  function QuestionNodes(rows: seq<TopicRow>): set<Node>
  {
    set i | 0 <= i < |rows| :: Question(rows[i].0)
  }

  /** Side 1: one node per distinct stripped topic. */
  function TopicNodes(rows: seq<TopicRow>): set<Node>
  {
    set i, t | 0 <= i < |rows| && t in rows[i].1 :: Topic(t)
  }

  /** An edge from each question to each of its stripped topics. */
  function BipartiteEdges(rows: seq<TopicRow>): set<Edge>
  {
    set i, t | 0 <= i < |rows| && t in rows[i].1 :: {Question(rows[i].0), Topic(t)}
  }

  /** The edges from question `q` to each of `topics`. */
  function StarEdges(q: int, topics: seq<string>): set<Edge>
  {
    set j | 0 <= j < |topics| :: {Question(q), Topic(topics[j])}
  }

  lemma NextRowEdges(rows: seq<TopicRow>, n: nat)
    requires n < |rows|
    ensures BipartiteEdges(rows[..n]) + StarEdges(rows[n].0, rows[n].1) == BipartiteEdges(rows[..n + 1])
  {
    var m := rows[..n + 1];
    assert forall i :: 0 <= i < n ==> m[i] == rows[..n][i];
    forall e | e in BipartiteEdges(m)
      ensures e in BipartiteEdges(rows[..n]) + StarEdges(rows[n].0, rows[n].1)
    {
      var i, t :| 0 <= i < |m| && t in m[i].1 && e == {Question(m[i].0), Topic(t)};
      if i == n {
        var j :| 0 <= j < |rows[n].1| && rows[n].1[j] == t;
      }
    }
  }

  lemma CollectedTopicNodes(rows: seq<TopicRow>)
    ensures (set t | t in TopicsUpTo(rows, |rows|) :: Topic(t)) == TopicNodes(rows)
  {
    var topics := TopicsUpTo(rows, |rows|);
    forall x | x in TopicNodes(rows)
      ensures x in set t | t in topics :: Topic(t)
    {
      var i, t :| 0 <= i < |rows| && t in rows[i].1 && x == Topic(t);
      TopicsUpToHasRow(rows, |rows|, i, t);
    }
    forall x | x in set t | t in topics :: Topic(t)
      ensures x in TopicNodes(rows)
    {
      var t :| t in topics && x == Topic(t);
      TopicsUpToFromRow(rows, |rows|, t);
      var i :| 0 <= i < |rows| && t in rows[i].1;
    }
  }

  /** The `topics.extend(...)` loop: every row's topics, in row order. */
  method CollectTopics(metrics: seq<MetricsRow>) returns (topics: seq<string>)
    ensures topics == TopicsUpTo(TopicRows(metrics), |metrics|)
  {
    ghost var rows := TopicRows(metrics);
    topics := [];
    for n := 0 to |metrics|
      invariant topics == TopicsUpTo(rows, n)
    {
      var _, mappedTopics := ReadRow(metrics, n);
      TopicsUpToStep(rows, n);
      topics := topics + mappedTopics;
    }
  }

  /** The inner loop of generate_bipartite_graph: an edge from question `q`
      to each topic, all nodes being there already. */
  method AddQuestionEdges(b: Graph, q: int, topics: seq<string>)
    requires b.Valid()
    requires Question(q) in b.nodes && forall j :: 0 <= j < |topics| ==> Topic(topics[j]) in b.nodes
    modifies b
    ensures b.Valid()
    ensures b.edges == old(b.edges) + StarEdges(q, topics)
    ensures b.nodes == old(b.nodes) && b.side == old(b.side) && b.question == old(b.question)
  {
    for k := 0 to |topics|
      invariant b.Valid()
      invariant b.edges == old(b.edges) + StarEdges(q, topics[..k])
      invariant b.nodes == old(b.nodes) && b.side == old(b.side) && b.question == old(b.question)
    {
      b.AddEdge(Question(q), Topic(topics[k]));
      StarStep(q, topics, k);
      UnionStep(old(b.edges), StarEdges(q, topics[..k]), {Question(q), Topic(topics[k])});
    }
    assert topics[..|topics|] == topics;
  }

  lemma StarStep(q: int, topics: seq<string>, k: nat)
    requires k < |topics|
    ensures StarEdges(q, topics[..k + 1]) == StarEdges(q, topics[..k]) + {{Question(q), Topic(topics[k])}}
  {
    assert forall j :: 0 <= j < k ==> topics[..k + 1][j] == topics[..k][j];
  }

  lemma UnionStep(a: set<Edge>, p: set<Edge>, e: Edge)
    ensures a + (p + {e}) == (a + p) + {e}
  {
  }

  lemma TaggedStep(m: map<Edge, int>, p: set<Edge>, e: Edge, q: int)
    ensures m + Tagged(p + {e}, q) == (m + Tagged(p, q))[e := q]
  {
  }

  /** Questions and topics never clash, so each keeps its side. */
  lemma SidesOfNodes(questions: set<Node>, topics: set<Node>, side: map<Node, nat>)
    requires forall x :: x in questions ==> x.Question?
    requires forall x :: x in topics ==> x.Topic?
    requires side == map[] + Labelled(questions, 0) + Labelled(topics, 1)
    ensures forall x :: x in questions ==> x in side && side[x] == 0
    ensures forall x :: x in topics ==> x in side && side[x] == 1
  {
  }

  /** The node part of generate_bipartite_graph: the question numbers on
      side 0, then the distinct topics on side 1. */
  method AddBipartiteNodes(b: Graph, metrics: seq<MetricsRow>)
    requires b.Valid() && b.nodes == {} && b.side == map[] && b.edges == {} && b.question == map[]
    modifies b
    ensures b.Valid()
    ensures b.nodes == QuestionNodes(TopicRows(metrics)) + TopicNodes(TopicRows(metrics))
    ensures forall x :: x in QuestionNodes(TopicRows(metrics)) ==> x in b.side && b.side[x] == 0
    ensures forall x :: x in TopicNodes(TopicRows(metrics)) ==> x in b.side && b.side[x] == 1
    ensures b.edges == {} && b.question == map[]
  {
    ghost var rows := TopicRows(metrics);
    var questions := set i | 0 <= i < |metrics| :: Question(metrics[i].0);
    assert questions == QuestionNodes(rows) by {
      forall i | 0 <= i < |metrics|
        ensures rows[i].0 == metrics[i].0
      {
        TopicRowsAt(metrics, i);
      }
    }
    var topics := CollectTopics(metrics);
    var topicSet := set t | t in topics :: Topic(t);
    CollectedTopicNodes(rows);
    b.AddNodesFrom(questions, 0);
    b.AddNodesFrom(topicSet, 1);
    SidesOfNodes(questions, topicSet, b.side);
  }

  /** A row's question and topics are nodes of the bipartite graph. */
  lemma RowNodesPresent(rows: seq<TopicRow>, n: nat)
    requires n < |rows|
    ensures Question(rows[n].0) in QuestionNodes(rows)
    ensures forall j :: 0 <= j < |rows[n].1| ==> Topic(rows[n].1[j]) in TopicNodes(rows)
  {
    forall j | 0 <= j < |rows[n].1|
      ensures Topic(rows[n].1[j]) in TopicNodes(rows)
    {
      assert rows[n].1[j] in rows[n].1;
    }
  }

  /** generate_bipartite_graph: questions on side 0, the distinct topics on
      side 1, and an edge from every question to each of its topics. */
  method GenerateBipartiteGraph(metrics: seq<MetricsRow>) returns (b: Graph)
    ensures fresh(b) && b.Valid()
    ensures b.nodes == QuestionNodes(TopicRows(metrics)) + TopicNodes(TopicRows(metrics))
    ensures forall x :: x in QuestionNodes(TopicRows(metrics)) ==> x in b.side && b.side[x] == 0
    ensures forall x :: x in TopicNodes(TopicRows(metrics)) ==> x in b.side && b.side[x] == 1
    ensures b.edges == BipartiteEdges(TopicRows(metrics))
    ensures b.question == map[]
  {
    ghost var rows := TopicRows(metrics);
    b := new Graph();
    AddBipartiteNodes(b, metrics);
    ghost var allNodes := b.nodes;
    ghost var sides := b.side;

    for n := 0 to |metrics|
      invariant b.Valid()
      invariant b.nodes == allNodes && b.side == sides
      invariant b.edges == BipartiteEdges(rows[..n])
      invariant b.question == map[]
    {
      var questionNumber, mappedTopics := ReadRow(metrics, n);
      RowNodesPresent(rows, n);
      AddQuestionEdges(b, questionNumber, mappedTopics);
      NextRowEdges(rows, n);
    }
    assert rows[..|rows|] == rows;
  }

  /** The graph is bipartite: every edge joins a side-0 question to a side-1
      topic. */
  lemma BipartiteEdgesCrossSides(rows: seq<TopicRow>, e: Edge)
    requires e in BipartiteEdges(rows)
    ensures exists q, t :: e == {q, t} && q in QuestionNodes(rows) && t in TopicNodes(rows)
                           && q.Question? && t.Topic?
  {
    var i, t :| 0 <= i < |rows| && t in rows[i].1 && e == {Question(rows[i].0), Topic(t)};
    assert Topic(t) in TopicNodes(rows);
  }

  /** A question is joined to a topic exactly when some row maps it to that
      topic. */
  lemma BipartiteEdgeIff(rows: seq<TopicRow>, q: int, t: string)
    ensures {Question(q), Topic(t)} in BipartiteEdges(rows)
            <==> exists i :: 0 <= i < |rows| && rows[i].0 == q && t in rows[i].1
  {
    if {Question(q), Topic(t)} in BipartiteEdges(rows) {
      var i, t' :| 0 <= i < |rows| && t' in rows[i].1
                   && {Question(q), Topic(t)} == {Question(rows[i].0), Topic(t')};
      assert Question(q) in {Question(rows[i].0), Topic(t')};
      assert Topic(t) in {Question(rows[i].0), Topic(t')};
    }
  }

  /** Repeating a row adds nothing: nodes and edges are sets. */
  lemma RepeatedRowAddsNothing(rows: seq<TopicRow>, i: nat)
    requires i < |rows|
    ensures BipartiteEdges(rows + [rows[i]]) == BipartiteEdges(rows)
    ensures QuestionNodes(rows + [rows[i]]) == QuestionNodes(rows)
    ensures TopicNodes(rows + [rows[i]]) == TopicNodes(rows)
  {
    var m := rows + [rows[i]];
    assert forall j :: 0 <= j < |rows| ==> m[j] == rows[j];
    assert m[|rows|] == rows[i];
  }

  // ---------------------------------------------------------------------
  // generate_topic_graph

  /** The edges the i<j loops add for one topic list. */
  function PairEdges(topics: seq<string>): set<Edge>
  {
    set i, j | 0 <= i < j < |topics| :: {Topic(topics[i]), Topic(topics[j])}
  }

  /** The pairs the loops have added after `i` full outer rounds and `j`
      steps of the next one. */
  function PairEdgesUpTo(topics: seq<string>, i: nat, j: nat): set<Edge>
  {
    (set a, b | 0 <= a < i && a < b < |topics| :: {Topic(topics[a]), Topic(topics[b])})
    + (set b | i < b < j && i < |topics| && b < |topics| :: {Topic(topics[i]), Topic(topics[b])})
  }

  function TopicEdges(rows: seq<TopicRow>): set<Edge>
  {
    if |rows| == 0 then {}
    else TopicEdges(rows[..|rows| - 1]) + PairEdges(rows[|rows| - 1].1)
  }

  /** Every edge of `edges` carrying the attribute value `q`. */
  function Tagged(edges: set<Edge>, q: int): (m: map<Edge, int>)
    ensures m.Keys == edges
  {
    map e | e in edges :: q
  }

  /** The `question` attribute: each row writes its number on every pair it
      produces, so the last row to produce a pair wins. */
  function QuestionOf(rows: seq<TopicRow>): map<Edge, int>
  {
    if |rows| == 0 then map[]
    else QuestionOf(rows[..|rows| - 1]) + Tagged(PairEdges(rows[|rows| - 1].1), rows[|rows| - 1].0)
  }

  /** A question with fewer than two topics adds no edge. */
  lemma FewTopicsNoEdges(topics: seq<string>)
    requires |topics| <= 1
    ensures PairEdges(topics) == {}
  {
  }

  /** A topic listed twice in one question gives a self-loop. */
  lemma RepeatedTopicSelfLoop(topics: seq<string>, i: nat, j: nat)
    requires i < j < |topics| && topics[i] == topics[j]
    ensures {Topic(topics[i])} in PairEdges(topics)
  {
    assert {Topic(topics[i]), Topic(topics[j])} == {Topic(topics[i])};
  }

  /** The edge attribute names the last row that produced the edge. */
  lemma {:induction false} QuestionOfLastRow(rows: seq<TopicRow>, e: Edge, r: nat)
    requires r < |rows| && e in PairEdges(rows[r].1)
    requires forall s :: r < s < |rows| ==> e !in PairEdges(rows[s].1)
    ensures e in QuestionOf(rows) && QuestionOf(rows)[e] == rows[r].0
  {
    if r < |rows| - 1 {
      var init := rows[..|rows| - 1];
      assert forall s :: r < s < |init| ==> init[s] == rows[s];
      QuestionOfLastRow(init, e, r);
    }
  }

  /** The edge attribute is defined on exactly the edges. */
  lemma {:induction false} QuestionOfKeys(rows: seq<TopicRow>)
    ensures QuestionOf(rows).Keys == TopicEdges(rows)
  {
    if |rows| > 0 {
      QuestionOfKeys(rows[..|rows| - 1]);
    }
  }

  /** Every topic-graph edge joins two topics of one row. */
  lemma {:induction false} TopicEdgesFromRow(rows: seq<TopicRow>, e: Edge)
    requires e in TopicEdges(rows)
    ensures exists r, i, j :: 0 <= r < |rows| && 0 <= i < j < |rows[r].1|
                              && e == {Topic(rows[r].1[i]), Topic(rows[r].1[j])}
  {
    var init := rows[..|rows| - 1];
    if e in TopicEdges(init) {
      TopicEdgesFromRow(init, e);
      var r, i, j :| 0 <= r < |init| && 0 <= i < j < |init[r].1|
                     && e == {Topic(init[r].1[i]), Topic(init[r].1[j])};
      assert init[r] == rows[r];
    } else {
      var topics := rows[|rows| - 1].1;
      var i, j :| 0 <= i < j < |topics| && e == {Topic(topics[i]), Topic(topics[j])};
    }
  }

  /** Each pair of positions of a row's topics is an edge. */
  lemma {:induction false} PairInTopicEdges(rows: seq<TopicRow>, r: nat, i: nat, j: nat)
    requires r < |rows| && i < j < |rows[r].1|
    ensures {Topic(rows[r].1[i]), Topic(rows[r].1[j])} in TopicEdges(rows)
  {
    var init := rows[..|rows| - 1];
    if r < |rows| - 1 {
      assert init[r] == rows[r];
      PairInTopicEdges(init, r, i, j);
    }
  }

  /** Both topics of a pair are topic-graph nodes. */
  lemma PairEndsAreNodes(rows: seq<TopicRow>, r: nat, i: nat, j: nat)
    requires r < |rows| && i < j < |rows[r].1|
    ensures Topic(rows[r].1[i]) in Ends(TopicEdges(rows)) && Topic(rows[r].1[j]) in Ends(TopicEdges(rows))
  {
    PairInTopicEdges(rows, r, i, j);
    var e := {Topic(rows[r].1[i]), Topic(rows[r].1[j])};
    assert Topic(rows[r].1[i]) in e && Topic(rows[r].1[j]) in e;
  }

  /** `x` is the topic at position `i` or `j`, with i < j, of row `r`. */
  predicate AtPairEnd(rows: seq<TopicRow>, r: int, i: int, j: int, x: Node)
  {
    0 <= r < |rows| && 0 <= i < j < |rows[r].1| && (x == Topic(rows[r].1[i]) || x == Topic(rows[r].1[j]))
  }

  /** The topic graph's nodes are exactly the topics found at either end of
      some pair of positions i < j of one row; no question is a node. */
  lemma TopicGraphNodes(rows: seq<TopicRow>, x: Node)
    ensures x in Ends(TopicEdges(rows)) <==> exists r, i, j :: AtPairEnd(rows, r, i, j, x)
  {
    if x in Ends(TopicEdges(rows)) {
      var e :| e in TopicEdges(rows) && x in e;
      TopicEdgesFromRow(rows, e);
      var r, i, j :| 0 <= r < |rows| && 0 <= i < j < |rows[r].1|
                     && e == {Topic(rows[r].1[i]), Topic(rows[r].1[j])};
      assert AtPairEnd(rows, r, i, j, x);
    }
    if exists r, i, j :: AtPairEnd(rows, r, i, j, x) {
      var r, i, j :| AtPairEnd(rows, r, i, j, x);
      PairEndsAreNodes(rows, r, i, j);
    }
  }

  /** The nested i<j loops of generate_topic_graph for one row: an edge for
      every pair of positions, tagged with the row's question. */
  method AddPairEdges(g: Graph, q: int, topics: seq<string>)
    requires g.Valid() && g.nodes == Ends(g.edges)
    modifies g
    ensures g.Valid() && g.nodes == Ends(g.edges)
    ensures g.edges == old(g.edges) + PairEdges(topics)
    ensures g.question == old(g.question) + Tagged(PairEdges(topics), q)
    ensures g.side == old(g.side)
  {
    for i := 0 to |topics|
      invariant g.Valid() && g.nodes == Ends(g.edges)
      invariant g.edges == old(g.edges) + PairEdgesUpTo(topics, i, i + 1)
      invariant g.question == old(g.question) + Tagged(PairEdgesUpTo(topics, i, i + 1), q)
      invariant g.side == old(g.side)
    {
      for j := i + 1 to |topics|
        invariant g.Valid() && g.nodes == Ends(g.edges)
        invariant g.edges == old(g.edges) + PairEdgesUpTo(topics, i, j)
        invariant g.question == old(g.question) + Tagged(PairEdgesUpTo(topics, i, j), q)
        invariant g.side == old(g.side)
      {
        ghost var previous := g.edges;
        g.AddEdgeWithQuestion(Topic(topics[i]), Topic(topics[j]), q);
        var e := {Topic(topics[i]), Topic(topics[j])};
        PairStep(topics, i, j);
        UnionStep(old(g.edges), PairEdgesUpTo(topics, i, j), e);
        TaggedStep(old(g.question), PairEdgesUpTo(topics, i, j), e, q);
        EndsGrow(previous, Topic(topics[i]), Topic(topics[j]));
      }
      RoundDone(topics, i);
    }
    AllRoundsDone(topics);
  }

  lemma PairStep(topics: seq<string>, i: nat, j: nat)
    requires i < j < |topics|
    ensures PairEdgesUpTo(topics, i, j + 1) == PairEdgesUpTo(topics, i, j) + {{Topic(topics[i]), Topic(topics[j])}}
  {
  }

  lemma RoundDone(topics: seq<string>, i: nat)
    requires i < |topics|
    ensures PairEdgesUpTo(topics, i, |topics|) == PairEdgesUpTo(topics, i + 1, i + 2)
  {
  }

  lemma AllRoundsDone(topics: seq<string>)
    ensures PairEdgesUpTo(topics, |topics|, |topics| + 1) == PairEdges(topics)
  {
  }

  lemma EndsGrow(edges: set<Edge>, u: Node, v: Node)
    ensures Ends(edges + {{u, v}}) == Ends(edges) + {u, v}
  {
    assert u in {u, v} && v in {u, v};
  }

  lemma TopicRowStep(rows: seq<TopicRow>, n: nat)
    requires n < |rows|
    ensures TopicEdges(rows[..n + 1]) == TopicEdges(rows[..n]) + PairEdges(rows[n].1)
    ensures QuestionOf(rows[..n + 1]) == QuestionOf(rows[..n]) + Tagged(PairEdges(rows[n].1), rows[n].0)
  {
    assert rows[..n + 1][..n] == rows[..n];
  }

  /** generate_topic_graph: for every row, an edge between the topics at
      each pair of positions i < j, tagged with the row's question. */
  method GenerateTopicGraph(metrics: seq<MetricsRow>) returns (g: Graph)
    ensures fresh(g) && g.Valid()
    ensures g.edges == TopicEdges(TopicRows(metrics))
    ensures g.nodes == Ends(TopicEdges(TopicRows(metrics)))
    ensures g.question == QuestionOf(TopicRows(metrics))
    ensures g.side == map[]
  {
    ghost var rows := TopicRows(metrics);
    g := new Graph();
    for n := 0 to |metrics|
      invariant g.Valid()
      invariant g.edges == TopicEdges(rows[..n])
      invariant g.nodes == Ends(g.edges)
      invariant g.question == QuestionOf(rows[..n])
      invariant g.side == map[]
    {
      var questionNumber, mappedTopics := ReadRow(metrics, n);
      AddPairEdges(g, questionNumber, mappedTopics);
      TopicRowStep(rows, n);
    }
    assert rows[..|rows|] == rows;
  }
}
