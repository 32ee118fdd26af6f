/**
 The graph snapshot that the editor hands to the analysis: nodes with an id
 and a label, and undirected edges given by their two endpoint ids. This
 module defines the derived notions the rest of the model talks about:
 degrees, the endpoint pairs of the edges, and the adjacency dictionary of
 neighbour lists that the circuit search builds.
 */
module Graph {

  /** Node ids are the editor's strings (JavaScript object keys). */
  type NodeId = string

  datatype Option<T> = None | Some(value: T)

  /** `caption` is the node's display label (data.label in the editor). */
  datatype Node = Node(id: NodeId, caption: string)

  /** An edge as the editor stores it; the analysis treats it as undirected. */
  datatype Edge = Edge(source: NodeId, target: NodeId)

  function Last<T>(s: seq<T>): T
    requires |s| > 0
  {
    s[|s| - 1]
  }

  function DropLast<T>(s: seq<T>): seq<T>
    requires |s| > 0
  {
    s[..|s| - 1]
  }

  function Ids(nodes: seq<Node>): set<NodeId>
  {
    set i | 0 <= i < |nodes| :: nodes[i].id
  }

  predicate DistinctIds(nodes: seq<Node>)
  {
    forall i, j | 0 <= i < j < |nodes| :: nodes[i].id != nodes[j].id
  }

  /** Every edge endpoint is the id of a listed node. */
  predicate AllEndpointsListed(nodes: seq<Node>, edges: seq<Edge>)
  {
    forall k | 0 <= k < |edges| :: edges[k].source in Ids(nodes) && edges[k].target in Ids(nodes)
  }

  // ---------------------------------------------------------------------
  // Degrees

  /** All edge endpoints, with multiplicity: a self-loop puts its node in twice. */
  function Incidences(edges: seq<Edge>): multiset<NodeId>
  {
    if edges == [] then multiset{}
    else Incidences(DropLast(edges)) + multiset{Last(edges).source, Last(edges).target}
  }

  function Degree(edges: seq<Edge>, x: NodeId): nat
  {
    Incidences(edges)[x]
  }

  /** Appending an edge adds one to the degree of its source and one to that of its target. */
  lemma DegreeSnoc(edges: seq<Edge>, e: Edge, x: NodeId)
    ensures Degree(edges + [e], x)
         == Degree(edges, x) + (if e.source == x then 1 else 0) + (if e.target == x then 1 else 0)
  {
    assert DropLast(edges + [e]) == edges;
  }

  /** A node that is no edge's endpoint has degree 0. */
  lemma {:induction false} DegreeOfIsolated(edges: seq<Edge>, x: NodeId)
    requires forall k | 0 <= k < |edges| :: edges[k].source != x && edges[k].target != x
    ensures Degree(edges, x) == 0
  {
    if edges != [] {
      DegreeOfIsolated(DropLast(edges), x);
    }
  }

  /** x is an endpoint of some edge exactly when its degree is positive. */
  lemma {:induction false} IncidencesMembers(edges: seq<Edge>, x: NodeId)
    ensures x in Incidences(edges) <==> exists k | 0 <= k < |edges| :: x in Ends(edges[k])
  {
    if edges != [] {
      var es, e := DropLast(edges), Last(edges);
      IncidencesMembers(es, x);
      assert x in Incidences(edges) <==> x in Incidences(es) || x in Ends(e);
      assert edges[|es|] == e;
      if x in Incidences(es) {
        var k :| 0 <= k < |es| && x in Ends(es[k]);
        assert edges[k] == es[k];
      }
      if exists k | 0 <= k < |edges| :: x in Ends(edges[k]) {
        var k :| 0 <= k < |edges| && x in Ends(edges[k]);
        if k < |es| {
          assert es[k] == edges[k];
        }
      }
    }
  }

  /** Sum of the degrees of the listed nodes, in list order. */
  function SumDegrees(nodes: seq<Node>, edges: seq<Edge>): nat
  {
    if nodes == [] then 0 else Degree(edges, nodes[0].id) + SumDegrees(nodes[1..], edges)
  }

  /** How many listed nodes have id a. */
  function Occurrences(nodes: seq<Node>, a: NodeId): nat
  {
    if nodes == [] then 0 else (if nodes[0].id == a then 1 else 0) + Occurrences(nodes[1..], a)
  }

  lemma {:induction false} OccurrencesOfDistinct(nodes: seq<Node>, a: NodeId)
    requires DistinctIds(nodes)
    ensures Occurrences(nodes, a) == if a in Ids(nodes) then 1 else 0
  {
    if nodes != [] {
      var rest := nodes[1..];
      assert DistinctIds(rest) by {
        forall i, j | 0 <= i < j < |rest| ensures rest[i].id != rest[j].id {
          assert rest[i] == nodes[i + 1] && rest[j] == nodes[j + 1];
        }
      }
      OccurrencesOfDistinct(rest, a);
      assert Ids(nodes) == {nodes[0].id} + Ids(rest) by {
        forall y ensures y in Ids(nodes) <==> y in {nodes[0].id} + Ids(rest) {
          if y in Ids(nodes) {
            var i :| 0 <= i < |nodes| && nodes[i].id == y;
            if i > 0 { assert rest[i - 1] == nodes[i]; }
          }
          if y in Ids(rest) {
            var i :| 0 <= i < |rest| && rest[i].id == y;
            assert nodes[i + 1] == rest[i];
          }
        }
      }
      if nodes[0].id == a {
        assert a !in Ids(rest);
      }
    }
  }

  lemma {:induction false} SumDegreesSnoc(nodes: seq<Node>, edges: seq<Edge>, e: Edge)
    ensures SumDegrees(nodes, edges + [e])
         == SumDegrees(nodes, edges) + Occurrences(nodes, e.source) + Occurrences(nodes, e.target)
  {
    if nodes != [] {
      DegreeSnoc(edges, e, nodes[0].id);
      SumDegreesSnoc(nodes[1..], edges, e);
    }
  }

  /**
   Handshake lemma over the degree table: when the node ids are distinct and
   every endpoint is listed, the degrees of the listed nodes add up to twice
   the number of edges.
   */
  lemma {:induction false} Handshake(nodes: seq<Node>, edges: seq<Edge>)
    requires DistinctIds(nodes)
    requires AllEndpointsListed(nodes, edges)
    ensures SumDegrees(nodes, edges) == 2 * |edges|
  {
    if edges == [] {
      SumOfNoEdges(nodes);
    } else {
      var es, e := DropLast(edges), Last(edges);
      assert edges == es + [e];
      assert AllEndpointsListed(nodes, es) by {
        forall k | 0 <= k < |es| ensures es[k].source in Ids(nodes) && es[k].target in Ids(nodes) {
          assert es[k] == edges[k];
        }
      }
      Handshake(nodes, es);
      SumDegreesSnoc(nodes, es, e);
      assert e == edges[|edges| - 1];
      OccurrencesOfDistinct(nodes, e.source);
      OccurrencesOfDistinct(nodes, e.target);
    }
  }

  lemma {:induction false} SumOfNoEdges(nodes: seq<Node>)
    ensures SumDegrees(nodes, []) == 0
  {
    if nodes != [] {
      SumOfNoEdges(nodes[1..]);
    }
  }

  // ---------------------------------------------------------------------
  // Endpoint pairs

  function Ends(e: Edge): set<NodeId>
  {
    {e.source, e.target}
  }

  /** Some edge has exactly the endpoints a and b (in either direction). */
  ghost predicate Joined(edges: seq<Edge>, a: NodeId, b: NodeId)
  {
    exists k | 0 <= k < |edges| :: Ends(edges[k]) == {a, b}
  }

  /** The endpoint pairs of the edges, with multiplicity; {x} stands for a self-loop at x. */
  function PairsOf(edges: seq<Edge>): multiset<set<NodeId>>
  {
    if edges == [] then multiset{}
    else PairsOf(DropLast(edges)) + multiset{Ends(Last(edges))}
  }

  /** There is one endpoint pair per edge. */
  lemma {:induction false} PairsOfSize(edges: seq<Edge>)
    ensures |PairsOf(edges)| == |edges|
  {
    if edges != [] {
      PairsOfSize(DropLast(edges));
    }
  }

  /** A pair occurs among the endpoint pairs exactly when some edge joins it. */
  lemma {:induction false} PairsOfJoined(edges: seq<Edge>, a: NodeId, b: NodeId)
    ensures {a, b} in PairsOf(edges) <==> Joined(edges, a, b)
  {
    if edges != [] {
      var es := DropLast(edges);
      PairsOfJoined(es, a, b);
      if Joined(es, a, b) {
        var k :| 0 <= k < |es| && Ends(es[k]) == {a, b};
        assert edges[k] == es[k];
      }
      if Joined(edges, a, b) && !Joined(es, a, b) {
        var k :| 0 <= k < |edges| && Ends(edges[k]) == {a, b};
        assert k == |es|;
      }
    }
  }

  /** No two edges join the same pair of nodes (no parallel edges, at most one self-loop per node). */
  ghost predicate DistinctPairs(edges: seq<Edge>)
  {
    forall i, j | 0 <= i < j < |edges| :: Ends(edges[i]) != Ends(edges[j])
  }

  /** Without parallel edges every endpoint pair occurs at most once. */
  lemma {:induction false} DistinctPairsOnce(edges: seq<Edge>, p: set<NodeId>)
    requires DistinctPairs(edges)
    ensures PairsOf(edges)[p] <= 1
  {
    if edges != [] {
      var es, e := DropLast(edges), Last(edges);
      assert DistinctPairs(es) by {
        forall i, j | 0 <= i < j < |es| ensures Ends(es[i]) != Ends(es[j]) {
          assert es[i] == edges[i] && es[j] == edges[j];
        }
      }
      DistinctPairsOnce(es, p);
      if p == Ends(e) {
        forall k | 0 <= k < |es| ensures Ends(es[k]) != {e.source, e.target} {
          assert edges[k] == es[k] && edges[|es|] == e;
        }
        PairsOfJoined(es, e.source, e.target);
      }
    }
  }

  // ---------------------------------------------------------------------
  // The adjacency dictionary

  type Adjacency = map<NodeId, seq<NodeId>>

  /** A missing key reads as an empty list. */
  function Get(g: Adjacency, x: NodeId): seq<NodeId>
  {
    if x in g then g[x] else []
  }

  /** The neighbours that edge e adds to the list of x: target then source. */
  function Contribution(e: Edge, x: NodeId): seq<NodeId>
  {
    (if e.source == x then [e.target] else []) + (if e.target == x then [e.source] else [])
  }

  /** One pass of the dictionary-building loop: create missing lists, then push each endpoint onto the other's list. */
  function AddEdge(g: Adjacency, e: Edge): Adjacency
  {
    var g1 := if e.source in g then g else g[e.source := []];
    var g2 := if e.target in g1 then g1 else g1[e.target := []];
    var g3 := g2[e.source := g2[e.source] + [e.target]];
    g3[e.target := g3[e.target] + [e.source]]
  }

  /** The dictionary after the building loop has run over all edges. */
  function AdjacencyOf(edges: seq<Edge>): Adjacency
  {
    if edges == [] then map[] else AddEdge(AdjacencyOf(DropLast(edges)), Last(edges))
  }

  lemma AddEdgeAt(g: Adjacency, e: Edge, x: NodeId)
    ensures x in AddEdge(g, e) <==> x in g || x == e.source || x == e.target
    ensures Get(AddEdge(g, e), x) == Get(g, x) + Contribution(e, x)
  {
  }

  /** The keys of the dictionary are exactly the edge endpoints. */
  lemma {:induction false} AdjacencyKeys(edges: seq<Edge>, x: NodeId)
    ensures x in AdjacencyOf(edges) <==> x in Incidences(edges)
  {
    if edges != [] {
      AdjacencyKeys(DropLast(edges), x);
      AddEdgeAt(AdjacencyOf(DropLast(edges)), Last(edges), x);
    }
  }

  /** The neighbour list of x is as long as the degree of x. */
  lemma {:induction false} AdjacencyDegree(edges: seq<Edge>, x: NodeId)
    ensures |Get(AdjacencyOf(edges), x)| == Degree(edges, x)
  {
    if edges != [] {
      AdjacencyDegree(DropLast(edges), x);
      AddEdgeAt(AdjacencyOf(DropLast(edges)), Last(edges), x);
    }
  }

  lemma ContributionCount(e: Edge, x: NodeId, y: NodeId)
    ensures multiset(Contribution(e, x))[y]
         == if x == y then 2 * multiset{Ends(e)}[{x}] else multiset{Ends(e)}[{x, y}]
  {
    if x == y {
      if e.source == x && e.target == x {
        assert Ends(e) == {x};
      } else {
        assert Ends(e) != {x} by {
          if e.source != x { assert e.source in Ends(e); } else { assert e.target in Ends(e); }
        }
      }
    } else {
      if (e.source == x && e.target == y) || (e.source == y && e.target == x) {
        assert Ends(e) == {x, y};
      } else {
        assert Ends(e) != {x, y};
      }
    }
  }

  /**
   How often y occurs in the list of x: once per edge joining x and y, and
   twice per self-loop at x.
   */
  lemma {:induction false} AdjacencyCount(edges: seq<Edge>, x: NodeId, y: NodeId)
    ensures multiset(Get(AdjacencyOf(edges), x))[y]
         == if x == y then 2 * PairsOf(edges)[{x}] else PairsOf(edges)[{x, y}]
  {
    if edges != [] {
      var es, e := DropLast(edges), Last(edges);
      AdjacencyCount(es, x, y);
      AddEdgeAt(AdjacencyOf(es), e, x);
      ContributionCount(e, x, y);
    }
  }

  /** Every neighbour in a list is joined to the list's owner by an edge, and is itself a key. */
  lemma {:induction false} AdjacencyNeighbour(edges: seq<Edge>, x: NodeId, y: NodeId)
    requires y in Get(AdjacencyOf(edges), x)
    ensures Joined(edges, x, y)
    ensures y in AdjacencyOf(edges)
  {
    var es, e := DropLast(edges), Last(edges);
    AddEdgeAt(AdjacencyOf(es), e, x);
    AddEdgeAt(AdjacencyOf(es), e, y);
    assert edges[|es|] == e;
    if y in Get(AdjacencyOf(es), x) {
      AdjacencyNeighbour(es, x, y);
      var k :| 0 <= k < |es| && Ends(es[k]) == {x, y};
      assert edges[k] == es[k];
    } else {
      assert y in Contribution(e, x);
      assert Ends(e) == {x, y};
    }
  }

  // ---------------------------------------------------------------------
  // Total length of the neighbour lists

  /** The number of entries in all neighbour lists together. */
  ghost function Size(g: Adjacency): nat
    decreases |g|
  {
    if g == map[] then 0
    else
      var k :| k in g;
      assert |g - {k}| < |g| by {
        assert (g - {k}).Keys == g.Keys - {k};
      }
      |g[k]| + Size(g - {k})
  }

  /** The sum does not depend on the key taken out first. */
  lemma {:induction false} SizeRemove(g: Adjacency, k: NodeId)
    requires k in g
    ensures Size(g) == |g[k]| + Size(g - {k})
    decreases |g|
  {
    var j :| j in g && Size(g) == |g[j]| + Size(g - {j});
    if j != k {
      assert |g - {j}| < |g| by { assert (g - {j}).Keys == g.Keys - {j}; }
      assert |g - {k}| < |g| by { assert (g - {k}).Keys == g.Keys - {k}; }
      SizeRemove(g - {j}, k);
      SizeRemove(g - {k}, j);
      assert g - {j} - {k} == g - {k} - {j};
    }
  }

  /** Replacing one list changes the total by the difference in lengths. */
  lemma SizeUpdate(g: Adjacency, k: NodeId, s: seq<NodeId>)
    ensures Size(g[k := s]) + |Get(g, k)| == Size(g) + |s|
  {
    SizeRemove(g[k := s], k);
    assert g[k := s] - {k} == g - {k};
    if k in g {
      SizeRemove(g, k);
    } else {
      assert g - {k} == g;
    }
  }

  lemma SizeAddEdge(g: Adjacency, e: Edge)
    ensures Size(AddEdge(g, e)) == Size(g) + 2
  {
    var g1 := if e.source in g then g else g[e.source := []];
    SizeUpdate(g, e.source, []);
    var g2 := if e.target in g1 then g1 else g1[e.target := []];
    SizeUpdate(g1, e.target, []);
    var g3 := g2[e.source := g2[e.source] + [e.target]];
    SizeUpdate(g2, e.source, g2[e.source] + [e.target]);
    SizeUpdate(g3, e.target, g3[e.target] + [e.source]);
  }

  /** Handshake lemma over the dictionary: the lists hold two entries per edge. */
  lemma {:induction false} AdjacencySize(edges: seq<Edge>)
    ensures Size(AdjacencyOf(edges)) == 2 * |edges|
  {
    if edges == [] {
    } else {
      AdjacencySize(DropLast(edges));
      SizeAddEdge(AdjacencyOf(DropLast(edges)), Last(edges));
    }
  }
}
