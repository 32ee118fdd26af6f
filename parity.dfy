/**
 The degree-parity test of the analysis (hasEulerianCircuit): a table of
 degree counters, one per listed node, bumped once per edge endpoint, and
 the answer "every counter is even".
 */
module Parity {
  import opened Graph

  /**
   A degree counter as the JavaScript dictionary holds it. Incrementing a key
   that is absent (`undefined++`) or already NaN yields NaN.
   */
  datatype Counter = Num(n: nat) | NaN

  /** `degree % 2 === 0`: false for NaN, since NaN % 2 is NaN. */
  predicate IsEven(c: Counter)
  {
    c.Num? && c.n % 2 == 0
  }

  /** `degrees[x]++` */
  function Bump(degrees: map<NodeId, Counter>, x: NodeId): map<NodeId, Counter>
  {
    degrees[x := if x in degrees && degrees[x].Num? then Num(degrees[x].n + 1) else NaN]
  }

  /** What the parity test decides: every endpoint is listed and every listed node has even degree. */
  predicate ParityHolds(nodes: seq<Node>, edges: seq<Edge>)
  {
    AllEndpointsListed(nodes, edges) && forall i | 0 <= i < |nodes| :: Degree(edges, nodes[i].id) % 2 == 0
  }

  /** The degree table after the edge loop has processed the edges es. */
  ghost predicate TableAfter(nodes: seq<Node>, es: seq<Edge>, degrees: map<NodeId, Counter>)
  {
    && (forall x :: x in degrees <==> x in Ids(nodes) || x in Incidences(es))
    && (forall x | x in Ids(nodes) :: degrees[x] == Num(Degree(es, x)))
    && (forall x | x in degrees && x !in Ids(nodes) :: degrees[x] == NaN)
  }

  /** One pass of the edge loop keeps the table exact. */
  lemma BumpEdge(nodes: seq<Node>, es: seq<Edge>, e: Edge, degrees: map<NodeId, Counter>)
    requires TableAfter(nodes, es, degrees)
    ensures TableAfter(nodes, es + [e], Bump(Bump(degrees, e.source), e.target))
  {
    BumpKeys(nodes, es, e, degrees);
    BumpListed(nodes, es, e, degrees);
    BumpUnlisted(nodes, es, e, degrees);
  }

  lemma BumpKeys(nodes: seq<Node>, es: seq<Edge>, e: Edge, degrees: map<NodeId, Counter>)
    requires forall x :: x in degrees <==> x in Ids(nodes) || x in Incidences(es)
    ensures var d := Bump(Bump(degrees, e.source), e.target);
      forall x :: x in d <==> x in Ids(nodes) || x in Incidences(es + [e])
  {
    assert DropLast(es + [e]) == es;
  }

  lemma BumpListed(nodes: seq<Node>, es: seq<Edge>, e: Edge, degrees: map<NodeId, Counter>)
    requires forall x | x in Ids(nodes) :: x in degrees && degrees[x] == Num(Degree(es, x))
    ensures var d := Bump(Bump(degrees, e.source), e.target);
      forall x | x in Ids(nodes) :: d[x] == Num(Degree(es + [e], x))
  {
    forall x | x in Ids(nodes) ensures Bump(Bump(degrees, e.source), e.target)[x] == Num(Degree(es + [e], x)) {
      DegreeSnoc(es, e, x);
      BumpTwice(degrees, e.source, e.target, x);
    }
  }

  /** Two increments on a counter that holds a number. */
  lemma BumpTwice(degrees: map<NodeId, Counter>, a: NodeId, b: NodeId, x: NodeId)
    requires x in degrees && degrees[x].Num?
    ensures Bump(Bump(degrees, a), b)[x]
         == Num(degrees[x].n + (if a == x then 1 else 0) + (if b == x then 1 else 0))
  {
  }

  lemma BumpUnlisted(nodes: seq<Node>, es: seq<Edge>, e: Edge, degrees: map<NodeId, Counter>)
    requires forall x | x in degrees && x !in Ids(nodes) :: degrees[x] == NaN
    ensures var d := Bump(Bump(degrees, e.source), e.target);
      forall x | x in d && x !in Ids(nodes) :: d[x] == NaN
  {
  }

  /** Reading the final table: all counters are even exactly when the parity test holds. */
  lemma TableVerdict(nodes: seq<Node>, edges: seq<Edge>, degrees: map<NodeId, Counter>)
    requires TableAfter(nodes, edges, degrees)
    ensures (forall x | x in degrees :: IsEven(degrees[x])) <==> ParityHolds(nodes, edges)
  {
    if !AllEndpointsListed(nodes, edges) {
      var k :| 0 <= k < |edges| && !(edges[k].source in Ids(nodes) && edges[k].target in Ids(nodes));
      var x := if edges[k].source in Ids(nodes) then edges[k].target else edges[k].source;
      IncidencesMembers(edges, x);
      assert x in degrees && !IsEven(degrees[x]);
    } else if forall x | x in degrees :: IsEven(degrees[x]) {
      forall i | 0 <= i < |nodes| ensures Degree(edges, nodes[i].id) % 2 == 0 {
        assert nodes[i].id in Ids(nodes);
        assert IsEven(degrees[nodes[i].id]);
      }
    } else {
      var x :| x in degrees && !IsEven(degrees[x]);
      if x in Ids(nodes) {
        var i :| 0 <= i < |nodes| && nodes[i].id == x;
        assert Degree(edges, nodes[i].id) % 2 != 0;
      } else {
        IncidencesMembers(edges, x);
        assert false;
      }
    }
  }

  lemma IdsPrefix(nodes: seq<Node>, i: nat)
    requires i < |nodes|
    ensures Ids(nodes[..i + 1]) == Ids(nodes[..i]) + {nodes[i].id}
  {
    assert forall j | 0 <= j < i :: nodes[..i + 1][j] == nodes[..i][j];
  }

  /** Before the edge loop the table holds a zero per listed id. */
  lemma TableStart(nodes: seq<Node>, degrees: map<NodeId, Counter>)
    requires degrees.Keys == Ids(nodes[..|nodes|])
    requires forall x | x in degrees :: degrees[x] == Num(0)
    ensures TableAfter(nodes, [], degrees)
  {
    assert nodes[..|nodes|] == nodes;
  }

  /**
   The parity test. After the two loops the table maps each listed id to
   its degree and each unlisted endpoint to NaN; the answer is true exactly
   when there is no unlisted endpoint and every listed node's degree is even.
   */
  method HasEulerianCircuit(nodes: seq<Node>, edges: seq<Edge>) returns (ok: bool)
    ensures ok <==> ParityHolds(nodes, edges)
  {
    var degrees: map<NodeId, Counter> := map[];
    for i := 0 to |nodes|
      invariant degrees.Keys == Ids(nodes[..i])
      invariant forall x | x in degrees :: degrees[x] == Num(0)
    {
      ZeroStep(nodes, i, degrees);
      degrees := degrees[nodes[i].id := Num(0)];
    }
    TableStart(nodes, degrees);
    for k := 0 to |edges|
      invariant TableAfter(nodes, edges[..k], degrees)
    {
      EdgeStep(nodes, edges, k, degrees);
      degrees := Bump(degrees, edges[k].source);
      degrees := Bump(degrees, edges[k].target);
    }
    ok := forall x | x in degrees :: IsEven(degrees[x]);
    TableEnd(nodes, edges, degrees);
  }

  /** One pass of the node loop adds a zero counter for the next listed id. */
  lemma ZeroStep(nodes: seq<Node>, i: nat, degrees: map<NodeId, Counter>)
    requires i < |nodes| && degrees.Keys == Ids(nodes[..i])
    ensures degrees[nodes[i].id := Num(0)].Keys == Ids(nodes[..i + 1])
  {
    IdsPrefix(nodes, i);
  }

  /** One pass of the edge loop, on the prefix of the edge list it has processed. */
  lemma EdgeStep(nodes: seq<Node>, edges: seq<Edge>, k: nat, degrees: map<NodeId, Counter>)
    requires k < |edges| && TableAfter(nodes, edges[..k], degrees)
    ensures TableAfter(nodes, edges[..k + 1], Bump(Bump(degrees, edges[k].source), edges[k].target))
  {
    assert edges[..k + 1] == edges[..k] + [edges[k]];
    BumpEdge(nodes, edges[..k], edges[k], degrees);
  }

  lemma TableEnd(nodes: seq<Node>, edges: seq<Edge>, degrees: map<NodeId, Counter>)
    requires TableAfter(nodes, edges[..|edges|], degrees)
    ensures (forall x | x in degrees :: IsEven(degrees[x]))
        <==> ParityHolds(nodes, edges)
  {
    assert edges[..|edges|] == edges;
    TableVerdict(nodes, edges, degrees);
  }

  /** The method decides exactly ParityHolds. */
  lemma ParityHoldsMeaning(nodes: seq<Node>, edges: seq<Edge>)
    ensures ParityHolds(nodes, edges)
        <==> (AllEndpointsListed(nodes, edges) && forall x | x in Ids(nodes) :: Degree(edges, x) % 2 == 0)
  {
    if ParityHolds(nodes, edges) {
      forall x | x in Ids(nodes) ensures Degree(edges, x) % 2 == 0 {
        var i :| 0 <= i < |nodes| && nodes[i].id == x;
      }
    }
  }

  /**
   A node with no incident edge has degree 0 and never makes the test
   fail: adding it to the node list leaves the verdict unchanged.
   */
  lemma IsolatedNodeHarmless(nodes: seq<Node>, edges: seq<Edge>, n: Node)
    requires forall k | 0 <= k < |edges| :: edges[k].source != n.id && edges[k].target != n.id
    ensures ParityHolds(nodes + [n], edges) <==> ParityHolds(nodes, edges)
  {
    DegreeOfIsolated(edges, n.id);
    var ns := nodes + [n];
    assert Ids(ns) == Ids(nodes) + {n.id} by {
      assert forall i | 0 <= i < |nodes| :: ns[i] == nodes[i];
      assert ns[|nodes|] == n;
    }
    if ParityHolds(nodes, edges) {
      forall i | 0 <= i < |ns| ensures Degree(edges, ns[i].id) % 2 == 0 {
        if i < |nodes| { assert ns[i] == nodes[i]; }
      }
    }
    if ParityHolds(ns, edges) {
      forall i | 0 <= i < |nodes| ensures Degree(edges, nodes[i].id) % 2 == 0 {
        assert ns[i] == nodes[i];
      }
      forall k | 0 <= k < |edges| ensures edges[k].source in Ids(nodes) && edges[k].target in Ids(nodes) {
        assert edges[k].source in Ids(ns) && edges[k].target in Ids(ns);
      }
    }
  }
}
