/**
 The search with the corrected removal (OneCopy: a traversed edge takes one
 entry out of each endpoint's list) when every node has even degree. The
 output is then a closed walk from the first edge's source that uses every
 edge at most once, and it uses all of them exactly when the search leaves
 no entry in the lists.

 The proof follows the classical argument for the stack form of
 Hierholzer's algorithm. Along a run of pushes from a node j, the nodes
 with an odd number of remaining entries are exactly j and the top of the
 stack (none when they coincide), so the top gets stuck only at j; the
 node popped next is therefore joined to the previously popped one by the
 stack step below it. The ghost node j travels with the state in Tour.
 */
module Corrected {
  import opened Graph
  import opened Hierholzer

  // ---------------------------------------------------------------------
  // Steps of a walk

  /** The unordered endpoint pairs of the consecutive steps of a walk. */
  function Steps(s: seq<NodeId>): multiset<set<NodeId>>
  {
    if |s| < 2 then multiset{} else Steps(DropLast(s)) + multiset{{s[|s| - 2], Last(s)}}
  }

  lemma StepsSnoc(s: seq<NodeId>, x: NodeId)
    requires |s| > 0
    ensures Steps(s + [x]) == Steps(s) + multiset{{Last(s), x}}
  {
    assert DropLast(s + [x]) == s;
  }

  lemma {:induction false} StepsCons(x: NodeId, s: seq<NodeId>)
    requires |s| > 0
    ensures Steps([x] + s) == Steps(s) + multiset{{x, s[0]}}
  {
    if |s| > 1 {
      var t, s0 := [x] + s, DropLast(s);
      StepsCons(x, s0);
      assert DropLast(t) == [x] + s0;
      assert t[|t| - 2] == s[|s| - 2] && Last(t) == Last(s) && s0[0] == s[0];
      var last := multiset{{s[|s| - 2], Last(s)}};
      assert Steps(t) == Steps([x] + s0) + last;
      assert Steps(s) == Steps(s0) + last;
    } else {
      assert [x] + s == [x, s[0]];
    }
  }

  /** A walk has one step fewer than it has nodes. */
  lemma {:induction false} StepsSize(s: seq<NodeId>)
    requires |s| > 0
    ensures |Steps(s)| == |s| - 1
  {
    if |s| > 1 {
      StepsSize(DropLast(s));
    }
  }

  /** Walking backwards takes the same steps. */
  lemma {:induction false} StepsReverse(s: seq<NodeId>)
    ensures Steps(Reverse(s)) == Steps(s)
  {
    if |s| > 1 {
      var t := DropLast(s);
      StepsReverse(t);
      StepsCons(Last(s), Reverse(t));
      assert {Last(s), Reverse(t)[0]} == {s[|s| - 2], Last(s)};
    }
  }

  /** When every step is an input edge's endpoint pair, consecutive nodes are joined. */
  lemma {:induction false} StepsJoined(edges: seq<Edge>, s: seq<NodeId>)
    requires Steps(s) <= PairsOf(edges)
    ensures forall i | 0 <= i < |s| - 1 :: Joined(edges, s[i], s[i + 1])
  {
    if |s| > 1 {
      var t := DropLast(s);
      StepsJoined(edges, t);
      PairsOfJoined(edges, s[|s| - 2], Last(s));
      forall i | 0 <= i < |s| - 1 ensures Joined(edges, s[i], s[i + 1]) {
        if i < |s| - 2 {
          assert s[i] == t[i] && s[i + 1] == t[i + 1];
        }
      }
    }
  }

  // ---------------------------------------------------------------------
  // Unordered pairs

  lemma SamePair(x: NodeId, y: NodeId, u: NodeId, v: NodeId)
    requires (x == u && y == v) || (x == v && y == u)
    ensures {x, y} == {u, v}
  {
  }

  lemma PairIsNotLoop(x: NodeId, y: NodeId, u: NodeId)
    requires x != y
    ensures {x, y} != {u}
  {
    assert x in {x, y} && y in {x, y};
  }

  lemma LoopIsNotPair(x: NodeId, u: NodeId, v: NodeId)
    requires u != v
    ensures {x} != {u, v}
  {
    assert u in {u, v} && v in {u, v};
  }

  // ---------------------------------------------------------------------
  // The invariant

  /** The lists hold exactly the pairs of the pool: y once per pair {x, y}, x twice per self-loop {x}. */
  ghost predicate Exact(g: Adjacency, pool: multiset<set<NodeId>>)
  {
    && (forall x, y | x in g && y in g && x != y :: multiset(g[x])[y] == pool[{x, y}])
    && (forall x | x in g :: multiset(g[x])[x] == 2 * pool[{x}])
  }

  /** The nodes with an odd number of entries are exactly a and b, or none when a == b. */
  ghost predicate OddAt(g: Adjacency, a: NodeId, b: NodeId)
  {
    forall x | x in g :: |g[x]| % 2 == 1 <==> ((x == a) != (x == b))
  }

  /** The step still owed between j and the last output node, while the stack is not empty. */
  function Owed(stack: seq<NodeId>, circuit: seq<NodeId>, j: NodeId): multiset<set<NodeId>>
  {
    if |stack| > 0 && |circuit| > 0 then multiset{{j, Last(circuit)}} else multiset{}
  }

  /**
   The state of the corrected search from start: the lists g, the stack and
   the output; j is the node at which the current run of pushes began and
   pool holds the edges not yet traversed.
   */
  ghost predicate Tour(edges: seq<Edge>, g: Adjacency, stack: seq<NodeId>, circuit: seq<NodeId>,
                       start: NodeId, j: NodeId, pool: multiset<set<NodeId>>)
  {
    && Closed(Walker(g, stack, circuit))
    && Exact(g, pool)
    && Size(g) == 2 * |pool|
    && (|stack| > 0 ==> OddAt(g, Last(stack), j))
    && (circuit == [] ==> j == start)
    && (circuit != [] ==> circuit[0] == start)
    && Steps(stack) + Steps(circuit) + Owed(stack, circuit, j) + pool == PairsOf(edges)
  }

  /** Where the run of pushes begins after one pass. */
  function NextStart(w: Walker, j: NodeId): NodeId
    requires |w.stack| > 0
  {
    if CanPush(w) || |w.stack| == 1 then j else w.stack[|w.stack| - 2]
  }

  /** The untraversed edges after one pass. */
  function NextPool(w: Walker, pool: multiset<set<NodeId>>): multiset<set<NodeId>>
    requires |w.stack| > 0
  {
    if CanPush(w) then pool - multiset{{Last(w.stack), Next(w)}} else pool
  }

  // ---------------------------------------------------------------------
  // A push

  /** The exact effect on the lists of traversing {u, v} with the corrected removal. */
  ghost predicate Traversed(g: Adjacency, g': Adjacency, u: NodeId, v: NodeId)
  {
    && g'.Keys == g.Keys && u in g && v in g
    && (forall x | x in g && x != u && x != v :: g'[x] == g[x])
    && (u != v ==> && (forall y :: multiset(g'[u])[y] + (if y == v then 1 else 0) == multiset(g[u])[y])
                   && (forall y :: multiset(g'[v])[y] + (if y == u then 1 else 0) == multiset(g[v])[y])
                   && |g'[u]| + 1 == |g[u]| && |g'[v]| + 1 == |g[v]|)
    && (u == v ==> && (forall y :: multiset(g'[u])[y] + (if y == u then 2 else 0) == multiset(g[u])[y])
                   && |g'[u]| + 2 == |g[u]|)
  }

  /** A push from u to a different node v takes one v from u's list and one u from v's. */
  lemma PushDistinct(w: Walker, pool: multiset<set<NodeId>>)
    requires Closed(w) && |w.stack| > 0 && CanPush(w) && Exact(w.graph, pool)
    requires Last(w.stack) != Next(w)
    ensures Traversed(w.graph, Step(w, OneCopy).graph, Last(w.stack), Next(w))
    ensures {Last(w.stack), Next(w)} in pool
  {
    var g, u, v := w.graph, Last(w.stack), Next(w);
    var list := g[u];
    assert list == DropLast(list) + [v];
    assert multiset(list) == multiset(DropLast(list)) + multiset{v};
    var g1 := g[u := DropLast(list)];
    assert g1[v] == g[v];
    SamePair(v, u, u, v);
    assert multiset(g[v])[u] == pool[{u, v}] == multiset(g[u])[v];
    assert u in g[v];
  }

  /** A push along a self-loop at u takes two entries u from u's list. */
  lemma PushLoop(w: Walker, pool: multiset<set<NodeId>>)
    requires Closed(w) && |w.stack| > 0 && CanPush(w) && Exact(w.graph, pool)
    requires Last(w.stack) == Next(w)
    ensures Traversed(w.graph, Step(w, OneCopy).graph, Last(w.stack), Next(w))
    ensures {Last(w.stack), Next(w)} in pool
  {
    var g, u := w.graph, Last(w.stack);
    var list := g[u];
    assert list == DropLast(list) + [u];
    assert multiset(list) == multiset(DropLast(list)) + multiset{u};
    assert multiset(list)[u] == 2 * pool[{u}];
    assert u in DropLast(list);
    assert {u, u} == {u};
  }

  lemma TraversedPair(g: Adjacency, g': Adjacency, u: NodeId, v: NodeId, pool: multiset<set<NodeId>>,
                      x: NodeId, y: NodeId)
    requires Traversed(g, g', u, v) && {u, v} in pool
    requires x in g && y in g && x != y && multiset(g[x])[y] == pool[{x, y}]
    ensures multiset(g'[x])[y] == (pool - multiset{{u, v}})[{x, y}]
  {
    if (x == u && y == v) || (x == v && y == u) {
      SamePair(x, y, u, v);
    } else if u == v {
      PairIsNotLoop(x, y, u);
      assert {u, v} == {u};
    } else {
      PairsDiffer(x, y, u, v);
    }
  }

  lemma TraversedLoop(g: Adjacency, g': Adjacency, u: NodeId, v: NodeId, pool: multiset<set<NodeId>>,
                      x: NodeId)
    requires Traversed(g, g', u, v) && {u, v} in pool
    requires x in g && multiset(g[x])[x] == 2 * pool[{x}]
    ensures multiset(g'[x])[x] == 2 * (pool - multiset{{u, v}})[{x}]
  {
    if u == v {
      assert {u, v} == {u};
    } else {
      LoopIsNotPair(x, u, v);
    }
  }

  lemma TraversedExact(g: Adjacency, g': Adjacency, u: NodeId, v: NodeId, pool: multiset<set<NodeId>>)
    requires Exact(g, pool) && Traversed(g, g', u, v) && {u, v} in pool
    ensures Exact(g', pool - multiset{{u, v}})
  {
    var p' := pool - multiset{{u, v}};
    forall x, y | x in g' && y in g' && x != y ensures multiset(g'[x])[y] == p'[{x, y}] {
      TraversedPair(g, g', u, v, pool, x, y);
    }
    forall x | x in g' ensures multiset(g'[x])[x] == 2 * p'[{x}] {
      TraversedLoop(g, g', u, v, pool, x);
    }
  }

  lemma TraversedSize(g: Adjacency, g': Adjacency, u: NodeId, v: NodeId)
    requires Traversed(g, g', u, v)
    ensures Size(g') + 2 == Size(g)
  {
    var g1 := g[u := g'[u]];
    SizeUpdate(g, u, g'[u]);
    SizeUpdate(g1, v, g'[v]);
    assert g1[v := g'[v]] == g';
  }

  lemma TraversedOdd(g: Adjacency, g': Adjacency, u: NodeId, v: NodeId, j: NodeId)
    requires Traversed(g, g', u, v) && OddAt(g, u, j)
    ensures OddAt(g', v, j)
  {
    forall x | x in g' ensures |g'[x]| % 2 == 1 <==> ((x == v) != (x == j)) {
      TraversedLength(g, g', u, v, x);
      OddArith(|g[x]|, |g'[x]|, x == u, x == v, x == j);
    }
  }

  /** The new length of x's list after traversing {u, v}. */
  lemma TraversedLength(g: Adjacency, g': Adjacency, u: NodeId, v: NodeId, x: NodeId)
    requires Traversed(g, g', u, v) && x in g'
    ensures x in g
    ensures |g'[x]| + (if x == u then 1 else 0) + (if x == v then 1 else 0) == |g[x]|
  {
    if x != u && x != v {
      assert g'[x] == g[x];
    }
  }

  lemma OddArith(n: nat, n': nat, isU: bool, isV: bool, isJ: bool)
    requires n' + (if isU then 1 else 0) + (if isV then 1 else 0) == n
    requires n % 2 == 1 <==> (isU != isJ)
    ensures n' % 2 == 1 <==> (isV != isJ)
  {
  }

  /** Taking x out of the pool and adding it as a stack step keeps the account balanced. */
  lemma MoveToStack(a: multiset<set<NodeId>>, b: multiset<set<NodeId>>, pool: multiset<set<NodeId>>, x: set<NodeId>)
    requires x in pool
    ensures (a + multiset{x}) + b + (pool - multiset{x}) == a + b + pool
  {
  }

  lemma PushTour(edges: seq<Edge>, g: Adjacency, g': Adjacency, stack: seq<NodeId>, circuit: seq<NodeId>,
                 v: NodeId, start: NodeId, j: NodeId, pool: multiset<set<NodeId>>)
    requires Tour(edges, g, stack, circuit, start, j, pool) && |stack| > 0
    requires Traversed(g, g', Last(stack), v) && {Last(stack), v} in pool
    requires Closed(Walker(g', stack + [v], circuit))
    ensures Tour(edges, g', stack + [v], circuit, start, j, pool - multiset{{Last(stack), v}})
  {
    var u := Last(stack);
    TraversedExact(g, g', u, v, pool);
    TraversedSize(g, g', u, v);
    TraversedOdd(g, g', u, v, j);
    PushSteps(edges, stack, circuit, v, j, pool);
    assert Last(stack + [v]) == v;
  }

  /** A push moves the traversed pair from the pool to the stack's steps. */
  lemma PushSteps(edges: seq<Edge>, stack: seq<NodeId>, circuit: seq<NodeId>, v: NodeId, j: NodeId,
                  pool: multiset<set<NodeId>>)
    requires |stack| > 0 && {Last(stack), v} in pool
    requires Steps(stack) + Steps(circuit) + Owed(stack, circuit, j) + pool == PairsOf(edges)
    ensures Steps(stack + [v]) + Steps(circuit) + Owed(stack + [v], circuit, j)
          + (pool - multiset{{Last(stack), v}}) == PairsOf(edges)
  {
    StepsSnoc(stack, v);
    assert Owed(stack + [v], circuit, j) == Owed(stack, circuit, j);
    MoveToStack(Steps(stack), Steps(circuit) + Owed(stack, circuit, j), pool, {Last(stack), v});
  }

  // ---------------------------------------------------------------------
  // A pop

  /** A node is popped only where the run of pushes began. */
  lemma PopAtStart(g: Adjacency, u: NodeId, j: NodeId)
    requires u in g && |g[u]| == 0 && OddAt(g, u, j)
    ensures u == j
  {
  }

  /** Moving the owed step to the output and the stack's last step to the owed one keeps the account. */
  lemma Rearrange(a: multiset<set<NodeId>>, b: multiset<set<NodeId>>, x: multiset<set<NodeId>>,
                  y: multiset<set<NodeId>>, pool: multiset<set<NodeId>>)
    ensures (a + x) + b + y + pool == a + (b + y) + x + pool
  {
  }

  lemma PopSteps(edges: seq<Edge>, stack: seq<NodeId>, circuit: seq<NodeId>, j: NodeId, j': NodeId,
                 pool: multiset<set<NodeId>>)
    requires |stack| > 0 && Last(stack) == j
    requires j' == if |stack| == 1 then j else stack[|stack| - 2]
    requires Steps(stack) + Steps(circuit) + Owed(stack, circuit, j) + pool == PairsOf(edges)
    ensures var u := Last(stack);
      Steps(DropLast(stack)) + Steps(circuit + [u]) + Owed(DropLast(stack), circuit + [u], j') + pool == PairsOf(edges)
  {
    var u := Last(stack);
    var s0 := DropLast(stack);
    var oldOwed := Owed(stack, circuit, j);
    var newOwed := Owed(s0, circuit + [u], j');
    PopOutput(stack, circuit, j);
    PopStack(stack, circuit, j');
    Rearrange(Steps(s0), Steps(circuit), newOwed, oldOwed, pool);
  }

  lemma PopOutput(stack: seq<NodeId>, circuit: seq<NodeId>, j: NodeId)
    requires |stack| > 0 && Last(stack) == j
    ensures Steps(circuit + [j]) == Steps(circuit) + Owed(stack, circuit, j)
  {
    if |circuit| > 0 {
      StepsSnoc(circuit, j);
      SamePair(j, Last(circuit), Last(circuit), j);
    } else {
      assert Steps(circuit + [j]) == multiset{};
    }
  }

  lemma PopStack(stack: seq<NodeId>, circuit: seq<NodeId>, j': NodeId)
    requires |stack| > 0
    requires |stack| > 1 ==> j' == stack[|stack| - 2]
    ensures var u := Last(stack);
      Steps(stack) == Steps(DropLast(stack)) + Owed(DropLast(stack), circuit + [u], j')
  {
    var u, s0 := Last(stack), DropLast(stack);
    if |s0| > 0 {
      calc {
        Steps(stack);
      == { assert stack == s0 + [u]; StepsSnoc(s0, u); }
        Steps(s0) + multiset{{Last(s0), u}};
      == { assert Last(circuit + [u]) == u; }
        Steps(s0) + Owed(s0, circuit + [u], j');
      }
    }
  }

  lemma PopTour(edges: seq<Edge>, g: Adjacency, stack: seq<NodeId>, circuit: seq<NodeId>,
                start: NodeId, j: NodeId, j': NodeId, pool: multiset<set<NodeId>>)
    requires Tour(edges, g, stack, circuit, start, j, pool) && |stack| > 0
    requires Last(stack) in g && |g[Last(stack)]| == 0
    requires j' == if |stack| == 1 then j else stack[|stack| - 2]
    requires Closed(Walker(g, DropLast(stack), circuit + [Last(stack)]))
    ensures Tour(edges, g, DropLast(stack), circuit + [Last(stack)], start, j', pool)
  {
    var u, s0, c' := Last(stack), DropLast(stack), circuit + [Last(stack)];
    PopAtStart(g, u, j);
    PopSteps(edges, stack, circuit, j, j', pool);
    if |s0| > 0 {
      assert Last(s0) == j';
      AllEven(g, u, j');
    }
    assert c'[0] == start by {
      if circuit != [] {
        assert c'[0] == circuit[0];
      }
    }
  }

  /** With no odd node, the nodes with an odd number of entries are those of any pair c, c. */
  lemma AllEven(g: Adjacency, a: NodeId, c: NodeId)
    requires OddAt(g, a, a)
    ensures OddAt(g, c, c)
  {
  }

  lemma StepTour(edges: seq<Edge>, w: Walker, start: NodeId, j: NodeId, pool: multiset<set<NodeId>>)
    requires Tour(edges, w.graph, w.stack, w.circuit, start, j, pool) && |w.stack| > 0
    ensures var w' := Step(w, OneCopy);
      Tour(edges, w'.graph, w'.stack, w'.circuit, start, NextStart(w, j), NextPool(w, pool))
  {
    var w' := Step(w, OneCopy);
    if CanPush(w) {
      if Last(w.stack) != Next(w) {
        PushDistinct(w, pool);
      } else {
        PushLoop(w, pool);
      }
      assert w' == Walker(w'.graph, w.stack + [Next(w)], w.circuit);
      PushTour(edges, w.graph, w'.graph, w.stack, w.circuit, Next(w), start, j, pool);
    } else {
      assert w' == Walker(w.graph, DropLast(w.stack), w.circuit + [Last(w.stack)]);
      PopTour(edges, w.graph, w.stack, w.circuit, start, j, NextStart(w, j), pool);
    }
  }

  // ---------------------------------------------------------------------
  // The whole run

  /**
   From a Tour state the run ends with an output that starts at start, whose
   steps are endpoint pairs of distinct edges, and whose untraversed edges
   are what the lists still hold.
   */
  lemma {:induction false} RunTour(edges: seq<Edge>, w: Walker, start: NodeId, j: NodeId, pool: multiset<set<NodeId>>)
    requires Tour(edges, w.graph, w.stack, w.circuit, start, j, pool)
    ensures var r := Run(w, OneCopy);
      && (r.circuit != [] ==> r.circuit[0] == start)
      && Steps(r.circuit) <= PairsOf(edges)
      && 2 * |Steps(r.circuit)| + Size(r.graph) == 2 * |PairsOf(edges)|
    decreases Measure(w)
  {
    if |w.stack| == 0 {
      assert Steps(w.stack) == multiset{};
    } else {
      StepDecreases(w, OneCopy);
      StepTour(edges, w, start, j, pool);
      RunTour(edges, Step(w, OneCopy), start, NextStart(w, j), NextPool(w, pool));
    }
  }

  lemma StartExact(edges: seq<Edge>)
    ensures Exact(AdjacencyOf(edges), PairsOf(edges))
  {
    var g := AdjacencyOf(edges);
    forall x, y | x in g && y in g && x != y ensures multiset(g[x])[y] == PairsOf(edges)[{x, y}] {
      AdjacencyCount(edges, x, y);
    }
    forall x | x in g ensures multiset(g[x])[x] == 2 * PairsOf(edges)[{x}] {
      AdjacencyCount(edges, x, x);
    }
  }

  lemma StartEven(edges: seq<Edge>, x: NodeId)
    requires forall x | x in Incidences(edges) :: Degree(edges, x) % 2 == 0
    ensures OddAt(AdjacencyOf(edges), x, x)
  {
    var g := AdjacencyOf(edges);
    forall y | y in g ensures |g[y]| % 2 == 0 {
      AdjacencyKeys(edges, y);
      AdjacencyDegree(edges, y);
    }
  }

  /** With every degree even, the search's initial state satisfies Tour. */
  lemma StartTour(edges: seq<Edge>)
    requires |edges| > 0
    requires forall x | x in Incidences(edges) :: Degree(edges, x) % 2 == 0
    ensures var w := Start(edges);
      Tour(edges, w.graph, w.stack, w.circuit, edges[0].source, edges[0].source, PairsOf(edges))
  {
    StartFacts(edges);
    StartExact(edges);
    StartEven(edges, edges[0].source);
    AdjacencySize(edges);
    PairsOfSize(edges);
  }

  /** The output of the corrected run from the first edge's source. */
  lemma CorrectedRun(edges: seq<Edge>)
    requires |edges| > 0
    requires forall x | x in Incidences(edges) :: Degree(edges, x) % 2 == 0
    ensures var r := Finish(edges, OneCopy);
      && |r.circuit| > 0 && r.circuit[0] == edges[0].source && Last(r.circuit) == edges[0].source
      && Steps(r.circuit) <= PairsOf(edges)
      && 2 * |Steps(r.circuit)| + Size(r.graph) == 2 * |edges|
  {
    StartFacts(edges);
    StartTour(edges);
    RunTour(edges, Start(edges), edges[0].source, edges[0].source, PairsOf(edges));
    RunLast(Start(edges), OneCopy);
    PairsOfSize(edges);
  }

  /**
   The corrected search on a graph whose nodes all have even degree returns
   a closed walk: it starts and ends at the first edge's source, each pair
   of consecutive ids is joined by an input edge, no edge is used twice,
   and it has one id more than there are edges exactly when no list entry
   is left over at the end.
   */
  lemma CorrectedCircuit(edges: seq<Edge>)
    requires |edges| > 0 && edges[0].source != ""
    requires forall x | x in Incidences(edges) :: Degree(edges, x) % 2 == 0
    ensures var ids := CircuitIds(edges, OneCopy);
      && |ids| > 0 && ids[0] == edges[0].source && Last(ids) == edges[0].source
      && (forall i | 0 <= i < |ids| - 1 :: Joined(edges, ids[i], ids[i + 1]))
      && Steps(ids) <= PairsOf(edges)
      && |ids| <= |edges| + 1
      && (|ids| == |edges| + 1 <==> Size(Finish(edges, OneCopy).graph) == 0)
  {
    StartFacts(edges);
    CorrectedRun(edges);
    var r := Run(Start(edges), OneCopy);
    var ids := Reverse(r.circuit);
    StepsReverse(r.circuit);
    StepsJoined(edges, ids);
    StepsSize(ids);
    assert ids[0] == Last(r.circuit);
    assert Last(ids) == r.circuit[0];
  }

  // ---------------------------------------------------------------------
  // The search as written, on graphs without parallel edges

  /** Every pair is left at most once among the untraversed edges. */
  ghost predicate AtMostOnce(pool: multiset<set<NodeId>>)
  {
    forall p :: pool[p] <= 1
  }

  /**
   With each pair left at most once, the top's neighbour appears at most once
   in the list that the removal filters, so `filter` takes out a single entry.
   */
  lemma SingleEntry(w: Walker, pool: multiset<set<NodeId>>)
    requires Closed(w) && |w.stack| > 0 && CanPush(w) && Exact(w.graph, pool) && AtMostOnce(pool)
    ensures var u, v := Last(w.stack), Next(w);
      multiset(w.graph[u := DropLast(w.graph[u])][v])[u] <= 1
  {
    var g, u, v := w.graph, Last(w.stack), Next(w);
    var g1 := g[u := DropLast(g[u])];
    if u != v {
      assert g1[v] == g[v];
      assert multiset(g[v])[u] == pool[{v, u}];
      assert pool[{v, u}] <= 1;
    } else {
      DropLastCounts(g[u]);
      assert multiset(g[u])[u] == 2 * pool[{u}];
      assert pool[{u}] <= 1;
    }
  }

  /** On such a state both removals make the same pass, and the pass keeps the lists exact. */
  lemma StepAgrees(w: Walker, pool: multiset<set<NodeId>>)
    requires Closed(w) && |w.stack| > 0 && Exact(w.graph, pool) && AtMostOnce(pool)
    ensures Step(w, AllCopies) == Step(w, OneCopy)
    ensures Exact(Step(w, OneCopy).graph, NextPool(w, pool))
    ensures AtMostOnce(NextPool(w, pool))
  {
    if CanPush(w) {
      var g, u, v := w.graph, Last(w.stack), Next(w);
      var g1 := g[u := DropLast(g[u])];
      SingleEntry(w, pool);
      WithoutSingle(g1[v], u);
      assert Remove(g1[v], u, AllCopies) == Remove(g1[v], u, OneCopy);
      if u != v {
        PushDistinct(w, pool);
      } else {
        PushLoop(w, pool);
      }
      TraversedExact(g, Step(w, OneCopy).graph, u, v, pool);
    }
  }

  /** From such a state both removals end in the same state. */
  lemma {:induction false} RunAgrees(w: Walker, pool: multiset<set<NodeId>>)
    requires Closed(w) && Exact(w.graph, pool) && AtMostOnce(pool)
    ensures Run(w, AllCopies) == Run(w, OneCopy)
    decreases Measure(w)
  {
    if |w.stack| > 0 {
      StepAgrees(w, pool);
      StepDecreases(w, OneCopy);
      RunAgrees(Step(w, OneCopy), NextPool(w, pool));
      RunStep(w, AllCopies);
      RunStep(w, OneCopy);
    }
  }

  /** Without parallel edges the search as written ends in the state of the corrected search. */
  lemma FinishAgrees(edges: seq<Edge>)
    requires |edges| > 0 && DistinctPairs(edges)
    ensures Finish(edges, AllCopies) == Finish(edges, OneCopy)
  {
    var w := Start(edges);
    assert Closed(w) by {
      StartFacts(edges);
    }
    assert Exact(w.graph, PairsOf(edges)) by {
      StartExact(edges);
    }
    PairsOnce(edges);
    RunAgrees(w, PairsOf(edges));
  }

  lemma PairsOnce(edges: seq<Edge>)
    requires DistinctPairs(edges)
    ensures AtMostOnce(PairsOf(edges))
  {
    forall p ensures PairsOf(edges)[p] <= 1 {
      DistinctPairsOnce(edges, p);
    }
  }

  /** Without parallel edges the search as written returns the ids of the corrected search. */
  lemma FilterAgrees(edges: seq<Edge>)
    requires DistinctPairs(edges)
    ensures CircuitIds(edges, AllCopies) == CircuitIds(edges, OneCopy)
  {
    if |edges| > 0 {
      FinishAgrees(edges);
    }
  }

  /**
   The search as written, on a graph without parallel edges whose degrees
   are all even, returns a closed walk from the first edge's source whose
   consecutive ids are joined by edges and which uses no edge twice.
   */
  lemma AsWrittenCircuit(edges: seq<Edge>)
    requires |edges| > 0 && edges[0].source != ""
    requires forall x | x in Incidences(edges) :: Degree(edges, x) % 2 == 0
    requires DistinctPairs(edges)
    ensures var ids := CircuitIds(edges, AllCopies);
      && |ids| > 0 && ids[0] == edges[0].source && Last(ids) == edges[0].source
      && (forall i | 0 <= i < |ids| - 1 :: Joined(edges, ids[i], ids[i + 1]))
      && Steps(ids) <= PairsOf(edges)
      && |ids| <= |edges| + 1
      && (|ids| == |edges| + 1 <==> Size(Finish(edges, AllCopies).graph) == 0)
  {
    FilterAgrees(edges);
    FinishAgrees(edges);
    CorrectedCircuit(edges);
  }
}
