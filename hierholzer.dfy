/**
 The circuit search (findEulerianCircuit): an iterative Hierholzer walk over
 the adjacency dictionary with an explicit stack, which moves a node to the
 output when it has no neighbours left, and whose output is reversed and
 translated to labels.

 The loop is modelled twice: as the state machine Step/Run over a Walker
 value, which functions and lemmas can use, and as the imperative method
 Traverse, whose loop is proved to compute Run; FindEulerianCircuit calls
 it between building the dictionary and translating the ids to labels.

 The way the reverse entry of a traversed edge leaves the neighbour's list
 is a parameter: AllCopies is the editor's `filter`, which drops every
 entry equal to the current node; OneCopy drops a single entry and is the
 corrected variant studied in module Corrected.
 */
module Hierholzer {
  import opened Graph

  datatype Removal = AllCopies | OneCopy

  /** `s.filter(n => n !== u)` */
  function Without(s: seq<NodeId>, u: NodeId): (r: seq<NodeId>)
    ensures forall y :: multiset(r)[y] == if y == u then 0 else multiset(s)[y]
    ensures |r| <= |s|
    ensures u !in s ==> r == s
  {
    if s == [] then []
    else
      assert s == [s[0]] + s[1..];
      (if s[0] == u then [] else [s[0]]) + Without(s[1..], u)
  }

  /** Drops the first entry equal to u, if there is one. */
  function RemoveOne(s: seq<NodeId>, u: NodeId): (r: seq<NodeId>)
    ensures multiset(r) == multiset(s) - multiset{u}
    ensures |r| == if u in s then |s| - 1 else |s|
  {
    if s == [] then []
    else
      assert s == [s[0]] + s[1..];
      if s[0] == u then s[1..] else [s[0]] + RemoveOne(s[1..], u)
  }

  /** On a list holding u at most once, `filter` and the one-copy removal agree. */
  lemma {:induction false} WithoutSingle(s: seq<NodeId>, u: NodeId)
    requires multiset(s)[u] <= 1
    ensures Without(s, u) == RemoveOne(s, u)
  {
    if s != [] {
      assert s == [s[0]] + s[1..];
      assert multiset(s) == multiset{s[0]} + multiset(s[1..]);
      if s[0] != u {
        WithoutSingle(s[1..], u);
      } else {
        assert u !in s[1..];
      }
    }
  }

  function Remove(s: seq<NodeId>, u: NodeId, mode: Removal): (r: seq<NodeId>)
    ensures forall y | y != u :: multiset(r)[y] == multiset(s)[y]
    ensures multiset(r)[u] <= if multiset(s)[u] > 0 then multiset(s)[u] - 1 else 0
    ensures |r| <= |s|
  {
    match mode
    case AllCopies => Without(s, u)
    case OneCopy => RemoveOne(s, u)
  }

  /** The loop's state: the dictionary of neighbour lists, the stack and the output, in push order. */
  datatype Walker = Walker(graph: Adjacency, stack: seq<NodeId>, circuit: seq<NodeId>)

  /** Every node the state mentions is a key of the dictionary. */
  ghost predicate Closed(w: Walker)
  {
    && (forall x | x in w.graph :: forall y | y in w.graph[x] :: y in w.graph)
    && (forall i | 0 <= i < |w.stack| :: w.stack[i] in w.graph)
    && (forall i | 0 <= i < |w.circuit| :: w.circuit[i] in w.graph)
  }

  /** `graph[u]?.length` for the top u of the stack. */
  predicate CanPush(w: Walker)
    requires |w.stack| > 0
  {
    Last(w.stack) in w.graph && |w.graph[Last(w.stack)]| > 0
  }

  /** The neighbour that a push takes: the last entry of the top's list. */
  function Next(w: Walker): NodeId
    requires |w.stack| > 0 && CanPush(w)
  {
    Last(w.graph[Last(w.stack)])
  }

  /**
   One pass of the loop. With u on top: if u still has neighbours, pop one
   neighbour v from u's list, remove u from v's list and push v; otherwise
   pop u off the stack and append it to the output.
   */
  function Step(w: Walker, mode: Removal): (w': Walker)
    requires Closed(w) && |w.stack| > 0
    ensures Closed(w') && w'.graph.Keys == w.graph.Keys
    ensures w.circuit <= w'.circuit
  {
    var u := Last(w.stack);
    if CanPush(w) then
      var v := Next(w);
      var g1 := w.graph[u := DropLast(w.graph[u])];
      var rest := Remove(g1[v], u, mode);
      assert forall y | y in rest :: y in g1[v] by {
        forall y | y in rest ensures y in g1[v] {
          assert multiset(rest)[y] > 0;
        }
      }
      Walker(g1[v := rest], w.stack + [v], w.circuit)
    else
      Walker(w.graph, DropLast(w.stack), w.circuit + [u])
  }

  /** The loop's variant: twice the number of list entries, plus the stack height. */
  ghost function Measure(w: Walker): nat
  {
    2 * Size(w.graph) + |w.stack|
  }

  /**
   Each pass either takes at least one entry out of the lists and pushes one
   node, or pops one node: the variant strictly decreases, so the loop ends.
   */
  lemma StepDecreases(w: Walker, mode: Removal)
    requires Closed(w) && |w.stack| > 0
    ensures Measure(Step(w, mode)) < Measure(w)
  {
    if CanPush(w) {
      var u, v := Last(w.stack), Next(w);
      var g1 := w.graph[u := DropLast(w.graph[u])];
      SizeUpdate(w.graph, u, DropLast(w.graph[u]));
      SizeUpdate(g1, v, Remove(g1[v], u, mode));
    }
  }

  /** One pass does not change where the loop ends. */
  lemma RunStep(w: Walker, mode: Removal)
    requires Closed(w) && |w.stack| > 0
    ensures Run(Step(w, mode), mode) == Run(w, mode)
  {
  }

  /** The loop run to the end: the state when the stack is empty. */
  function Run(w: Walker, mode: Removal): (r: Walker)
    requires Closed(w)
    ensures Closed(r) && r.stack == [] && r.graph.Keys == w.graph.Keys
    ensures w.circuit <= r.circuit
    decreases Measure(w)
  {
    if |w.stack| == 0 then w
    else
      StepDecreases(w, mode);
      Run(Step(w, mode), mode)
  }

  /** The number of pushes the loop performs from w on. */
  ghost function Pushes(w: Walker, mode: Removal): nat
    requires Closed(w)
    decreases Measure(w)
  {
    if |w.stack| == 0 then 0
    else
      StepDecreases(w, mode);
      (if CanPush(w) then 1 else 0) + Pushes(Step(w, mode), mode)
  }

  function Reverse(s: seq<NodeId>): (r: seq<NodeId>)
    ensures |r| == |s|
    ensures forall i | 0 <= i < |s| :: r[i] == s[|s| - 1 - i]
  {
    if s == [] then [] else [Last(s)] + Reverse(DropLast(s))
  }

  // ---------------------------------------------------------------------
  // What the loop keeps true, step by step

  /** Every neighbour in every list is joined to the list's owner by an input edge. */
  ghost predicate Linked(edges: seq<Edge>, g: Adjacency)
  {
    forall x | x in g :: forall y | y in g[x] :: Joined(edges, x, y)
  }

  /** Every node after the first is joined by an input edge to some node before it. */
  ghost predicate Reached(edges: seq<Edge>, s: seq<NodeId>)
  {
    forall i | 0 < i < |s| :: JoinedBefore(edges, s, i)
  }

  /** s[i] is joined by an input edge to some node before it. */
  ghost predicate JoinedBefore(edges: seq<Edge>, s: seq<NodeId>, i: nat)
    requires i < |s|
  {
    exists j | 0 <= j < i :: Joined(edges, s[j], s[i])
  }

  /**
   Per unordered pair of nodes, the lists hold no more entries than a pool of
   endpoint pairs allows: x's list holds y at most pool[{x, y}] times, and
   holds x itself at most 2 * pool[{x}] times.
   */
  ghost predicate Bounded(g: Adjacency, pool: multiset<set<NodeId>>)
  {
    && (forall x, y | x in g && y in g && x != y :: multiset(g[x])[y] <= pool[{x, y}])
    && (forall x | x in g :: (multiset(g[x])[x] + 1) / 2 <= pool[{x}])
  }

  /** The stack on top of the reversed output: the walk the final output will extend. */
  function Trail(w: Walker): seq<NodeId>
  {
    w.stack + Reverse(w.circuit)
  }

  lemma StepLinked(edges: seq<Edge>, w: Walker, mode: Removal)
    requires Closed(w) && |w.stack| > 0 && Linked(edges, w.graph)
    ensures Linked(edges, Step(w, mode).graph)
    ensures CanPush(w) ==> Joined(edges, Last(w.stack), Next(w))
  {
    if CanPush(w) {
      var g, u, v := w.graph, Last(w.stack), Next(w);
      var g1 := g[u := DropLast(g[u])];
      assert Step(w, mode).graph == g1[v := Remove(g1[v], u, mode)];
      assert g[u] == DropLast(g[u]) + [v];
      assert v in g[u];
      PushLinked(edges, g, u, v, mode);
    }
  }

  /** A push keeps every list entry an input-edge neighbour of the list's owner. */
  lemma PushLinked(edges: seq<Edge>, g: Adjacency, u: NodeId, v: NodeId, mode: Removal)
    requires u in g && v in g && |g[u]| > 0 && Linked(edges, g)
    ensures var g1 := g[u := DropLast(g[u])];
      Linked(edges, g1[v := Remove(g1[v], u, mode)])
  {
    var g1 := g[u := DropLast(g[u])];
    var g' := g1[v := Remove(g1[v], u, mode)];
    forall x | x in g' ensures forall y | y in g'[x] :: Joined(edges, x, y) {
      forall y | y in g'[x] ensures Joined(edges, x, y) {
        PushKeepsEntry(g, u, v, mode, x, y);
      }
    }
  }

  /** After a push from u to v, every list entry was already an entry of the same list. */
  lemma PushKeepsEntry(g: Adjacency, u: NodeId, v: NodeId, mode: Removal, x: NodeId, y: NodeId)
    requires u in g && v in g && |g[u]| > 0
    requires var g1 := g[u := DropLast(g[u])];
      x in g1[v := Remove(g1[v], u, mode)] && y in g1[v := Remove(g1[v], u, mode)][x]
    ensures x in g && y in g[x]
  {
    var list := g[u];
    assert list == DropLast(list) + [Last(list)];
    var g1 := g[u := DropLast(list)];
    var g' := g1[v := Remove(g1[v], u, mode)];
    assert multiset(g'[x])[y] > 0;
    if x == v {
      assert multiset(g1[v])[y] > 0;
      assert y in g1[v];
    }
  }

  /** Inserting a node right after the end of a, next to a node it is joined to, keeps Reached. */
  lemma ReachedInsert(edges: seq<Edge>, a: seq<NodeId>, b: seq<NodeId>, v: NodeId)
    requires |a| > 0 && Reached(edges, a + b) && Joined(edges, Last(a), v)
    ensures Reached(edges, a + [v] + b)
  {
    var s, s' := a + b, a + [v] + b;
    var p := |a|;
    forall i | 0 < i < |s'| ensures JoinedBefore(edges, s', i) {
      if i < p {
        assert JoinedBefore(edges, s, i);
        var j :| 0 <= j < i && Joined(edges, s[j], s[i]);
        assert s'[j] == s[j] && s'[i] == s[i];
      } else if i == p {
        assert s'[p - 1] == Last(a) && s'[p] == v;
      } else {
        assert JoinedBefore(edges, s, i - 1);
        var j :| 0 <= j < i - 1 && Joined(edges, s[j], s[i - 1]);
        assert s'[i] == s[i - 1];
        if j < p {
          assert s'[j] == s[j];
        } else {
          assert s'[j + 1] == s[j];
        }
      }
    }
  }

  lemma StepTrail(w: Walker, mode: Removal)
    requires Closed(w) && |w.stack| > 0
    ensures CanPush(w) ==> Trail(Step(w, mode)) == w.stack + [Next(w)] + Reverse(w.circuit)
    ensures !CanPush(w) ==> Trail(Step(w, mode)) == Trail(w)
  {
    if !CanPush(w) {
      var u := Last(w.stack);
      assert DropLast(w.circuit + [u]) == w.circuit;
      assert Reverse(w.circuit + [u]) == [u] + Reverse(w.circuit);
      assert w.stack == DropLast(w.stack) + [u];
    }
  }

  lemma StepReached(edges: seq<Edge>, w: Walker, mode: Removal)
    requires Closed(w) && |w.stack| > 0 && Linked(edges, w.graph) && Reached(edges, Trail(w))
    ensures Reached(edges, Trail(Step(w, mode)))
  {
    StepTrail(w, mode);
    if CanPush(w) {
      StepLinked(edges, w, mode);
      ReachedInsert(edges, w.stack, Reverse(w.circuit), Next(w));
    }
  }

  /** n - k, floored at zero. */
  function Dec(n: nat, k: nat): nat
  {
    if n >= k then n - k else 0
  }

  /** How a push from u to v changes the entry counts of the lists. */
  ghost predicate PushEffect(g: Adjacency, g': Adjacency, u: NodeId, v: NodeId)
  {
    && g'.Keys == g.Keys
    && (forall x | x in g && x != u && x != v :: g'[x] == g[x])
    && (u != v ==> u in g && v in g
                   && (forall y | y != v :: multiset(g'[u])[y] == multiset(g[u])[y])
                   && multiset(g'[u])[v] + 1 == multiset(g[u])[v]
                   && (forall y | y != u :: multiset(g'[v])[y] == multiset(g[v])[y])
                   && multiset(g'[v])[u] <= Dec(multiset(g[v])[u], 1))
    && (u == v ==> u in g
                   && (forall y | y != u :: multiset(g'[u])[y] == multiset(g[u])[y])
                   && multiset(g'[u])[u] <= Dec(multiset(g[u])[u], 2))
  }

  lemma StepPushEffect(w: Walker, mode: Removal)
    requires Closed(w) && |w.stack| > 0 && CanPush(w)
    ensures PushEffect(w.graph, Step(w, mode).graph, Last(w.stack), Next(w))
    ensures multiset(w.graph[Last(w.stack)])[Next(w)] > 0
  {
    var g, u, v := w.graph, Last(w.stack), Next(w);
    var list := g[u];
    assert list == DropLast(list) + [v];
    assert multiset(list) == multiset(DropLast(list)) + multiset{v};
    var g1 := g[u := DropLast(list)];
    assert Step(w, mode).graph == g1[v := Remove(g1[v], u, mode)];
    if u != v {
      PushEffectDistinct(g, u, v, mode);
    } else {
      PushEffectLoop(g, u, mode);
    }
  }

  lemma PushEffectDistinct(g: Adjacency, u: NodeId, v: NodeId, mode: Removal)
    requires u != v && u in g && v in g && |g[u]| > 0 && Last(g[u]) == v
    ensures var g1 := g[u := DropLast(g[u])];
            PushEffect(g, g1[v := Remove(g1[v], u, mode)], u, v)
  {
    var g1 := g[u := DropLast(g[u])];
    var g' := g1[v := Remove(g1[v], u, mode)];
    PushLists(g, u, v, mode);
    DropLastCounts(g[u]);
  }

  /** After a push between distinct nodes, u's list has lost its last entry, v's list is filtered, the rest is as it was. */
  lemma PushLists(g: Adjacency, u: NodeId, v: NodeId, mode: Removal)
    requires u != v && u in g && v in g && |g[u]| > 0
    ensures var g1 := g[u := DropLast(g[u])];
      var g' := g1[v := Remove(g1[v], u, mode)];
      && g'.Keys == g.Keys
      && (forall x | x in g && x != u && x != v :: g'[x] == g[x])
      && g'[u] == DropLast(g[u])
      && g'[v] == Remove(g[v], u, mode)
  {
  }

  lemma PushEffectLoop(g: Adjacency, u: NodeId, mode: Removal)
    requires u in g && |g[u]| > 0 && Last(g[u]) == u
    ensures var g1 := g[u := DropLast(g[u])];
            PushEffect(g, g1[u := Remove(g1[u], u, mode)], u, u)
  {
    DropLastCounts(g[u]);
  }

  /** Dropping the last entry lowers its count by one and keeps the others. */
  lemma DropLastCounts(list: seq<NodeId>)
    requires |list| > 0
    ensures forall y | y != Last(list) :: multiset(DropLast(list))[y] == multiset(list)[y]
    ensures multiset(DropLast(list))[Last(list)] + 1 == multiset(list)[Last(list)]
  {
    assert list == DropLast(list) + [Last(list)];
    assert multiset(list) == multiset(DropLast(list)) + multiset{Last(list)};
  }

  lemma PushBounded(g: Adjacency, g': Adjacency, u: NodeId, v: NodeId, pool: multiset<set<NodeId>>)
    requires Bounded(g, pool) && PushEffect(g, g', u, v) && multiset(g[u])[v] > 0
    ensures {u, v} in pool && Bounded(g', pool - multiset{{u, v}})
  {
    if u != v {
      assert multiset(g[u])[v] <= pool[{u, v}];
    } else {
      assert (multiset(g[u])[u] + 1) / 2 <= pool[{u}];
      assert {u, v} == {u};
    }
    var p' := pool - multiset{{u, v}};
    forall x, y | x in g' && y in g' && x != y ensures multiset(g'[x])[y] <= p'[{x, y}] {
      PushPairBound(g, g', u, v, pool, x, y);
    }
    forall x | x in g' ensures (multiset(g'[x])[x] + 1) / 2 <= p'[{x}] {
      PushSelfCount(g, g', u, v, x);
      PushLoopBound(g, g', u, v, pool, x);
    }
  }

  /** The count bound for two distinct nodes x and y after a push from u to v. */
  lemma PushPairBound(g: Adjacency, g': Adjacency, u: NodeId, v: NodeId, pool: multiset<set<NodeId>>,
                      x: NodeId, y: NodeId)
    requires Bounded(g, pool) && PushEffect(g, g', u, v) && multiset(g[u])[v] > 0
    requires x in g' && y in g' && x != y
    ensures multiset(g'[x])[y] <= (pool - multiset{{u, v}})[{x, y}]
  {
    assert multiset(g[x])[y] <= pool[{x, y}];
    if (x == u && y == v) || (x == v && y == u) {
      assert {x, y} == {u, v};
    } else {
      PairsDiffer(x, y, u, v);
    }
  }

  /** The count bound for the entries of x equal to x itself after a push from u to v. */
  lemma PushLoopBound(g: Adjacency, g': Adjacency, u: NodeId, v: NodeId, pool: multiset<set<NodeId>>,
                      x: NodeId)
    requires x in g && x in g'
    requires {u, v} in pool && (multiset(g[x])[x] + 1) / 2 <= pool[{x}]
    requires x == u && x == v ==> multiset(g'[x])[x] <= Dec(multiset(g[x])[x], 2)
    requires !(x == u && x == v) ==> multiset(g'[x])[x] == multiset(g[x])[x]
    ensures (multiset(g'[x])[x] + 1) / 2 <= (pool - multiset{{u, v}})[{x}]
  {
    var n, n' := multiset(g[x])[x], multiset(g'[x])[x];
    if u == v {
      assert {u, v} == {u};
    } else {
      assert {x} != {u, v} by {
        assert u in {u, v} && v in {u, v};
      }
    }
    LoopBoundArith(n, n', pool[{x}], if x == u && x == v then 1 else 0);
  }

  /** How many entries x a push from u to v leaves in x's own list. */
  lemma PushSelfCount(g: Adjacency, g': Adjacency, u: NodeId, v: NodeId, x: NodeId)
    requires PushEffect(g, g', u, v) && x in g'
    ensures x == u && x == v ==> multiset(g'[x])[x] <= Dec(multiset(g[x])[x], 2)
    ensures !(x == u && x == v) ==> multiset(g'[x])[x] == multiset(g[x])[x]
  {
    if x != u && x != v {
      assert g'[x] == g[x];
    }
  }

  lemma LoopBoundArith(n: nat, n': nat, p: nat, k: nat)
    requires k <= 1 && (n + 1) / 2 <= p
    requires k == 1 ==> n' <= Dec(n, 2) && p >= 1
    requires k == 0 ==> n' == n
    ensures (n' + 1) / 2 <= p - k
  {
  }

  lemma StepBounded(w: Walker, mode: Removal, pool: multiset<set<NodeId>>)
    requires Closed(w) && |w.stack| > 0 && Bounded(w.graph, pool)
    ensures CanPush(w) ==> {Last(w.stack), Next(w)} in pool
                           && Bounded(Step(w, mode).graph, pool - multiset{{Last(w.stack), Next(w)}})
    ensures !CanPush(w) ==> Bounded(Step(w, mode).graph, pool)
  {
    if CanPush(w) {
      StepPushEffect(w, mode);
      PushBounded(w.graph, Step(w, mode).graph, Last(w.stack), Next(w), pool);
    }
  }

  lemma PairsDiffer(x: NodeId, y: NodeId, u: NodeId, v: NodeId)
    requires x != y && !(x == u && y == v) && !(x == v && y == u)
    ensures {x, y} != {u, v}
  {
    assert x in {x, y} && y in {x, y};
  }

  // ---------------------------------------------------------------------
  // What the whole run guarantees

  /** The node at the bottom of the stack is the last one moved to the output. */
  lemma {:induction false} RunLast(w: Walker, mode: Removal)
    requires Closed(w) && |w.stack| > 0
    ensures |Run(w, mode).circuit| > 0 && Last(Run(w, mode).circuit) == w.stack[0]
    decreases Measure(w)
  {
    StepDecreases(w, mode);
    var w' := Step(w, mode);
    if |w'.stack| > 0 {
      RunLast(w', mode);
    }
  }

  /** The output gains exactly one node per node on the stack and one per push. */
  lemma {:induction false} RunLength(w: Walker, mode: Removal)
    requires Closed(w)
    ensures |Run(w, mode).circuit| == |w.circuit| + |w.stack| + Pushes(w, mode)
    decreases Measure(w)
  {
    if |w.stack| > 0 {
      StepDecreases(w, mode);
      RunLength(Step(w, mode), mode);
    }
  }

  /** Pushes consume the pool: at most |pool| pushes happen. */
  lemma {:induction false} RunBounded(w: Walker, mode: Removal, pool: multiset<set<NodeId>>)
    requires Closed(w) && Bounded(w.graph, pool)
    ensures Pushes(w, mode) <= |pool|
    decreases Measure(w)
  {
    if |w.stack| > 0 {
      StepDecreases(w, mode);
      StepBounded(w, mode, pool);
      if CanPush(w) {
        RunBounded(Step(w, mode), mode, pool - multiset{{Last(w.stack), Next(w)}});
      } else {
        RunBounded(Step(w, mode), mode, pool);
      }
    }
  }

  lemma {:induction false} RunReached(edges: seq<Edge>, w: Walker, mode: Removal)
    requires Closed(w) && Linked(edges, w.graph) && Reached(edges, Trail(w))
    ensures Reached(edges, Reverse(Run(w, mode).circuit))
    decreases Measure(w)
  {
    if |w.stack| == 0 {
      assert Trail(w) == Reverse(w.circuit);
    } else {
      StepDecreases(w, mode);
      StepLinked(edges, w, mode);
      StepReached(edges, w, mode);
      RunReached(edges, Step(w, mode), mode);
    }
  }

  // ---------------------------------------------------------------------
  // The search from the first edge's source

  /** The state before the loop: the full dictionary and the first edge's source on the stack. */
  function Start(edges: seq<Edge>): Walker
    requires |edges| > 0
  {
    Walker(AdjacencyOf(edges), [edges[0].source], [])
  }

  lemma StartFacts(edges: seq<Edge>)
    requires |edges| > 0
    ensures Closed(Start(edges))
    ensures Linked(edges, Start(edges).graph)
    ensures Bounded(Start(edges).graph, PairsOf(edges))
  {
    StartLinked(edges);
    StartBounded(edges);
    assert edges[0].source in AdjacencyOf(edges) by {
      assert edges[0].source in Ends(edges[0]);
      IncidencesMembers(edges, edges[0].source);
      AdjacencyKeys(edges, edges[0].source);
    }
  }

  lemma StartLinked(edges: seq<Edge>)
    ensures Linked(edges, AdjacencyOf(edges))
    ensures forall x | x in AdjacencyOf(edges) :: forall y | y in AdjacencyOf(edges)[x] :: y in AdjacencyOf(edges)
  {
    var g := AdjacencyOf(edges);
    forall x, y | x in g && y in g[x] ensures y in g && Joined(edges, x, y) {
      assert Get(g, x) == g[x];
      AdjacencyNeighbour(edges, x, y);
    }
  }

  lemma StartBounded(edges: seq<Edge>)
    ensures Bounded(AdjacencyOf(edges), PairsOf(edges))
  {
    var g := AdjacencyOf(edges);
    forall x, y | x in g && y in g && x != y ensures multiset(g[x])[y] <= PairsOf(edges)[{x, y}] {
      AdjacencyCount(edges, x, y);
    }
    forall x | x in g ensures (multiset(g[x])[x] + 1) / 2 <= PairsOf(edges)[{x}] {
      AdjacencyCount(edges, x, x);
    }
  }

  /** The state in which the search's loop ends. */
  function Finish(edges: seq<Edge>, mode: Removal): Walker
    requires |edges| > 0
  {
    StartFacts(edges);
    Run(Start(edges), mode)
  }

  /** The number of pushes the search performs. */
  ghost function PushCount(edges: seq<Edge>, mode: Removal): nat
    requires |edges| > 0
  {
    StartFacts(edges);
    Pushes(Start(edges), mode)
  }

  /**
   The node ids the search returns, before labelling: nothing when there is
   no first edge or its source id is falsy (the empty string), otherwise
   the output of the loop, reversed.
   */
  function CircuitIds(edges: seq<Edge>, mode: Removal): seq<NodeId>
  {
    if |edges| == 0 || edges[0].source == "" then [] else Reverse(Finish(edges, mode).circuit)
  }

  /**
   Shape of the search's result, for either removal policy: it starts at the
   first edge's source, has one id more than there were pushes and at most
   one more than there are edges, holds only edge endpoints, and every id
   after the first is joined by an input edge to an id before it.
   */
  lemma CircuitIdsShape(edges: seq<Edge>, mode: Removal)
    requires |edges| > 0 && edges[0].source != ""
    ensures var ids := CircuitIds(edges, mode);
      && |ids| == PushCount(edges, mode) + 1
      && ids[0] == edges[0].source
      && |ids| <= |edges| + 1
      && (forall i | 0 <= i < |ids| :: ids[i] in Incidences(edges))
      && Reached(edges, ids)
  {
    CircuitIdsLength(edges, mode);
    CircuitIdsEndpoints(edges, mode);
    CircuitIdsReached(edges, mode);
  }

  lemma CircuitIdsLength(edges: seq<Edge>, mode: Removal)
    requires |edges| > 0 && edges[0].source != ""
    ensures var ids := CircuitIds(edges, mode);
      && |ids| == PushCount(edges, mode) + 1
      && |ids| <= |edges| + 1
      && ids[0] == edges[0].source
  {
    StartFacts(edges);
    var w := Start(edges);
    RunLast(w, mode);
    RunLength(w, mode);
    RunBounded(w, mode, PairsOf(edges));
    PairsOfSize(edges);
  }

  lemma CircuitIdsEndpoints(edges: seq<Edge>, mode: Removal)
    requires |edges| > 0 && edges[0].source != ""
    ensures var ids := CircuitIds(edges, mode);
      forall i | 0 <= i < |ids| :: ids[i] in Incidences(edges)
  {
    StartFacts(edges);
    var w := Start(edges);
    var r := Run(w, mode);
    var ids := Reverse(r.circuit);
    forall i | 0 <= i < |ids| ensures ids[i] in Incidences(edges) {
      assert r.circuit[|ids| - 1 - i] in w.graph;
      AdjacencyKeys(edges, ids[i]);
    }
  }

  lemma CircuitIdsReached(edges: seq<Edge>, mode: Removal)
    requires |edges| > 0 && edges[0].source != ""
    ensures Reached(edges, CircuitIds(edges, mode))
  {
    StartFacts(edges);
    var w := Start(edges);
    assert Trail(w) == [edges[0].source];
    RunReached(edges, w, mode);
  }

  /** The search comes back empty exactly when there is no edge or the first edge's source is the empty id. */
  lemma CircuitIdsEmpty(edges: seq<Edge>, mode: Removal)
    ensures CircuitIds(edges, mode) == [] <==> (|edges| == 0 || edges[0].source == "")
  {
    if |edges| > 0 && edges[0].source != "" {
      CircuitIdsShape(edges, mode);
    }
  }

  // ---------------------------------------------------------------------
  // Labels

  /** The id-to-label dictionary; a later node with the same id overwrites an earlier one. */
  function LabelTable(nodes: seq<Node>): map<NodeId, string>
  {
    if nodes == [] then map[]
    else LabelTable(DropLast(nodes))[Last(nodes).id := Last(nodes).caption]
  }

  /** `nodeLabels[id]`: None stands for JavaScript's undefined. */
  function Lookup(table: map<NodeId, string>, x: NodeId): Option<string>
  {
    if x in table then Some(table[x]) else None
  }

  /** An id has a label exactly when it is listed, and its label is that of the last node carrying it. */
  lemma {:induction false} LabelTableLookup(nodes: seq<Node>, x: NodeId)
    ensures x in LabelTable(nodes) <==> x in Ids(nodes)
    ensures forall i | 0 <= i < |nodes| && nodes[i].id == x
                       && (forall j | i < j < |nodes| :: nodes[j].id != x) :: LabelTable(nodes)[x] == nodes[i].caption
  {
    if nodes != [] {
      var ns := DropLast(nodes);
      LabelTableLookup(ns, x);
      assert Ids(nodes) == Ids(ns) + {Last(nodes).id} by {
        assert forall i | 0 <= i < |ns| :: ns[i] == nodes[i];
      }
      forall i | 0 <= i < |nodes| && nodes[i].id == x && (forall j | i < j < |nodes| :: nodes[j].id != x)
        ensures LabelTable(nodes)[x] == nodes[i].caption
      {
        if i < |ns| {
          assert nodes[|ns|].id != x;
          assert ns[i] == nodes[i];
          assert forall j | i < j < |ns| :: ns[j] == nodes[j];
        }
      }
    }
  }

  function Labelled(nodes: seq<Node>, ids: seq<NodeId>): (labels: seq<Option<string>>)
  {
    seq(|ids|, i requires 0 <= i < |ids| => Lookup(LabelTable(nodes), ids[i]))
  }

  /** What the search returns: nothing without a first edge or without nodes, otherwise the labels of the ids. */
  function EulerianCircuit(edges: seq<Edge>, nodes: seq<Node>, mode: Removal): seq<Option<string>>
  {
    var ids := CircuitIds(edges, mode);
    if ids == [] || |nodes| == 0 then [] else Labelled(nodes, ids)
  }

  /**
   The search's result is empty exactly when there is no first edge, its
   source is the empty id, or there are no nodes; otherwise it holds at most
   one label more than there are edges and starts with the label of the
   first edge's source.
   */
  lemma EulerianCircuitShape(edges: seq<Edge>, nodes: seq<Node>, mode: Removal)
    ensures var labels := EulerianCircuit(edges, nodes, mode);
      && (labels == [] <==> (|edges| == 0 || edges[0].source == "" || |nodes| == 0))
      && |labels| <= |edges| + 1
      && (labels != [] ==> labels[0] == Lookup(LabelTable(nodes), edges[0].source))
  {
    CircuitIdsEmpty(edges, mode);
    if |edges| > 0 && edges[0].source != "" {
      CircuitIdsLength(edges, mode);
    }
  }

  // ---------------------------------------------------------------------
  // The imperative search

  /** Lines 29-36 of the search: one list per endpoint, each edge entered at both ends. */
  method BuildAdjacency(edges: seq<Edge>) returns (graph: Adjacency)
    ensures graph == AdjacencyOf(edges)
  {
    graph := map[];
    for k := 0 to |edges|
      invariant graph == AdjacencyOf(edges[..k])
    {
      assert DropLast(edges[..k + 1]) == edges[..k];
      var e := edges[k];
      if e.source !in graph { graph := graph[e.source := []]; }
      if e.target !in graph { graph := graph[e.target := []]; }
      graph := graph[e.source := graph[e.source] + [e.target]];
      graph := graph[e.target := graph[e.target] + [e.source]];
    }
    assert edges[..|edges|] == edges;
  }

  /** The stack loop from `current`: with the `filter` removal it computes Run's output. */
  method Traverse(graph0: Adjacency, current: NodeId) returns (circuit: seq<NodeId>)
    requires Closed(Walker(graph0, [current], []))
    ensures circuit == Run(Walker(graph0, [current], []), AllCopies).circuit
  {
    var graph := graph0;
    var stack := [current];
    circuit := [];
    while |stack| > 0
      invariant Closed(Walker(graph, stack, circuit))
      invariant Run(Walker(graph, stack, circuit), AllCopies) == Run(Walker(graph0, [current], []), AllCopies)
      decreases Measure(Walker(graph, stack, circuit))
    {
      ghost var w := Walker(graph, stack, circuit);
      StepDecreases(w, AllCopies);
      RunStep(w, AllCopies);
      ghost var w' := Step(w, AllCopies);
      var u := stack[|stack| - 1];
      if u in graph && |graph[u]| > 0 {
        var v := graph[u][|graph[u]| - 1];
        assert CanPush(w) && v == Next(w);
        graph := graph[u := graph[u][..|graph[u]| - 1]];
        graph := graph[v := Without(graph[v], u)];
        stack := stack + [v];
      } else {
        assert !CanPush(w);
        circuit := circuit + [u];
        stack := stack[..|stack| - 1];
      }
      assert Walker(graph, stack, circuit) == w';
    }
  }

  /** Lines 57-60 of the search: the id-to-label dictionary. */
  method BuildLabels(nodes: seq<Node>) returns (nodeLabels: map<NodeId, string>)
    ensures nodeLabels == LabelTable(nodes)
  {
    nodeLabels := map[];
    for i := 0 to |nodes|
      invariant nodeLabels == LabelTable(nodes[..i])
    {
      assert DropLast(nodes[..i + 1]) == nodes[..i];
      nodeLabels := nodeLabels[nodes[i].id := nodes[i].caption];
    }
    assert nodes[..|nodes|] == nodes;
  }

  /**
   The editor's search, step by step: build the dictionary, walk with an
   explicit stack until it is empty, then reverse the output and look up
   each id's label. It computes EulerianCircuit with the `filter` removal.
   */
  method FindEulerianCircuit(edges: seq<Edge>, nodes: seq<Node>) returns (labels: seq<Option<string>>)
    ensures labels == EulerianCircuit(edges, nodes, AllCopies)
  {
    var graph := BuildAdjacency(edges);
    if |edges| == 0 || edges[0].source == "" {
      labels := [];
    } else {
      assert Closed(Walker(graph, [edges[0].source], [])) by {
        StartFacts(edges);
      }
      var circuit := Traverse(graph, edges[0].source);
      assert Reverse(circuit) == CircuitIds(edges, AllCopies);
      CircuitIdsLength(edges, AllCopies);
      if |nodes| == 0 {
        labels := [];
      } else {
        var nodeLabels := BuildLabels(nodes);
        var ids := Reverse(circuit);
        labels := seq(|ids|, i requires 0 <= i < |ids| => Lookup(nodeLabels, ids[i]));
        assert labels == Labelled(nodes, ids);
      }
    }
  }
}
