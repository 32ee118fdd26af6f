# Eulerian-circuit analysis of the graph editor

This project models the analysis behind the editor's "analyze" button in
`circuito-euleriano/src/components/GraphEditor.jsx`. It has three parts:

- **The parity test** (`hasEulerianCircuit`, module `Parity`). It builds a
  dictionary of degree counters, one per listed node, and bumps the counters
  of both endpoints of every edge. The answer is "every counter is even". An
  endpoint that is not a listed node gets `undefined++`, which is `NaN`, and
  `NaN` is never even. The counters are the datatype `Counter = Num(n) | NaN`.
- **The circuit search** (`findEulerianCircuit`, module `Hierholzer`). This
  is the stack form of Hierholzer's algorithm over a dictionary of neighbour
  lists:
  - it starts from the first edge's source;
  - it pops the last neighbour `v` of the top `u`, drops `u` from `v`'s list
    and pushes `v`;
  - when `u`'s list is empty, it moves `u` to the output;
  - finally it reverses the output and replaces each id by its node's label.

  The loop appears twice:
  - as the value-level state machine `Step`/`Run` over a `Walker` (lists,
    stack, output);
  - as the imperative method `Traverse`, whose `while` loop is proved to
    compute `Run`.

  How `u` leaves `v`'s list is the parameter `Removal`. `AllCopies` is the
  editor's `filter`, which drops every entry equal to `u`. `OneCopy` drops
  one entry.
- **The verdict** (`analyzeGraph`, module `Analysis`). The datatype
  `Verdict = EmptyGraph | NotEulerian | NoCircuitFound | Circuit(labels)`
  holds what the editor shows: a fixed message in the first three cases,
  the labels joined by arrows in the fourth.

Module `Graph` defines the shared notions:
- degrees, as a multiset of incidences;
- the endpoint pairs of the edges;
- the neighbour-list dictionary;
- its size.

Module `Corrected` proves the circuit theorem for the one-copy removal:
- with every degree even, the output is a closed walk from the first edge's
  source;
- every step of the walk is an edge;
- no edge is used twice;
- all edges are used exactly when no list entry is left.

The two removals differ only where two edges join the same pair of nodes.
Without such parallel edges the search as written returns exactly the ids
of the corrected search, so the circuit theorem holds for the editor's own
code on those graphs. Module `Scenarios` computes both searches on two
parallel edges, which exhibits the defect of line 48 (see Findings), and
on the path L - C - R. That path has odd degrees, so for it both searches
return C, L, R, which is not a walk, and the parity test rejects it.

## Model

| member | source | states |
|---|---|---|
| Graph.DegreeSnoc | circuito-euleriano/src/components/GraphEditor.jsx:20-23 | an edge adds one to its source's degree and one to its target's, so a self-loop adds two |
| Graph.DegreeOfIsolated | circuito-euleriano/src/components/GraphEditor.jsx:16-23 | a node that is no edge's endpoint keeps degree 0 |
| Graph.IncidencesMembers | circuito-euleriano/src/components/GraphEditor.jsx:20-23 | an id has positive degree exactly when it is an endpoint of some edge |
| Graph.Handshake | circuito-euleriano/src/components/GraphEditor.jsx:16-23 | with distinct node ids and every endpoint listed, the degrees of the listed nodes sum to twice the number of edges |
| Graph.AddEdge | circuito-euleriano/src/components/GraphEditor.jsx:32-35 | definition of one pass of the edge loop: create missing lists, then push each endpoint onto the other's list; characterised through AdjacencyOf |
| Graph.AdjacencyOf | circuito-euleriano/src/components/GraphEditor.jsx:31-36 | definition of the neighbour-list dictionary; characterised by AdjacencyKeys, AdjacencyDegree, AdjacencyCount, AdjacencyNeighbour and AdjacencySize |
| Graph.AdjacencyKeys | circuito-euleriano/src/components/GraphEditor.jsx:31-33 | the dictionary's keys are exactly the edge endpoints |
| Graph.AdjacencyDegree | circuito-euleriano/src/components/GraphEditor.jsx:31-36 | each node's list is as long as its degree |
| Graph.AdjacencyCount | circuito-euleriano/src/components/GraphEditor.jsx:34-35 | x's list holds y once per edge {x, y}, and x twice per self-loop at x |
| Graph.AdjacencyNeighbour | circuito-euleriano/src/components/GraphEditor.jsx:34-35 | every entry of a list is joined to the list's owner by an edge and is itself a key |
| Graph.AdjacencySize | circuito-euleriano/src/components/GraphEditor.jsx:31-36 | the lists hold two entries per edge |
| Parity.Bump | circuito-euleriano/src/components/GraphEditor.jsx:21-22 | definition of `degrees[x]++`, where an absent or NaN counter becomes NaN; characterised by BumpEdge |
| Parity.BumpEdge | circuito-euleriano/src/components/GraphEditor.jsx:20-23 | one pass of the edge loop preserves the table invariant: listed ids map to their degree so far, unlisted endpoints map to NaN, and there are no other keys |
| Parity.IsEven | circuito-euleriano/src/components/GraphEditor.jsx:25 | definition of `degree % 2 === 0`, false for NaN; characterised through TableVerdict |
| Parity.TableVerdict | circuito-euleriano/src/components/GraphEditor.jsx:25 | on the final table, "every counter is even" holds exactly when every endpoint is listed and every listed node has even degree |
| Parity.HasEulerianCircuit | circuito-euleriano/src/components/GraphEditor.jsx:13-26 | the two loops and the final `every`: the answer is true if and only if every endpoint is a listed node and every listed node has even degree |
| Parity.ParityHoldsMeaning | circuito-euleriano/src/components/GraphEditor.jsx:16-25 | the test's verdict, stated over the set of listed ids rather than node positions |
| Parity.IsolatedNodeHarmless | circuito-euleriano/src/components/GraphEditor.jsx:16-25 | adding a node with no incident edge never changes the answer |
| Hierholzer.Without | circuito-euleriano/src/components/GraphEditor.jsx:48 | `filter(n => n !== u)` removes every u and keeps every other entry with its count |
| Hierholzer.RemoveOne | circuito-euleriano/src/components/GraphEditor.jsx:48 | the corrected removal takes exactly one u out of the list, when there is one |
| Hierholzer.CanPush | circuito-euleriano/src/components/GraphEditor.jsx:46 | definition of `graph[u]?.length`: the top has a list and it is not empty; characterised through Step, StepLinked and StepDecreases |
| Hierholzer.Next | circuito-euleriano/src/components/GraphEditor.jsx:47 | definition of the node `graph[u].pop()` returns, the last entry of the top's list; characterised by StepLinked |
| Hierholzer.Step | circuito-euleriano/src/components/GraphEditor.jsx:44-53 | one pass keeps every mentioned node a key, keeps the key set and only appends to the output |
| Hierholzer.StepDecreases | circuito-euleriano/src/components/GraphEditor.jsx:44-53 | each pass strictly lowers twice the number of list entries plus the stack height, so the loop ends |
| Hierholzer.Run | circuito-euleriano/src/components/GraphEditor.jsx:44-53 | the loop ends with an empty stack and the same keys, having only appended to the output |
| Hierholzer.Reverse | circuito-euleriano/src/components/GraphEditor.jsx:62 | `reverse()` keeps the length and puts entry i at position length-1-i |
| Hierholzer.StepLinked | circuito-euleriano/src/components/GraphEditor.jsx:45-49 | a pushed node is a neighbour of the top by an input edge, and the lists go on holding only neighbours by input edges |
| Hierholzer.StepReached | circuito-euleriano/src/components/GraphEditor.jsx:45-51 | a pass keeps the invariant that each node of stack-then-reversed-output is joined by an edge to some node before it |
| Hierholzer.RunReached | circuito-euleriano/src/components/GraphEditor.jsx:44-53 | in the reversed output, every id after the first is joined by an edge to some earlier id |
| Hierholzer.RunLast | circuito-euleriano/src/components/GraphEditor.jsx:43-51 | the bottom of the stack is the last node moved to the output |
| Hierholzer.RunLength | circuito-euleriano/src/components/GraphEditor.jsx:44-53 | the output gains one node per stacked node and one per push |
| Hierholzer.StepBounded | circuito-euleriano/src/components/GraphEditor.jsx:47-48 | a push consumes one endpoint pair of the untraversed edges, while the lists' counts stay bounded by the remaining pairs |
| Hierholzer.RunBounded | circuito-euleriano/src/components/GraphEditor.jsx:44-53 | while every list count is bounded by a pool of endpoint pairs, the loop performs at most as many pushes as the pool has pairs (from the start state, at most the number of edges) |
| Hierholzer.Start | circuito-euleriano/src/components/GraphEditor.jsx:38-43 | definition of the state before the loop: the built lists, a stack holding the first source, an empty output; characterised by CircuitIdsShape and Corrected.StartTour |
| Hierholzer.CircuitIds | circuito-euleriano/src/components/GraphEditor.jsx:40-62 | definition of the search's ids: none without a first source, otherwise the reversed output of Run from the first source; characterised by CircuitIdsShape, CircuitIdsEmpty and Corrected.AsWrittenCircuit |
| Hierholzer.CircuitIdsShape | circuito-euleriano/src/components/GraphEditor.jsx:40-62 | the reversed output has one id per push plus one and at most one more than there are edges; it starts at the first edge's source; every id is an endpoint, and every id after the first is joined to an earlier one |
| Hierholzer.CircuitIdsEmpty | circuito-euleriano/src/components/GraphEditor.jsx:40-41 | the search's ids are empty exactly when there is no edge or the first source is the empty (falsy) id |
| Hierholzer.WithoutSingle | circuito-euleriano/src/components/GraphEditor.jsx:48 | on a list holding u at most once, `filter` removes exactly what the one-copy removal removes |
| Hierholzer.LabelTable | circuito-euleriano/src/components/GraphEditor.jsx:57-60 | definition of the id-to-label table; characterised by LabelTableLookup |
| Hierholzer.LabelTableLookup | circuito-euleriano/src/components/GraphEditor.jsx:57-60 | an id has a label exactly when it is listed, and its label is that of the last node carrying the id |
| Hierholzer.Lookup | circuito-euleriano/src/components/GraphEditor.jsx:62 | definition of `nodeLabels[id]`: the label, or None for an id without a node; characterised through LabelTableLookup |
| Hierholzer.Labelled | circuito-euleriano/src/components/GraphEditor.jsx:62 | definition of `.map(id => nodeLabels[id])` over the ids; characterised by EulerianCircuitShape and Analysis.CircuitVerdictShape |
| Hierholzer.EulerianCircuit | circuito-euleriano/src/components/GraphEditor.jsx:28-63 | definition of the whole search's result; characterised by EulerianCircuitShape and computed by FindEulerianCircuit |
| Hierholzer.EulerianCircuitShape | circuito-euleriano/src/components/GraphEditor.jsx:28-63 | the result is empty exactly when there is no edge, the first source is the empty id or there are no nodes; it has at most one more label than there are edges; its first label is that of the first edge's source |
| Hierholzer.BuildAdjacency | circuito-euleriano/src/components/GraphEditor.jsx:31-36 | the edge loop builds exactly the neighbour-list dictionary AdjacencyOf |
| Hierholzer.Traverse | circuito-euleriano/src/components/GraphEditor.jsx:43-53 | the `while` loop, with its in-place `pop`, `filter` and `push`, outputs exactly what Run outputs |
| Hierholzer.BuildLabels | circuito-euleriano/src/components/GraphEditor.jsx:57-60 | the `forEach` builds exactly the id-to-label table |
| Hierholzer.FindEulerianCircuit | circuito-euleriano/src/components/GraphEditor.jsx:28-63 | the whole search returns exactly EulerianCircuit with the `filter` removal |
| Corrected.StepsReverse | circuito-euleriano/src/components/GraphEditor.jsx:62 | reversing a walk keeps its unordered steps |
| Corrected.StartTour | circuito-euleriano/src/components/GraphEditor.jsx:40-43 | with all degrees even, the initial state satisfies the tour invariant |
| Corrected.StepTour | circuito-euleriano/src/components/GraphEditor.jsx:44-53 | with one-copy removal a pass preserves the tour invariant. The invariant: the lists hold exactly the untraversed pairs; only the top and the start of the current push run have odd list length; stack steps plus output steps plus the owed step plus the untraversed pairs are exactly the edges' pairs |
| Corrected.RunTour | circuito-euleriano/src/components/GraphEditor.jsx:44-53 | from a tour state, the run's output starts at the start node, its steps are among the edges' pairs, and twice its step count plus the remaining entries is twice the number of edges |
| Corrected.CorrectedRun | circuito-euleriano/src/components/GraphEditor.jsx:38-53 | with one-copy removal and even degrees, the output begins and ends at the first source and uses each edge at most once |
| Corrected.CorrectedCircuit | circuito-euleriano/src/components/GraphEditor.jsx:40-62 | with one-copy removal and even degrees, the ids form a closed walk from the first source; consecutive ids are joined by edges; no edge is used twice; there are at most edges+1 ids, with equality exactly when no list entry is left |
| Corrected.StepAgrees | circuito-euleriano/src/components/GraphEditor.jsx:45-52 | while the lists hold exactly a pool of untraversed pairs in which no pair repeats, `filter` and the one-copy removal make the same pass, and the pass keeps the lists exact for the pool it leaves |
| Corrected.RunAgrees | circuito-euleriano/src/components/GraphEditor.jsx:44-53 | from such a state both removals end in the same state |
| Corrected.FinishAgrees | circuito-euleriano/src/components/GraphEditor.jsx:38-53 | when no two edges join the same pair of nodes, the search as written ends in the state of the corrected search |
| Corrected.FilterAgrees | circuito-euleriano/src/components/GraphEditor.jsx:40-62 | when no two edges join the same pair of nodes, the search as written returns the ids of the corrected search |
| Corrected.AsWrittenCircuit | circuito-euleriano/src/components/GraphEditor.jsx:40-62 | the code as written, on a graph with even degrees and no two edges joining the same pair, returns a closed walk from the first source. Its consecutive ids are joined by edges, no edge is used twice, and there are at most edges+1 ids, with equality exactly when no list entry is left |
| Analysis.Analyze | circuito-euleriano/src/components/GraphEditor.jsx:86-98 | definition of the verdict; characterised by VerdictCases, CircuitVerdictShape, CorrectedVerdict and AsWrittenVerdict |
| Analysis.AnalyzeGraph | circuito-euleriano/src/components/GraphEditor.jsx:85-100 | the handler's chain of tests, calling both methods, yields exactly the verdict Analyze with the `filter` removal |
| Analysis.VerdictCases | circuito-euleriano/src/components/GraphEditor.jsx:86-98 | each verdict is given exactly in its case. EmptyGraph: no edges or no nodes. NotEulerian: the parity test fails. NoCircuitFound: the test passes and the first source is the empty id. Circuit: otherwise |
| Analysis.ParityGivesEvenDegrees | circuito-euleriano/src/components/GraphEditor.jsx:16-25 | when the parity test passes, every endpoint has even degree and a label |
| Analysis.CircuitVerdictShape | circuito-euleriano/src/components/GraphEditor.jsx:93-97 | a circuit verdict comes from a graph passing the parity test. Its labels are those of the search's ids, non-empty, at most edges+1, every one defined, the first being the first source's label |
| Analysis.CorrectedVerdict | circuito-euleriano/src/components/GraphEditor.jsx:93-97 | with one-copy removal a circuit verdict labels a closed walk from the first source whose consecutive ids are joined and which uses no edge twice |
| Analysis.AsWrittenVerdict | circuito-euleriano/src/components/GraphEditor.jsx:93-97 | when no two edges join the same pair, the verdict as written equals the corrected one, and a circuit verdict labels a closed walk from the first source whose consecutive ids are joined and which uses no edge twice |
| Scenarios.ParallelAdjacency | circuito-euleriano/src/components/GraphEditor.jsx:31-36 | two parallel A-B edges give the lists A: [B, B] and B: [A, A] |
| Scenarios.ParallelParity | circuito-euleriano/src/components/GraphEditor.jsx:13-26 | both nodes of the parallel pair have degree 2, so the parity test passes |
| Scenarios.FilterRun | circuito-euleriano/src/components/GraphEditor.jsx:44-53 | with `filter`, the loop on the parallel pair outputs B, B, A: the second push finds B's list already empty |
| Scenarios.OneCopyRun | circuito-euleriano/src/components/GraphEditor.jsx:44-53 | with one-copy removal the same loop outputs A, B, A and empties the lists |
| Scenarios.ParallelAsWritten | circuito-euleriano/src/components/GraphEditor.jsx:48 | as written, the search on the parallel pair returns the ids A, B, B, whose last step B-B is no edge, and the editor shows the labels a, b, b |
| Scenarios.ParallelCorrected | circuito-euleriano/src/components/GraphEditor.jsx:48 | with one-copy removal the search returns A, B, A and the editor shows a, b, a |
| Scenarios.OppositeAdjacency | circuito-euleriano/src/components/GraphEditor.jsx:31-36 | the edges A-B and B-A give the same lists as the two parallel edges, A: [B, B] and B: [A, A] |
| Scenarios.OppositeAsWritten | circuito-euleriano/src/components/GraphEditor.jsx:40-62 | on A-B and B-A the search as written returns A, B, B, whose step B-B is no edge, and the corrected search returns A, B, A |
| Scenarios.PathRun | circuito-euleriano/src/components/GraphEditor.jsx:44-53 | on the path with edges C-L and C-R the loop outputs R, L, C: it walks to R, pops it, walks to L, pops it, then pops C |
| Scenarios.PathIds | circuito-euleriano/src/components/GraphEditor.jsx:40-62 | the path has no repeated pair, and both searches return C, L, R, whose step L-R is no edge: with an odd degree the ids need not be a walk |
| Scenarios.PathVerdict | circuito-euleriano/src/components/GraphEditor.jsx:86-91 | L has degree 1, so the editor reports that the path has no Eulerian circuit and never shows those ids |

## Left out

- The React and ReactFlow state, the callbacks, `addNode` and all rendering (lines 65-140), and `App.jsx`. These are UI and foreign library calls. `uuidv4` and `Math.random` are not modelled.
- The message strings and `join(' → ')`. The verdict carries the label sequence instead.
- The `!nodes` test at line 55. A Dafny sequence cannot be null or undefined, so only the empty list is modelled.
- JavaScript object semantics of the dictionaries. The model uses plain maps. A node id such as `constructor` or `__proto__` would read an inherited property in the editor. Every non-empty id is treated as an ordinary key.
- Labels: `node.data.label` is modelled as a string that is always present. An id without a node reads `undefined`, which is `None`.
- Number width: counters are unbounded naturals. JavaScript numbers are exact this far for any graph the editor can hold.
- Connectivity and edge coverage. The code never checks them, so the model does not claim them. `Corrected.CorrectedCircuit` only characterizes coverage (length edges+1 exactly when no entry is left). It does not prove that a connected graph is covered.
- Edge identity. The code's lists hold neighbour ids, and so do the model's. The one-copy removal drops one equal id, not a particular edge.
- Hierholzer.CircuitIdsShape: on every edge list it states only that each id is joined to SOME EARLIER id. The consecutive form can fail in two ways. With an odd degree it can fail under either removal: on the path L - C - R both searches return C, L, R, and L-R is no edge (`Scenarios.PathIds`). With all degrees even it can fail as written when two edges join the same pair of nodes: on two parallel edges A-B the ids are A, B, B (`Scenarios.ParallelAsWritten`, see Findings). On even-degree graphs without such edges, `Corrected.AsWrittenCircuit` proves consecutive ids joined and the walk closed for the code as written.
- Analysis.CircuitVerdictShape: on every edge list it does not say the labels form a closed walk, because with two edges joining the same pair they need not (see Findings). Without such edges `Analysis.AsWrittenVerdict` states it.

## Findings

| source | as written | input that shows it | evidently intended | confidence | as-written member | corrected member |
|---|---|---|---|---|---|---|
| circuito-euleriano/src/components/GraphEditor.jsx:48 | `graph[v] = graph[v].filter(n => n !== u)` removes every entry u from v's list, so traversing one of several parallel edges u-v deletes all of them from v's side. The results differ from the one-copy removal only when two edges join the same pair (on other graphs they agree, `Corrected.FilterAgrees`) | nodes A (label a) and B (label b), edges A-B and A-B: the parity test passes, and the search returns the ids A, B, B, so the labels a, b, b. The walk is not closed and its last step B-B is no edge. The edges A-B and B-A, which are not equal connections, give the same lists and the same ids A, B, B (`Scenarios.OppositeAsWritten`) | remove a single entry u, giving the closed walk A, B, A (labels a, b, a) | not executed | Scenarios.ParallelAsWritten | Corrected.CorrectedCircuit |
