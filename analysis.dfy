/**
 The editor's analysis (analyzeGraph): the verdict it shows for the current
 nodes and edges, and what each verdict implies about the graph.
 */
module Analysis {
  import opened Graph
  import opened Parity
  import opened Hierholzer
  import opened Corrected

  /**
   The four messages of the analysis: empty graph, parity test failed,
   search came back empty, and the circuit's labels (joined with arrows in
   the message text).
   */
  datatype Verdict = EmptyGraph | NotEulerian | NoCircuitFound | Circuit(labels: seq<Option<string>>)

  /** The verdict, with the search's removal policy as a parameter. */
  function Analyze(nodes: seq<Node>, edges: seq<Edge>, mode: Removal): Verdict
  {
    if |edges| == 0 || |nodes| == 0 then EmptyGraph
    else if !ParityHolds(nodes, edges) then NotEulerian
    else
      var labels := EulerianCircuit(edges, nodes, mode);
      if |labels| == 0 then NoCircuitFound else Circuit(labels)
  }

  /** The event handler: the parity test, then the search, as the editor calls them. */
  method AnalyzeGraph(nodes: seq<Node>, edges: seq<Edge>) returns (v: Verdict)
    ensures v == Analyze(nodes, edges, AllCopies)
  {
    if |edges| == 0 || |nodes| == 0 {
      return EmptyGraph;
    }
    var ok := HasEulerianCircuit(nodes, edges);
    if !ok {
      return NotEulerian;
    }
    var circuit := FindEulerianCircuit(edges, nodes);
    if |circuit| == 0 {
      v := NoCircuitFound;
    } else {
      v := Circuit(circuit);
    }
  }

  // ---------------------------------------------------------------------
  // When each verdict is given

  /**
   Each verdict is given exactly in its case: no edge or no node; the parity
   test fails; the test passes but the first edge's source is the empty id;
   otherwise a circuit.
   */
  lemma VerdictCases(nodes: seq<Node>, edges: seq<Edge>, mode: Removal)
    ensures Analyze(nodes, edges, mode) == EmptyGraph <==> |edges| == 0 || |nodes| == 0
    ensures Analyze(nodes, edges, mode) == NotEulerian
        <==> |edges| > 0 && |nodes| > 0 && !ParityHolds(nodes, edges)
    ensures Analyze(nodes, edges, mode) == NoCircuitFound
        <==> |edges| > 0 && |nodes| > 0 && ParityHolds(nodes, edges) && edges[0].source == ""
    ensures Analyze(nodes, edges, mode).Circuit?
        <==> |edges| > 0 && |nodes| > 0 && ParityHolds(nodes, edges) && edges[0].source != ""
  {
    EulerianCircuitShape(edges, nodes, mode);
  }

  /** Under the parity test every degree is even: each endpoint is a listed node. */
  lemma ParityGivesEvenDegrees(nodes: seq<Node>, edges: seq<Edge>)
    requires ParityHolds(nodes, edges)
    ensures forall x | x in Incidences(edges) :: Degree(edges, x) % 2 == 0
    ensures forall x | x in Incidences(edges) :: x in LabelTable(nodes)
  {
    forall x | x in Incidences(edges) ensures x in Ids(nodes) {
      IncidencesMembers(edges, x);
      var k :| 0 <= k < |edges| && x in Ends(edges[k]);
      assert edges[k].source in Ids(nodes) && edges[k].target in Ids(nodes);
    }
    ParityHoldsMeaning(nodes, edges);
    forall x | x in Incidences(edges) ensures x in LabelTable(nodes) {
      LabelTableLookup(nodes, x);
    }
  }

  /**
   A circuit verdict, under either removal policy, comes from a graph that
   passes the parity test; its labels are all defined, one per id of the
   search, at most one more than there are edges, the first being the label
   of the first edge's source.
   */
  lemma CircuitVerdictShape(nodes: seq<Node>, edges: seq<Edge>, mode: Removal)
    requires Analyze(nodes, edges, mode).Circuit?
    ensures var labels := Analyze(nodes, edges, mode).labels;
      && ParityHolds(nodes, edges)
      && labels == Labelled(nodes, CircuitIds(edges, mode))
      && 0 < |labels| <= |edges| + 1
      && labels[0] == Lookup(LabelTable(nodes), edges[0].source)
      && (forall i | 0 <= i < |labels| :: labels[i].Some?)
  {
    VerdictCases(nodes, edges, mode);
    EulerianCircuitShape(edges, nodes, mode);
    CircuitIdsEndpoints(edges, mode);
    ParityGivesEvenDegrees(nodes, edges);
  }

  /**
   With the corrected removal, a circuit verdict labels a closed walk from
   the first edge's source that takes every edge at most once.
   */
  lemma CorrectedVerdict(nodes: seq<Node>, edges: seq<Edge>)
    requires Analyze(nodes, edges, OneCopy).Circuit?
    ensures var labels, ids := Analyze(nodes, edges, OneCopy).labels, CircuitIds(edges, OneCopy);
      && labels == Labelled(nodes, ids)
      && ids[0] == edges[0].source && Last(ids) == edges[0].source
      && (forall i | 0 <= i < |ids| - 1 :: Joined(edges, ids[i], ids[i + 1]))
      && Steps(ids) <= PairsOf(edges)
  {
    VerdictCases(nodes, edges, OneCopy);
    ParityGivesEvenDegrees(nodes, edges);
    CorrectedCircuit(edges);
  }

  /**
   Without parallel edges the verdict as written is the corrected one: a
   circuit verdict labels a closed walk from the first edge's source whose
   consecutive ids are joined and which uses no edge twice.
   */
  lemma AsWrittenVerdict(nodes: seq<Node>, edges: seq<Edge>)
    requires Analyze(nodes, edges, AllCopies).Circuit? && DistinctPairs(edges)
    ensures Analyze(nodes, edges, AllCopies) == Analyze(nodes, edges, OneCopy)
    ensures var labels, ids := Analyze(nodes, edges, AllCopies).labels, CircuitIds(edges, AllCopies);
      && labels == Labelled(nodes, ids)
      && ids[0] == edges[0].source && Last(ids) == edges[0].source
      && (forall i | 0 <= i < |ids| - 1 :: Joined(edges, ids[i], ids[i + 1]))
      && Steps(ids) <= PairsOf(edges)
  {
    FilterAgrees(edges);
    VerdictCases(nodes, edges, AllCopies);
    ParityGivesEvenDegrees(nodes, edges);
    AsWrittenCircuit(edges);
  }
}
