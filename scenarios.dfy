/**
 Small graphs on which the search is computed step by step.

 Two parallel edges between A and B: both nodes have degree 2, so the
 parity test passes and the graph has the Eulerian circuit A, B, A. The
 search as written returns A, B, B; the corrected search returns A, B, A.
 The edges A to B and B to A give the same lists and the same result.

 The path L - C - R: no pair repeats, but L and R have degree 1. Both
 searches return C, L, R, whose step L-R is no edge; the parity test fails,
 so the editor never shows it.
 */
module Scenarios {
  import opened Graph
  import opened Hierholzer
  import opened Parity
  import opened Analysis
  import Corrected

  /** The two node ids differ. */
  lemma DistinctNames()
    ensures "A" != "B"
  {
    assert "A"[0] != "B"[0];
  }

  /** Two edges from A to B. */
  const Parallel: seq<Edge> := [Edge("A", "B"), Edge("A", "B")]

  /** The dictionary lists B twice for A and A twice for B. */
  lemma ParallelAdjacency()
    ensures AdjacencyOf(Parallel) == map["A" := ["B", "B"], "B" := ["A", "A"]]
  {
    DistinctNames();
    var e := Edge("A", "B");
    assert DropLast(Parallel) == [e] && DropLast([e]) == [] && Last(Parallel) == e;
    var g0: Adjacency := map[];
    var g1: Adjacency := map["A" := ["B"], "B" := ["A"]];
    assert AdjacencyOf([e]) == AddEdge(g0, e);
    assert AddEdge(g0, e) == g1 by {
      var h2: Adjacency := map["A" := [], "B" := []];
      assert h2["A"] + ["B"] == ["B"];
      var h3 := h2["A" := ["B"]];
      assert h3["B"] == [];
      assert h3["B"] + ["A"] == ["A"];
    }
    assert AddEdge(g1, e) == map["A" := ["B", "B"], "B" := ["A", "A"]] by {
      assert g1["A"] + ["B"] == ["B", "B"];
      var h3 := g1["A" := ["B", "B"]];
      assert h3["B"] == ["A"];
      assert h3["B"] + ["A"] == ["A", "A"];
    }
  }

  // The passes of the search as written (filter removal).

  lemma FilterStep0()
    ensures var w := Walker(map["A" := ["B", "B"], "B" := ["A", "A"]], ["A"], []);
      Closed(w) && Step(w, AllCopies) == Walker(map["A" := ["B"], "B" := []], ["A", "B"], [])
  {
    DistinctNames();
    var g: Adjacency := map["A" := ["B", "B"], "B" := ["A", "A"]];
    var w := Walker(g, ["A"], []);
    assert Last(w.stack) == "A";
    assert Last(g["A"]) == "B";
    assert DropLast(g["A"]) == ["B"];
    var g1 := g["A" := ["B"]];
    assert g1["B"] == ["A", "A"];
    assert Without(["A", "A"], "A") == [] by {
      assert ["A", "A"][1..] == ["A"];
      assert ["A"][1..] == [];
    }
  }

  /** A pass that finds the top's list empty pops it to the output. */
  lemma PopStep(w: Walker, mode: Removal)
    requires Closed(w) && |w.stack| > 0 && Last(w.stack) in w.graph && w.graph[Last(w.stack)] == []
    ensures Step(w, mode) == Walker(w.graph, DropLast(w.stack), w.circuit + [Last(w.stack)])
  {
  }

  lemma FilterStep1()
    ensures var g1: Adjacency := map["A" := ["B"], "B" := []];
      && Closed(Walker(g1, ["A", "B"], []))
      && Step(Walker(g1, ["A", "B"], []), AllCopies) == Walker(g1, ["A"], ["B"])
  {
    DistinctNames();
    var g1: Adjacency := map["A" := ["B"], "B" := []];
    PopStep(Walker(g1, ["A", "B"], []), AllCopies);
  }

  lemma FilterStep2()
    ensures var g1: Adjacency := map["A" := ["B"], "B" := []];
            var g2: Adjacency := map["A" := [], "B" := []];
      && Closed(Walker(g1, ["A"], ["B"]))
      && Step(Walker(g1, ["A"], ["B"]), AllCopies) == Walker(g2, ["A", "B"], ["B"])
  {
    DistinctNames();
    var g1: Adjacency := map["A" := ["B"], "B" := []];
    var g2: Adjacency := map["A" := [], "B" := []];
    assert Last(["A"]) == "A" && Last(g1["A"]) == "B" && DropLast(g1["A"]) == [];
    assert g1["A" := []]["B"] == [];
    assert Without([], "A") == [];
    assert g1["A" := []]["B" := []] == g2;
  }

  lemma FilterStep3()
    ensures var g2: Adjacency := map["A" := [], "B" := []];
      && Closed(Walker(g2, ["A", "B"], ["B"]))
      && Step(Walker(g2, ["A", "B"], ["B"]), AllCopies) == Walker(g2, ["A"], ["B", "B"])
  {
    DistinctNames();
    var g2: Adjacency := map["A" := [], "B" := []];
    PopStep(Walker(g2, ["A", "B"], ["B"]), AllCopies);
    assert DropLast(["A", "B"]) == ["A"];
  }

  lemma FilterStep4()
    ensures var g2: Adjacency := map["A" := [], "B" := []];
      && Closed(Walker(g2, ["A"], ["B", "B"]))
      && Step(Walker(g2, ["A"], ["B", "B"]), AllCopies) == Walker(g2, [], ["B", "B", "A"])
  {
    DistinctNames();
    var g2: Adjacency := map["A" := [], "B" := []];
    PopStep(Walker(g2, ["A"], ["B", "B"]), AllCopies);
  }

  /** The as-written loop outputs B, B, A. */
  lemma FilterRun()
    ensures var w := Walker(map["A" := ["B", "B"], "B" := ["A", "A"]], ["A"], []);
      Closed(w) && Run(w, AllCopies).circuit == ["B", "B", "A"]
  {
    FilterStep0();
    FilterStep1();
    FilterStep2();
    FilterStep3();
    FilterStep4();
    var w0 := Walker(map["A" := ["B", "B"], "B" := ["A", "A"]], ["A"], []);
    var g1: Adjacency := map["A" := ["B"], "B" := []];
    var g2: Adjacency := map["A" := [], "B" := []];
    RunStep(w0, AllCopies);
    RunStep(Walker(g1, ["A", "B"], []), AllCopies);
    RunStep(Walker(g1, ["A"], ["B"]), AllCopies);
    RunStep(Walker(g2, ["A", "B"], ["B"]), AllCopies);
    RunStep(Walker(g2, ["A"], ["B", "B"]), AllCopies);
  }

  // The passes of the corrected search (one entry removed).

  lemma OneCopyStep0()
    ensures var w := Walker(map["A" := ["B", "B"], "B" := ["A", "A"]], ["A"], []);
      Closed(w) && Step(w, OneCopy) == Walker(map["A" := ["B"], "B" := ["A"]], ["A", "B"], [])
  {
    DistinctNames();
    var g: Adjacency := map["A" := ["B", "B"], "B" := ["A", "A"]];
    assert Last(["A"]) == "A" && Last(g["A"]) == "B" && DropLast(g["A"]) == ["B"];
    var g1 := g["A" := ["B"]];
    assert g1["B"] == ["A", "A"];
    assert RemoveOne(["A", "A"], "A") == ["A"] by {
      assert ["A", "A"][1..] == ["A"];
    }
  }

  lemma OneCopyStep1()
    ensures var g1: Adjacency := map["A" := ["B"], "B" := ["A"]];
            var g2: Adjacency := map["A" := [], "B" := []];
      && Closed(Walker(g1, ["A", "B"], []))
      && Step(Walker(g1, ["A", "B"], []), OneCopy) == Walker(g2, ["A", "B", "A"], [])
  {
    DistinctNames();
    var g1: Adjacency := map["A" := ["B"], "B" := ["A"]];
    var g2: Adjacency := map["A" := [], "B" := []];
    assert Last(["A", "B"]) == "B" && Last(g1["B"]) == "A" && DropLast(g1["B"]) == [];
    assert g1["B" := []]["A"] == ["B"];
    assert RemoveOne(["B"], "B") == [] by {
      assert ["B"][1..] == [];
    }
    assert g1["B" := []]["A" := []] == g2;
  }

  lemma OneCopyStep2()
    ensures var g2: Adjacency := map["A" := [], "B" := []];
      && Closed(Walker(g2, ["A", "B", "A"], []))
      && Step(Walker(g2, ["A", "B", "A"], []), OneCopy) == Walker(g2, ["A", "B"], ["A"])
  {
    DistinctNames();
    var g2: Adjacency := map["A" := [], "B" := []];
    PopStep(Walker(g2, ["A", "B", "A"], []), OneCopy);
    assert DropLast(["A", "B", "A"]) == ["A", "B"];
  }

  lemma OneCopyStep3()
    ensures var g2: Adjacency := map["A" := [], "B" := []];
      && Closed(Walker(g2, ["A", "B"], ["A"]))
      && Step(Walker(g2, ["A", "B"], ["A"]), OneCopy) == Walker(g2, ["A"], ["A", "B"])
  {
    DistinctNames();
    var g2: Adjacency := map["A" := [], "B" := []];
    PopStep(Walker(g2, ["A", "B"], ["A"]), OneCopy);
    assert DropLast(["A", "B"]) == ["A"];
  }

  lemma OneCopyStep4()
    ensures var g2: Adjacency := map["A" := [], "B" := []];
      && Closed(Walker(g2, ["A"], ["A", "B"]))
      && Step(Walker(g2, ["A"], ["A", "B"]), OneCopy) == Walker(g2, [], ["A", "B", "A"])
  {
    DistinctNames();
    var g2: Adjacency := map["A" := [], "B" := []];
    PopStep(Walker(g2, ["A"], ["A", "B"]), OneCopy);
  }

  /** The corrected loop outputs A, B, A and empties both lists. */
  lemma OneCopyRun()
    ensures var w := Walker(map["A" := ["B", "B"], "B" := ["A", "A"]], ["A"], []);
      && Closed(w) && Run(w, OneCopy).circuit == ["A", "B", "A"]
      && Run(w, OneCopy).graph == map["A" := [], "B" := []]
  {
    OneCopyStep0();
    OneCopyStep1();
    OneCopyStep2();
    OneCopyStep3();
    OneCopyStep4();
    var g1: Adjacency := map["A" := ["B"], "B" := ["A"]];
    var g2: Adjacency := map["A" := [], "B" := []];
    RunStep(Walker(map["A" := ["B", "B"], "B" := ["A", "A"]], ["A"], []), OneCopy);
    RunStep(Walker(g1, ["A", "B"], []), OneCopy);
    RunStep(Walker(g2, ["A", "B", "A"], []), OneCopy);
    RunStep(Walker(g2, ["A", "B"], ["A"]), OneCopy);
    RunStep(Walker(g2, ["A"], ["A", "B"]), OneCopy);
  }

  /** The two nodes, labelled a and b. */
  const ParallelNodes: seq<Node> := [Node("A", "a"), Node("B", "b")]

  lemma ParallelLabels()
    ensures LabelTable(ParallelNodes) == map["A" := "a", "B" := "b"]
  {
    DistinctNames();
    assert DropLast(ParallelNodes) == [Node("A", "a")];
    assert DropLast([Node("A", "a")]) == [];
  }

  lemma ParallelDegrees()
    ensures Degree(Parallel, "A") == 2 && Degree(Parallel, "B") == 2
  {
    DistinctNames();
    var e := Edge("A", "B");
    assert Parallel == [e] + [e] && [e] == [] + [e];
    DegreeSnoc([], e, "A");
    DegreeSnoc([], e, "B");
    DegreeSnoc([e], e, "A");
    DegreeSnoc([e], e, "B");
  }

  /** Both nodes have degree 2 and both endpoints are listed: the parity test passes. */
  lemma ParallelParity()
    ensures ParityHolds(ParallelNodes, Parallel)
  {
    ParallelDegrees();
    assert ParallelNodes[0].id == "A" && ParallelNodes[1].id == "B";
    assert "A" in Ids(ParallelNodes) && "B" in Ids(ParallelNodes);
    forall k | 0 <= k < |Parallel| ensures Parallel[k] == Edge("A", "B") {
    }
  }

  lemma ReverseOfThree(a: NodeId, b: NodeId, c: NodeId)
    ensures Reverse([a, b, c]) == [c, b, a]
  {
    var r := Reverse([a, b, c]);
    assert r[0] == c && r[1] == b && r[2] == a;
  }

  lemma ParallelStart()
    ensures Start(Parallel) == Walker(map["A" := ["B", "B"], "B" := ["A", "A"]], ["A"], [])
  {
    ParallelAdjacency();
  }

  lemma ParallelFinishAsWritten()
    ensures Finish(Parallel, AllCopies).circuit == ["B", "B", "A"]
  {
    ParallelStart();
    FilterRun();
  }

  lemma ParallelFinishCorrected()
    ensures Finish(Parallel, OneCopy).circuit == ["A", "B", "A"]
  {
    ParallelStart();
    OneCopyRun();
  }

  lemma ParallelIdsAsWritten()
    ensures CircuitIds(Parallel, AllCopies) == ["A", "B", "B"]
  {
    ParallelFinishAsWritten();
    ReverseOfThree("B", "B", "A");
  }

  lemma ParallelIdsCorrected()
    ensures CircuitIds(Parallel, OneCopy) == ["A", "B", "A"]
  {
    ParallelFinishCorrected();
    ReverseOfThree("A", "B", "A");
  }

  lemma ParallelNoLoop()
    ensures !Joined(Parallel, "B", "B")
  {
    forall k | 0 <= k < |Parallel| ensures Ends(Parallel[k]) != {"B", "B"} {
      DistinctNames();
      assert "A" in Ends(Parallel[k]);
    }
  }

  lemma ParallelVerdict(mode: Removal, ids: seq<NodeId>)
    requires CircuitIds(Parallel, mode) == ids && ids != []
    ensures Analyze(ParallelNodes, Parallel, mode) == Circuit(Labelled(ParallelNodes, ids))
  {
    ParallelParity();
  }

  lemma ParallelLabelled(a: NodeId, b: NodeId, c: NodeId)
    requires a in {"A", "B"} && b in {"A", "B"} && c in {"A", "B"}
    ensures Labelled(ParallelNodes, [a, b, c])
         == [Lookup(map["A" := "a", "B" := "b"], a), Lookup(map["A" := "a", "B" := "b"], b),
             Lookup(map["A" := "a", "B" := "b"], c)]
  {
    ParallelLabels();
  }

  /**
   The search as written on the two parallel edges: after the push from A
   to B the filter empties B's list, so B is popped at once; the second A-B
   edge is then walked and B popped again. The editor shows a, b, b: the
   walk does not return to A and its last step B-B is not an edge.
   */
  lemma ParallelAsWritten()
    ensures CircuitIds(Parallel, AllCopies) == ["A", "B", "B"]
    ensures !Joined(Parallel, "B", "B")
    ensures Analyze(ParallelNodes, Parallel, AllCopies) == Circuit([Some("a"), Some("b"), Some("b")])
  {
    ParallelIdsAsWritten();
    ParallelNoLoop();
    ParallelVerdict(AllCopies, ["A", "B", "B"]);
    ParallelLabelled("A", "B", "B");
    DistinctNames();
  }

  /** The corrected search on the same edges returns the closed walk A, B, A. */
  lemma ParallelCorrected()
    ensures CircuitIds(Parallel, OneCopy) == ["A", "B", "A"]
    ensures Analyze(ParallelNodes, Parallel, OneCopy) == Circuit([Some("a"), Some("b"), Some("a")])
  {
    ParallelIdsCorrected();
    ParallelVerdict(OneCopy, ["A", "B", "A"]);
    ParallelLabelled("A", "B", "A");
    DistinctNames();
  }

  // The same pair of nodes joined in both directions.

  /** An edge from A to B and one from B to A. */
  const Opposite: seq<Edge> := [Edge("A", "B"), Edge("B", "A")]

  /** The dictionary is the one of the two parallel edges. */
  lemma OppositeAdjacency()
    ensures AdjacencyOf(Opposite) == map["A" := ["B", "B"], "B" := ["A", "A"]]
  {
    DistinctNames();
    var e, f := Edge("A", "B"), Edge("B", "A");
    assert DropLast(Opposite) == [e] && DropLast([e]) == [] && Last(Opposite) == f;
    var g0: Adjacency := map[];
    var g1: Adjacency := map["A" := ["B"], "B" := ["A"]];
    assert AdjacencyOf([e]) == AddEdge(g0, e);
    assert AddEdge(g0, e) == g1 by {
      var h2: Adjacency := map["A" := [], "B" := []];
      assert h2["A"] + ["B"] == ["B"];
      var h3 := h2["A" := ["B"]];
      assert h3["B"] == [];
      assert h3["B"] + ["A"] == ["A"];
    }
    assert AddEdge(g1, f) == map["A" := ["B", "B"], "B" := ["A", "A"]] by {
      assert g1["B"] + ["A"] == ["A", "A"];
      var h3 := g1["B" := ["A", "A"]];
      assert h3["A"] == ["B"];
      assert h3["A"] + ["B"] == ["B", "B"];
    }
  }

  lemma OppositeNoLoop()
    ensures !Joined(Opposite, "B", "B")
  {
    forall k | 0 <= k < |Opposite| ensures Ends(Opposite[k]) != {"B", "B"} {
      DistinctNames();
      assert "A" in Ends(Opposite[k]);
    }
  }

  lemma OppositeStart()
    ensures Start(Opposite) == Walker(map["A" := ["B", "B"], "B" := ["A", "A"]], ["A"], [])
  {
    OppositeAdjacency();
  }

  lemma OppositeFinishAsWritten()
    ensures Finish(Opposite, AllCopies).circuit == ["B", "B", "A"]
  {
    OppositeStart();
    FilterRun();
  }

  lemma OppositeFinishCorrected()
    ensures Finish(Opposite, OneCopy).circuit == ["A", "B", "A"]
  {
    OppositeStart();
    OneCopyRun();
  }

  lemma OppositeIdsAsWritten()
    ensures CircuitIds(Opposite, AllCopies) == ["A", "B", "B"]
  {
    OppositeFinishAsWritten();
    ReverseOfThree("B", "B", "A");
  }

  lemma OppositeIdsCorrected()
    ensures CircuitIds(Opposite, OneCopy) == ["A", "B", "A"]
  {
    OppositeFinishCorrected();
    ReverseOfThree("A", "B", "A");
  }

  /**
   Walking A to B and then B to A, as written, also returns A, B, B, so the
   defect does not depend on the editor accepting two equal connections.
   */
  lemma OppositeAsWritten()
    ensures CircuitIds(Opposite, AllCopies) == ["A", "B", "B"]
    ensures !Joined(Opposite, "B", "B")
    ensures CircuitIds(Opposite, OneCopy) == ["A", "B", "A"]
  {
    OppositeIdsAsWritten();
    OppositeNoLoop();
    OppositeIdsCorrected();
  }

  // A path with two leaves.

  /** The three node ids differ. */
  lemma PathNames()
    ensures "C" != "L" && "C" != "R" && "L" != "R"
  {
    assert "C"[0] != "L"[0] && "C"[0] != "R"[0] && "L"[0] != "R"[0];
  }

  /** Edges from C to L and from C to R. */
  const Path: seq<Edge> := [Edge("C", "L"), Edge("C", "R")]

  lemma PathAdjacency()
    ensures AdjacencyOf(Path) == map["C" := ["L", "R"], "L" := ["C"], "R" := ["C"]]
  {
    PathNames();
    var e, f := Edge("C", "L"), Edge("C", "R");
    assert DropLast(Path) == [e] && DropLast([e]) == [] && Last(Path) == f;
    var g0: Adjacency := map[];
    var g1: Adjacency := map["C" := ["L"], "L" := ["C"]];
    assert AdjacencyOf([e]) == AddEdge(g0, e);
    assert AddEdge(g0, e) == g1 by {
      var h2: Adjacency := map["C" := [], "L" := []];
      assert h2["C"] + ["L"] == ["L"];
      var h3 := h2["C" := ["L"]];
      assert h3["L"] == [];
      assert h3["L"] + ["C"] == ["C"];
    }
    assert AddEdge(g1, f) == map["C" := ["L", "R"], "L" := ["C"], "R" := ["C"]] by {
      var h2 := g1["R" := []];
      assert h2["C"] + ["R"] == ["L", "R"];
      var h3 := h2["C" := ["L", "R"]];
      assert h3["R"] == [];
      assert h3["R"] + ["C"] == ["C"];
    }
  }

  lemma PathStep0()
    ensures var w := Walker(map["C" := ["L", "R"], "L" := ["C"], "R" := ["C"]], ["C"], []);
      Closed(w) && Step(w, AllCopies) == Walker(map["C" := ["L"], "L" := ["C"], "R" := []], ["C", "R"], [])
  {
    PathNames();
    var g: Adjacency := map["C" := ["L", "R"], "L" := ["C"], "R" := ["C"]];
    assert Last(["C"]) == "C" && Last(g["C"]) == "R" && DropLast(g["C"]) == ["L"];
    var g1 := g["C" := ["L"]];
    assert g1["R"] == ["C"];
    assert Without(["C"], "C") == [] by {
      assert ["C"][1..] == [];
    }
    assert g1["R" := []] == map["C" := ["L"], "L" := ["C"], "R" := []];
  }

  lemma PathStep1()
    ensures var g1: Adjacency := map["C" := ["L"], "L" := ["C"], "R" := []];
      && Closed(Walker(g1, ["C", "R"], []))
      && Step(Walker(g1, ["C", "R"], []), AllCopies) == Walker(g1, ["C"], ["R"])
  {
    PathNames();
    var g1: Adjacency := map["C" := ["L"], "L" := ["C"], "R" := []];
    PopStep(Walker(g1, ["C", "R"], []), AllCopies);
  }

  lemma PathStep2()
    ensures var g1: Adjacency := map["C" := ["L"], "L" := ["C"], "R" := []];
            var g2: Adjacency := map["C" := [], "L" := [], "R" := []];
      && Closed(Walker(g1, ["C"], ["R"]))
      && Step(Walker(g1, ["C"], ["R"]), AllCopies) == Walker(g2, ["C", "L"], ["R"])
  {
    PathNames();
    var g1: Adjacency := map["C" := ["L"], "L" := ["C"], "R" := []];
    var g2: Adjacency := map["C" := [], "L" := [], "R" := []];
    assert Last(["C"]) == "C" && Last(g1["C"]) == "L" && DropLast(g1["C"]) == [];
    var h := g1["C" := []];
    assert h["L"] == ["C"];
    assert Without(["C"], "C") == [] by {
      assert ["C"][1..] == [];
    }
    assert h["L" := []] == g2;
  }

  lemma PathStep3()
    ensures var g2: Adjacency := map["C" := [], "L" := [], "R" := []];
      && Closed(Walker(g2, ["C", "L"], ["R"]))
      && Step(Walker(g2, ["C", "L"], ["R"]), AllCopies) == Walker(g2, ["C"], ["R", "L"])
  {
    PathNames();
    var g2: Adjacency := map["C" := [], "L" := [], "R" := []];
    PopStep(Walker(g2, ["C", "L"], ["R"]), AllCopies);
    assert DropLast(["C", "L"]) == ["C"];
  }

  lemma PathStep4()
    ensures var g2: Adjacency := map["C" := [], "L" := [], "R" := []];
      && Closed(Walker(g2, ["C"], ["R", "L"]))
      && Step(Walker(g2, ["C"], ["R", "L"]), AllCopies) == Walker(g2, [], ["R", "L", "C"])
  {
    PathNames();
    var g2: Adjacency := map["C" := [], "L" := [], "R" := []];
    PopStep(Walker(g2, ["C"], ["R", "L"]), AllCopies);
  }

  /** The loop as written outputs R, L, C. */
  lemma PathRun()
    ensures Finish(Path, AllCopies).circuit == ["R", "L", "C"]
  {
    PathAdjacency();
    PathStep0();
    PathStep1();
    PathStep2();
    PathStep3();
    PathStep4();
    var w0 := Walker(map["C" := ["L", "R"], "L" := ["C"], "R" := ["C"]], ["C"], []);
    var g1: Adjacency := map["C" := ["L"], "L" := ["C"], "R" := []];
    var g2: Adjacency := map["C" := [], "L" := [], "R" := []];
    assert Start(Path) == w0;
    RunStep(w0, AllCopies);
    RunStep(Walker(g1, ["C", "R"], []), AllCopies);
    RunStep(Walker(g1, ["C"], ["R"]), AllCopies);
    RunStep(Walker(g2, ["C", "L"], ["R"]), AllCopies);
    RunStep(Walker(g2, ["C"], ["R", "L"]), AllCopies);
  }

  lemma PathDistinct()
    ensures DistinctPairs(Path)
  {
    PathNames();
    assert "L" in Ends(Path[0]) && "L" !in Ends(Path[1]);
  }

  lemma PathNoStep()
    ensures !Joined(Path, "L", "R")
  {
    forall k | 0 <= k < |Path| ensures Ends(Path[k]) != {"L", "R"} {
      PathNames();
      assert "C" in Ends(Path[k]);
    }
  }

  /**
   On the path, where no pair repeats, both searches return C, L, R: the
   reversed output need not be a walk when a degree is odd, whichever
   removal is used.
   */
  lemma PathIds()
    ensures DistinctPairs(Path)
    ensures CircuitIds(Path, AllCopies) == ["C", "L", "R"]
    ensures CircuitIds(Path, OneCopy) == ["C", "L", "R"]
    ensures !Joined(Path, "L", "R")
  {
    PathRun();
    ReverseOfThree("R", "L", "C");
    PathDistinct();
    Corrected.FilterAgrees(Path);
    PathNoStep();
  }

  /** L is an endpoint of one edge only. */
  lemma PathOdd()
    ensures Degree(Path, "L") == 1
  {
    PathNames();
    var e, f := Edge("C", "L"), Edge("C", "R");
    assert Path == [e] + [f] && [e] == [] + [e];
    DegreeSnoc([], e, "L");
    DegreeSnoc([e], f, "L");
  }

  /** The path's three nodes, labelled c, l and r. */
  const PathNodes: seq<Node> := [Node("C", "c"), Node("L", "l"), Node("R", "r")]

  /** L has odd degree, so the parity test fails. */
  lemma PathParity()
    ensures !ParityHolds(PathNodes, Path)
  {
    PathOdd();
    assert PathNodes[1].id == "L";
    assert Degree(Path, PathNodes[1].id) % 2 != 0;
  }

  /** The editor reports that the path has no Eulerian circuit. */
  lemma PathVerdict(mode: Removal)
    ensures Analyze(PathNodes, Path, mode) == NotEulerian
  {
    PathParity();
  }
}
