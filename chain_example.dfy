/**
 * The chain pass on the linear graph A -> B -> C -> D, listed A, B, C, D:
 * the walk from A takes every node, so the one chain is [A, B, C, D].
 */
module ChainExample {
  import opened Json
  import opened Graph
  import opened Chains

  /** The graph A -> B -> C -> D, its nodes listed in that order. */
  function Line(): Graph {
    Graph(["A", "B", "C", "D"],
          map["A" := Empty(), "B" := Empty(), "C" := Empty(), "D" := Empty()],
          map[("A", "B") := JNull, ("B", "C") := JNull, ("C", "D") := JNull])
  }

  /** The successors and predecessors of the linear graph's nodes. */
  lemma LineSuccsA()
    ensures Succs(Line(), "A") == {"B"}
  {
  }

  lemma LineSuccsB()
    ensures Succs(Line(), "B") == {"C"}
  {
  }

  lemma LineSuccsC()
    ensures Succs(Line(), "C") == {"D"}
  {
  }

  lemma LineSuccsD()
    ensures Succs(Line(), "D") == {}
  {
  }

  lemma LinePredsA()
    ensures Preds(Line(), "A") == {}
  {
  }

  lemma LinePredsB()
    ensures Preds(Line(), "B") == {"A"}
  {
  }

  lemma LinePredsC()
    ensures Preds(Line(), "C") == {"B"}
  {
  }

  lemma LineWellFormed()
    ensures WellFormed(Line())
  {
  }

  /** The degrees of the linear graph, and the single successor of A, B and C. */
  lemma LineDegrees()
    ensures WellFormed(Line())
    ensures InDeg(Line(), "A") == 0 && OutDeg(Line(), "A") == 1
    ensures Through(Line(), "B") && Through(Line(), "C")
    ensures OutDeg(Line(), "D") == 0
    ensures TheSucc(Line(), "A") == "B" && TheSucc(Line(), "B") == "C" && TheSucc(Line(), "C") == "D"
  {
    LineWellFormed();
    LineSuccsA(); LineSuccsB(); LineSuccsC(); LineSuccsD();
    LinePredsA(); LinePredsB(); LinePredsC();
  }

  lemma LineWalkC()
    ensures WellFormed(Line())
    ensures WalkFrom(Line(), "C", ["A", "B", "C"], {"A", "B", "C"}) == (["A", "B", "C", "D"], {"A", "B", "C", "D"})
  {
    LineDegrees();
    assert !Through(Line(), "D");
    assert "D" !in {"A", "B", "C"} && "D" != "C";
    assert ["A", "B", "C"] + ["D"] == ["A", "B", "C", "D"];
    assert {"A", "B", "C"} + {"D"} == {"A", "B", "C", "D"};
  }

  lemma LineWalkB()
    ensures WellFormed(Line())
    ensures WalkFrom(Line(), "B", ["A", "B"], {"A", "B"}) == (["A", "B", "C", "D"], {"A", "B", "C", "D"})
  {
    LineDegrees();
    LineWalkC();
    assert "C" !in {"A", "B"} && "C" != "B";
    assert ["A", "B"] + ["C"] == ["A", "B", "C"];
    assert {"A", "B"} + {"C"} == {"A", "B", "C"};
  }

  lemma LineWalk()
    ensures WellFormed(Line())
    ensures WalkFrom(Line(), "A", ["A"], {"A"}) == (["A", "B", "C", "D"], {"A", "B", "C", "D"})
  {
    LineDegrees();
    LineWalkB();
    assert "B" !in {"A"} && "B" != "A";
    assert ["A"] + ["B"] == ["A", "B"];
    assert {"A"} + {"B"} == {"A", "B"};
  }

  /** `detect_chains` on the linear graph returns the one chain [A, B, C, D]. */
  lemma LineChains()
    ensures WellFormed(Line()) && ChainsOf(Line()) == [["A", "B", "C", "D"]]
  {
    LineDegrees();
    LineWalk();
    var g := Line();
    var all := {"A", "B", "C", "D"};
    var chains := [["A", "B", "C", "D"]];
    assert PassFrom(g, 3, chains, all) == (chains, all);
    assert PassFrom(g, 2, chains, all) == (chains, all);
    assert PassFrom(g, 1, chains, all) == (chains, all);
    assert {} + {"A"} == {"A"};
    assert KeepWalk([], ["A", "B", "C", "D"]) == chains;
  }
}
