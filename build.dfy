/**
 * Step 2 of `run_full_analysis` (backend/analysis.py): build the directed
 * graph from the defined nodes and the valid edges, and count its nodes,
 * edges and self-loops.
 */
module Build {
  import opened Json
  import opened Graph
  import opened Validation

  /** "Node '…' has invalid data format, using default attributes." */
  datatype Warning = InvalidNodeData(id: NodeId)

  /** `number_of_nodes()`, `number_of_edges()`, `number_of_selfloops(G)` */
  datatype Counts = Counts(numNodes: nat, numEdges: nat, numSelfLoops: nat)

  /**
   * The attributes `G.add_node` stores for a node: the fields of its
   * record, or `label=str(node_id)` when its data is not a record.
   */
  function NodeAttrs(id: NodeId, data: Json): Dict<Json> {
    if data.JObj? then data.obj else Dict(["label"], map["label" := JStr(id)])
  }

  /** The warnings for `ids`, in order: one for each id whose data is not a record. */
  function Warnings(nodes: Dict<Json>, ids: seq<NodeId>): seq<Warning>
    requires forall id :: id in ids ==> id in nodes.vals
  {
    if ids == [] then []
    else
      var id := ids[|ids| - 1];
      Warnings(nodes, ids[..|ids| - 1]) + (if nodes.vals[id].JObj? then [] else [InvalidNodeData(id)])
  }

  /** A warning names exactly the nodes whose data is not a record, each once. */
  lemma {:induction false} WarningsMembers(nodes: Dict<Json>, ids: seq<NodeId>)
    requires forall id :: id in ids ==> id in nodes.vals
    ensures forall w :: w in Warnings(nodes, ids) <==> w.id in ids && !nodes.vals[w.id].JObj?
    ensures Distinct(ids) ==> Distinct(Warnings(nodes, ids))
  {
    if ids != [] {
      var init := ids[..|ids| - 1];
      WarningsMembers(nodes, init);
      assert ids == init + [ids[|ids| - 1]];
      if Distinct(ids) {
        assert Distinct(init);
        assert ids[|ids| - 1] !in init;
      }
    }
  }

  /** The edge map after `G.add_edge(source, target, label=…)` for each valid edge in turn. */
  function EdgeMap(valid: seq<ValidEdge>): map<Pair, Json> {
    if valid == [] then map[]
    else
      var v := valid[|valid| - 1];
      EdgeMap(valid[..|valid| - 1])[v.Key() := v.edgeLabel]
  }

  /** `k` is the last position of a valid edge joining `p`. */
  ghost predicate LastAt(valid: seq<ValidEdge>, p: Pair, k: int) {
    && 0 <= k < |valid|
    && valid[k].Key() == p
    && forall l :: k < l < |valid| ==> valid[l].Key() != p
  }

  /**
   * A repeated pair is one edge: the edges are exactly the pairs of the
   * valid edges, and an edge's label is the label of the last valid edge
   * with that pair.
   */
  lemma {:induction false} EdgeMapLastWins(valid: seq<ValidEdge>)
    ensures EdgeMap(valid).Keys == set v | v in valid :: v.Key()
    ensures forall p :: p in EdgeMap(valid) ==> exists k :: LastAt(valid, p, k) && EdgeMap(valid)[p] == valid[k].edgeLabel
  {
    if valid != [] {
      var n := |valid| - 1;
      var init := valid[..n];
      EdgeMapLastWins(init);
      assert valid == init + [valid[n]];
      forall p | p in EdgeMap(valid) ensures exists k :: LastAt(valid, p, k) && EdgeMap(valid)[p] == valid[k].edgeLabel {
        if p == valid[n].Key() {
          assert LastAt(valid, p, n) && EdgeMap(valid)[p] == valid[n].edgeLabel;
        } else {
          var k :| LastAt(init, p, k) && EdgeMap(init)[p] == init[k].edgeLabel;
          assert LastAt(valid, p, k);
        }
      }
    }
  }

  /** The node loop: `G.add_node` for each defined node, in definition order. */
  method AddNodes(nodes: Dict<Json>) returns (order: seq<NodeId>, attrs: map<NodeId, Dict<Json>>, warnings: seq<Warning>)
    requires nodes.Valid()
    ensures order == nodes.keys
    ensures forall id :: id in attrs <==> id in nodes.vals
    ensures forall id :: id in attrs ==> attrs[id] == NodeAttrs(id, nodes.vals[id])
    ensures warnings == Warnings(nodes, nodes.keys)
  {
    order := [];
    attrs := map[];
    warnings := [];
    for i := 0 to |nodes.keys|
      invariant order == nodes.keys[..i]
      invariant forall id :: id in attrs <==> id in order
      invariant forall id :: id in attrs ==> attrs[id] == NodeAttrs(id, nodes.vals[id])
      invariant warnings == Warnings(nodes, order)
    {
      var id := nodes.keys[i];
      var data := nodes.vals[id];
      WarningsStep(nodes, i);
      order := order + [id];
      attrs := attrs[id := NodeAttrs(id, data)];
      if !data.JObj? {
        warnings := warnings + [InvalidNodeData(id)];
      }
    }
    assert nodes.keys[..|nodes.keys|] == nodes.keys;
  }

  lemma WarningsStep(nodes: Dict<Json>, i: nat)
    requires nodes.Valid() && i < |nodes.keys|
    ensures nodes.keys[..i + 1] == nodes.keys[..i] + [nodes.keys[i]]
    ensures Warnings(nodes, nodes.keys[..i + 1]) == Warnings(nodes, nodes.keys[..i])
      + (if nodes.vals[nodes.keys[i]].JObj? then [] else [InvalidNodeData(nodes.keys[i])])
  {
    var ids := nodes.keys[..i + 1];
    assert ids[..|ids| - 1] == nodes.keys[..i];
  }

  /** The edge loop: `G.add_edge(source, target, label=label)` for each valid edge. */
  method AddEdges(valid: seq<ValidEdge>) returns (edges: map<Pair, Json>)
    ensures edges == EdgeMap(valid)
  {
    edges := map[];
    for i := 0 to |valid|
      invariant edges == EdgeMap(valid[..i])
    {
      assert valid[..i + 1][..i] == valid[..i];
      edges := edges[valid[i].Key() := valid[i].edgeLabel];
    }
    assert valid[..|valid|] == valid;
  }

  /**
   * Build the graph: every defined node in definition order, with a
   * warning for each whose data is not a record, then every valid edge.
   */
  method BuildGraph(nodes: Dict<Json>, valid: seq<ValidEdge>) returns (g: Graph, warnings: seq<Warning>)
    requires nodes.Valid()
    requires forall v :: v in valid ==> v.source in nodes.vals && v.target in nodes.vals
    ensures g.order == nodes.keys
    ensures forall id :: id in nodes.vals ==> id in g.attrs && g.attrs[id] == NodeAttrs(id, nodes.vals[id])
    ensures warnings == Warnings(nodes, nodes.keys)
    ensures g.edges == EdgeMap(valid)
    ensures WellFormed(g)
  {
    var order, attrs;
    order, attrs, warnings := AddNodes(nodes);
    var edges := AddEdges(valid);
    g := Graph(order, attrs, edges);
    EdgeMapLastWins(valid);
    assert forall p :: p in edges ==> exists v :: v in valid && v.Key() == p;
  }

  /** The three counts of the built graph. */
  function GraphCounts(g: Graph): (c: Counts)
    requires WellFormed(g)
    ensures c.numNodes == |NodeSet(g)|
    ensures c.numEdges == |g.edges.Keys|
    ensures c.numSelfLoops == |SelfLoops(g)|
  {
    DistinctCard(g.order);
    Counts(|g.order|, |g.edges|, |SelfLoops(g)|)
  }

  lemma {:induction false} DistinctCard(s: seq<NodeId>)
    requires Distinct(s)
    ensures |NodesOf(s)| == |s|
  {
    if s != [] {
      var init := s[..|s| - 1];
      assert Distinct(init);
      DistinctCard(init);
      assert s == init + [s[|s| - 1]];
      assert NodesOf(s) == NodesOf(init) + {s[|s| - 1]};
    }
  }

  /**
   * The counts of a graph built from `valid`: the number of distinct
   * directed pairs, and of distinct pairs with source = target.
   */
  lemma BuiltCounts(nodes: Dict<Json>, valid: seq<ValidEdge>, g: Graph)
    requires WellFormed(g) && g.order == nodes.keys && g.edges == EdgeMap(valid)
    ensures GraphCounts(g).numNodes == |nodes.keys|
    ensures GraphCounts(g).numEdges == |set v | v in valid :: v.Key()|
    ensures GraphCounts(g).numSelfLoops == |set v | v in valid && v.source == v.target :: v.Key()|
  {
    EdgeMapLastWins(valid);
    var loops := set v | v in valid && v.source == v.target :: v.Key();
    forall p | p in SelfLoops(g) ensures p in loops {
      var k :| LastAt(valid, p, k) && EdgeMap(valid)[p] == valid[k].edgeLabel;
      assert valid[k] in valid;
    }
    assert SelfLoops(g) == loops;
  }
}
