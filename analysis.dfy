/**
 * The verified part of `run_full_analysis` (backend/analysis.py): edge
 * validation, the graph and its counts, and the chain/cycle structure
 * with the longest lengths. The metrics and embedding steps are not part
 * of this model.
 */
module Analysis {
  import opened Wrappers
  import opened Json
  import opened Graph
  import opened Order
  import opened Validation
  import opened Build
  import opened Chains

  /** The parts of `results` the model computes, and the graph `G` they describe. */
  datatype Report = Report(
    errors: seq<EdgeError>,
    warnings: seq<Warning>,
    duplicates: seq<Duplicate>,
    unreferenced: seq<NodeId>,
    graph: Graph,
    counts: Counts,
    chains: seq<seq<NodeId>>,
    cycles: seq<seq<NodeId>>,
    longestChain: nat,
    longestCycle: nat)

  /**
   * `run_full_analysis(nodes_dict, edges_list)`. `closeMatches` stands for
   * the fuzzy matcher and `candidates` for the cycles `nx.simple_cycles(G)`
   * enumerates. The analysis fails, with the offending edge, where Python
   * raises `TypeError` on a list or object endpoint.
   */
  method RunFullAnalysis(nodes: Dict<Json>, edges: seq<Dict<Json>>, closeMatches: Matcher, candidates: seq<seq<NodeId>>)
    returns (r: Result<Report, Dict<Json>>)
    requires nodes.Valid()
    ensures r.Err? <==> exists i :: 0 <= i < |edges| && UnhashableEndpoint(edges[i])
    ensures r.Err? ==> exists i :: (0 <= i < |edges| && r.error == edges[i] && UnhashableEndpoint(edges[i])
      && forall j :: 0 <= j < i ==> !UnhashableEndpoint(edges[j]))
    ensures r.Ok? ==> r.value.errors == ErrorRecords(nodes, closeMatches, edges)
    ensures r.Ok? ==> forall p :: Count(ValidEdges(nodes, edges), p) >= 2 <==>
      exists k :: 0 <= k < |r.value.duplicates| && r.value.duplicates[k].Key() == p
    ensures r.Ok? ==> forall k :: 0 <= k < |r.value.duplicates| ==>
      r.value.duplicates[k].count == Count(ValidEdges(nodes, edges), r.value.duplicates[k].Key())
    ensures r.Ok? ==> forall k, l :: 0 <= k < l < |r.value.duplicates| ==>
      r.value.duplicates[k].Key() != r.value.duplicates[l].Key()
    ensures r.Ok? ==> StrictlyOrdered(r.value.unreferenced)
    ensures r.Ok? ==> forall x :: x in r.value.unreferenced <==>
      x in nodes.vals && x !in Referenced(ValidEdges(nodes, edges))
    ensures r.Ok? ==> r.value.warnings == Warnings(nodes, nodes.keys)
    ensures r.Ok? ==> WellFormed(r.value.graph) && r.value.graph.order == nodes.keys
    ensures r.Ok? ==> forall id :: id in nodes.vals ==>
      id in r.value.graph.attrs && r.value.graph.attrs[id] == NodeAttrs(id, nodes.vals[id])
    ensures r.Ok? ==> r.value.graph.edges == EdgeMap(ValidEdges(nodes, edges))
    ensures r.Ok? ==> r.value.counts.numNodes == |nodes.keys|
    ensures r.Ok? ==> r.value.counts.numEdges == |set v | v in ValidEdges(nodes, edges) :: v.Key()|
    ensures r.Ok? ==> (r.value.counts.numSelfLoops ==
      |set v | v in ValidEdges(nodes, edges) && v.source == v.target :: v.Key()|)
    ensures r.Ok? ==> Detected(r.value.graph, candidates, r.value.chains, r.value.cycles)
    ensures r.Ok? && nodes.keys == [] ==> r.value.chains == [] && r.value.cycles == []
    ensures r.Ok? ==> r.value.longestChain == LongestLength(r.value.chains)
    ensures r.Ok? ==> r.value.longestCycle == LongestLength(r.value.cycles)
  {
    var split := ValidateEdges(nodes, closeMatches, edges);
    if split.Err? {
      return Err(split.error);
    }
    var (valid, errors, referenced) := split.value;
    ValidEdgesMembers(nodes, edges);
    var duplicates := DuplicateDirected(valid);
    var unreferenced := UnreferencedNodes(nodes, referenced);
    var g, warnings := BuildGraph(nodes, valid);
    var counts := GraphCounts(g);
    BuiltCounts(nodes, valid, g);
    var chains: seq<seq<NodeId>> := [];
    var cycles: seq<seq<NodeId>> := [];
    if counts.numNodes > 0 {
      chains, cycles := DetectChains(g, candidates);
    } else {
      NothingDetected(g, candidates);
    }
    return Ok(Report(errors, warnings, duplicates, unreferenced, g, counts, chains, cycles,
                     LongestLength(chains), LongestLength(cycles)));
  }
}
