/**
 * Step 1 of `run_full_analysis` (backend/analysis.py): split the edge list
 * into valid edges and per-edge error records, count repeated directed
 * pairs among the valid edges, and list the defined nodes no valid edge
 * mentions.
 */
module Validation {
  import opened Wrappers
  import opened Json
  import opened Graph
  import opened Order

  /** `edge.get("source")`: `None` when the key is missing. */
  function Source(e: Dict<Json>): Json {
    e.Get("source", JNull)
  }

  /** `edge.get("target")` */
  function Target(e: Dict<Json>): Json {
    e.Get("target", JNull)
  }

  /**
   * `x in nodes_dict` for a hashable `x`. The keys are strings, and no
   * number, boolean or `None` equals a string.
   */
  predicate Defined(nodes: Dict<Json>, x: Json) {
    x.JStr? && x.s in nodes.vals
  }

  predicate BothDefined(nodes: Dict<Json>, e: Dict<Json>) {
    Defined(nodes, Source(e)) && Defined(nodes, Target(e))
  }

  /** An endpoint that is a list or an object makes `x in nodes_dict` raise `TypeError`. */
  predicate UnhashableEndpoint(e: Dict<Json>) {
    Source(e).Unhashable() || Target(e).Unhashable()
  }

  /**
   * `get_close_matches_for_node(x, defined_node_ids)`: fuzzy matching of
   * `str(x)` against the defined ids, supplied by the caller.
   */
  type Matcher = (Json, seq<NodeId>) -> seq<NodeId>

  /** "Edge source/target '…' not defined.", with the suggested ids of " Did you mean: …?". */
  datatype Issue =
    | SourceUndefined(source: Json, suggestions: seq<NodeId>)
    | TargetUndefined(target: Json, suggestions: seq<NodeId>)

  /** `{"edge": edge, "issues": edge_errors}` */
  datatype EdgeError = EdgeError(edge: Dict<Json>, issues: seq<Issue>)

  /** What later steps read of a valid edge: `edge["source"]`, `edge["target"]`, `edge.get("label", "")`. */
  datatype ValidEdge = ValidEdge(source: NodeId, target: NodeId, edgeLabel: Json)
  {
    function Key(): Pair {
      (source, target)
    }
  }

  /** `{"source": …, "target": …, "count": …}` of `duplicate_directed`. */
  datatype Duplicate = Duplicate(source: NodeId, target: NodeId, count: nat)
  {
    function Key(): Pair {
      (source, target)
    }
  }

  /** The issues of one edge: a source issue, then a target issue, each only when that endpoint is undefined. */
  function Issues(nodes: Dict<Json>, closeMatches: Matcher, e: Dict<Json>): (r: seq<Issue>)
    ensures r == [] <==> BothDefined(nodes, e)
    ensures |r| == (if Defined(nodes, Source(e)) then 0 else 1) + (if Defined(nodes, Target(e)) then 0 else 1)
    ensures !Defined(nodes, Source(e)) <==>
      |r| > 0 && r[0] == SourceUndefined(Source(e), closeMatches(Source(e), nodes.keys))
    ensures !Defined(nodes, Target(e)) <==>
      |r| > 0 && r[|r| - 1] == TargetUndefined(Target(e), closeMatches(Target(e), nodes.keys))
  {
    var src := Source(e);
    var tgt := Target(e);
    (if Defined(nodes, src) then [] else [SourceUndefined(src, closeMatches(src, nodes.keys))])
    + (if Defined(nodes, tgt) then [] else [TargetUndefined(tgt, closeMatches(tgt, nodes.keys))])
  }

  function AsValid(e: Dict<Json>): ValidEdge
    requires Source(e).JStr? && Target(e).JStr?
  {
    ValidEdge(Source(e).s, Target(e).s, e.Get("label", JStr("")))
  }

  /** `valid_edges` after the validation loop has seen `edges`. */
  function ValidEdges(nodes: Dict<Json>, edges: seq<Dict<Json>>): seq<ValidEdge>
  {
    if edges == [] then []
    else
      var e := edges[|edges| - 1];
      ValidEdges(nodes, edges[..|edges| - 1]) + (if BothDefined(nodes, e) then [AsValid(e)] else [])
  }

  /** `results["validation"]["errors"]` after the validation loop has seen `edges`. */
  function ErrorRecords(nodes: Dict<Json>, closeMatches: Matcher, edges: seq<Dict<Json>>): seq<EdgeError>
  {
    if edges == [] then []
    else
      var e := edges[|edges| - 1];
      ErrorRecords(nodes, closeMatches, edges[..|edges| - 1])
      + (if BothDefined(nodes, e) then [] else [EdgeError(e, Issues(nodes, closeMatches, e))])
  }

  /** `referenced_nodes`: both endpoints of every valid edge. */
  function Referenced(valid: seq<ValidEdge>): set<NodeId> {
    (set v | v in valid :: v.source) + (set v | v in valid :: v.target)
  }

  /** A valid edge is one whose source and target are both defined node ids. */
  lemma {:induction false} ValidEdgesMembers(nodes: Dict<Json>, edges: seq<Dict<Json>>)
    ensures forall v :: v in ValidEdges(nodes, edges) <==>
      exists e :: e in edges && BothDefined(nodes, e) && v == AsValid(e)
  {
    if edges != [] {
      var init := edges[..|edges| - 1];
      ValidEdgesMembers(nodes, init);
      assert edges == init + [edges[|edges| - 1]];
    }
  }

  /** An error record is made for exactly the edges with an undefined endpoint, carrying that edge's issues. */
  lemma {:induction false} ErrorRecordsMembers(nodes: Dict<Json>, closeMatches: Matcher, edges: seq<Dict<Json>>)
    ensures forall r :: r in ErrorRecords(nodes, closeMatches, edges) <==>
      exists e :: e in edges && !BothDefined(nodes, e) && r == EdgeError(e, Issues(nodes, closeMatches, e))
  {
    if edges != [] {
      var init := edges[..|edges| - 1];
      ErrorRecordsMembers(nodes, closeMatches, init);
      assert edges == init + [edges[|edges| - 1]];
    }
  }

  /** Every edge yields exactly one outcome: a valid edge or an error record, never both, never neither. */
  lemma {:induction false} ValidationPartition(nodes: Dict<Json>, closeMatches: Matcher, edges: seq<Dict<Json>>)
    ensures |ValidEdges(nodes, edges)| + |ErrorRecords(nodes, closeMatches, edges)| == |edges|
  {
    if edges != [] {
      ValidationPartition(nodes, closeMatches, edges[..|edges| - 1]);
    }
  }

  lemma ValidateStep(nodes: Dict<Json>, closeMatches: Matcher, edges: seq<Dict<Json>>, i: nat)
    requires i < |edges|
    ensures ValidEdges(nodes, edges[..i + 1])
         == ValidEdges(nodes, edges[..i]) + (if BothDefined(nodes, edges[i]) then [AsValid(edges[i])] else [])
    ensures ErrorRecords(nodes, closeMatches, edges[..i + 1])
         == ErrorRecords(nodes, closeMatches, edges[..i])
            + (if BothDefined(nodes, edges[i]) then [] else [EdgeError(edges[i], Issues(nodes, closeMatches, edges[i]))])
  {
    assert edges[..i + 1][..i] == edges[..i];
  }

  lemma ReferencedSnoc(valid: seq<ValidEdge>, v: ValidEdge)
    ensures Referenced(valid + [v]) == Referenced(valid) + {v.source, v.target}
  {
    assert forall w :: w in valid + [v] <==> w in valid || w == v;
  }

  /**
   * The validation loop. It fails, as Python's `in` does with `TypeError`,
   * at the first edge with a list or object endpoint.
   */
  method ValidateEdges(nodes: Dict<Json>, closeMatches: Matcher, edges: seq<Dict<Json>>)
    returns (r: Result<(seq<ValidEdge>, seq<EdgeError>, set<NodeId>), Dict<Json>>)
    ensures r.Err? <==> exists i :: 0 <= i < |edges| && UnhashableEndpoint(edges[i])
    ensures r.Err? ==> exists i :: (0 <= i < |edges| && r.error == edges[i] && UnhashableEndpoint(edges[i])
      && forall j :: 0 <= j < i ==> !UnhashableEndpoint(edges[j]))
    ensures r.Ok? ==> r.value.0 == ValidEdges(nodes, edges)
    ensures r.Ok? ==> r.value.1 == ErrorRecords(nodes, closeMatches, edges)
    ensures r.Ok? ==> r.value.2 == Referenced(ValidEdges(nodes, edges))
  {
    var valid: seq<ValidEdge> := [];
    var errors: seq<EdgeError> := [];
    var referenced: set<NodeId> := {};
    for i := 0 to |edges|
      invariant forall j :: 0 <= j < i ==> !UnhashableEndpoint(edges[j])
      invariant valid == ValidEdges(nodes, edges[..i])
      invariant errors == ErrorRecords(nodes, closeMatches, edges[..i])
      invariant referenced == Referenced(valid)
    {
      var edge := edges[i];
      if UnhashableEndpoint(edge) {
        return Err(edge);
      }
      assert forall j :: 0 <= j < i + 1 ==> !UnhashableEndpoint(edges[j]) by {
        forall j | 0 <= j < i + 1 ensures !UnhashableEndpoint(edges[j]) {
          if j == i {
            assert edges[j] == edge;
          }
        }
      }
      ValidateStep(nodes, closeMatches, edges, i);
      var issues := Issues(nodes, closeMatches, edge);
      if issues != [] {
        errors := errors + [EdgeError(edge, issues)];
      } else {
        var v := AsValid(edge);
        ReferencedSnoc(valid, v);
        valid := valid + [v];
        referenced := referenced + {v.source, v.target};
      }
    }
    assert edges[..|edges|] == edges;
    return Ok((valid, errors, referenced));
  }

  /** How many valid edges join the directed pair `p`. */
  function Count(valid: seq<ValidEdge>, p: Pair): nat {
    if valid == [] then 0
    else Count(valid[..|valid| - 1], p) + (if valid[|valid| - 1].Key() == p then 1 else 0)
  }

  /** `Count` is the number of positions holding the pair. */
  lemma {:induction false} CountPositions(valid: seq<ValidEdge>, p: Pair)
    ensures Count(valid, p) == |set i | 0 <= i < |valid| && valid[i].Key() == p|
  {
    if valid != [] {
      var n := |valid| - 1;
      var init := valid[..n];
      CountPositions(init, p);
      var before := set i | 0 <= i < n && init[i].Key() == p;
      var all := set i | 0 <= i < |valid| && valid[i].Key() == p;
      assert forall i :: 0 <= i < n ==> init[i] == valid[i];
      if valid[n].Key() == p {
        assert all == before + {n};
      } else {
        assert all == before;
      }
    }
  }

  /**
   * The counting loop of the duplicate check: `seen_directed` maps each
   * pair to its number of valid edges, and a pair is noted each time it is
   * seen again.
   */
  method CountPairs(valid: seq<ValidEdge>) returns (seen: map<Pair, nat>, noted: seq<Pair>)
    ensures forall p :: p in seen <==> Count(valid, p) > 0
    ensures forall p :: p in seen ==> seen[p] == Count(valid, p)
    ensures forall k :: 0 <= k < |noted| ==> Count(valid, noted[k]) >= 2
    ensures forall p :: Count(valid, p) >= 2 ==> p in noted
  {
    seen := map[];
    noted := [];
    for i := 0 to |valid|
      invariant forall p :: p in seen <==> Count(valid[..i], p) > 0
      invariant forall p :: p in seen ==> seen[p] == Count(valid[..i], p)
      invariant forall k :: 0 <= k < |noted| ==> Count(valid[..i], noted[k]) >= 2
      invariant forall p :: Count(valid[..i], p) >= 2 ==> p in noted
    {
      assert valid[..i + 1][..i] == valid[..i];
      var key := valid[i].Key();
      var count := (if key in seen then seen[key] else 0) + 1;
      if count > 1 {
        noted := noted + [key];
      }
      seen := seen[key := count];
    }
    assert valid[..|valid|] == valid;
  }

  /**
   * The duplicate check: each directed pair that more than one valid edge
   * joins is reported once, with its total count.
   */
  method DuplicateDirected(valid: seq<ValidEdge>) returns (dupes: seq<Duplicate>)
    ensures forall k :: 0 <= k < |dupes| ==> dupes[k].count == Count(valid, dupes[k].Key()) >= 2
    ensures forall p :: Count(valid, p) >= 2 <==> exists k :: 0 <= k < |dupes| && dupes[k].Key() == p
    ensures forall k, l :: 0 <= k < l < |dupes| ==> dupes[k].Key() != dupes[l].Key()
  {
    var seen, noted := CountPairs(valid);
    var reported: set<Pair> := {};
    dupes := [];
    for j := 0 to |noted|
      invariant forall k :: 0 <= k < |dupes| ==> dupes[k].count == Count(valid, dupes[k].Key()) >= 2
      invariant reported == Keys(dupes)
      invariant forall k :: 0 <= k < j ==> noted[k] in reported
      invariant forall p :: p in reported ==> p in noted
      invariant forall k, l :: 0 <= k < l < |dupes| ==> dupes[k].Key() != dupes[l].Key()
    {
      var key := noted[j];
      if key !in reported {
        KeysSnoc(dupes, Duplicate(key.0, key.1, seen[key]));
        dupes := dupes + [Duplicate(key.0, key.1, seen[key])];
        reported := reported + {key};
      }
    }
  }

  /** The pairs a list of reports names. */
  function Keys(dupes: seq<Duplicate>): set<Pair> {
    set k | 0 <= k < |dupes| :: dupes[k].Key()
  }

  lemma KeysSnoc(dupes: seq<Duplicate>, d: Duplicate)
    ensures Keys(dupes + [d]) == Keys(dupes) + {d.Key()}
  {
    var ds := dupes + [d];
    assert forall k :: 0 <= k < |dupes| ==> ds[k] == dupes[k];
    assert ds[|dupes|] == d;
  }

  /** The defined ids, in definition order, that `referenced` does not hold. */
  function Unreferenced(ids: seq<NodeId>, referenced: set<NodeId>): (r: seq<NodeId>)
    ensures forall x :: x in r <==> x in ids && x !in referenced
    ensures Distinct(ids) ==> Distinct(r)
  {
    if ids == [] then []
    else
      var rest := Unreferenced(ids[1..], referenced);
      assert Distinct(ids) ==> ids[0] !in ids[1..];
      assert Distinct(ids) ==> Distinct(ids[1..]) by {
        if Distinct(ids) {
          forall i, j | 0 <= i < j < |ids[1..]| ensures ids[1..][i] != ids[1..][j] {
            assert ids[1..][i] == ids[i + 1];
          }
        }
      }
      (if ids[0] in referenced then [] else [ids[0]]) + rest
  }

  /**
   * `sorted(list(set(defined_node_ids) - referenced_nodes))`: exactly the
   * defined ids no valid edge mentions, increasing, each once.
   */
  function UnreferencedNodes(nodes: Dict<Json>, referenced: set<NodeId>): (r: seq<NodeId>)
    requires nodes.Valid()
    ensures StrictlyOrdered(r)
    ensures forall x :: x in r <==> x in nodes.vals && x !in referenced
  {
    var ids := Unreferenced(nodes.keys, referenced);
    SortDistinct(ids);
    Sort(ids)
  }
}
