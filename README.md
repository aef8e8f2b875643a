# netmap-app analysis core in Dafny

This project models the deterministic core of the netmap-app backend. That
core turns a JSON request into a node dictionary and an edge list, validates
the edges against the nodes, builds a directed graph, and finds linear chains
and cycles in it.

- `wrappers.dfy` (`Wrappers`): `Result` and `Option`.
- `json.dfy` (`Json`): JSON values. An object is an insertion-ordered dict:
  the key order plus a map.
- `format.dfy` (`Format`): `format_list`, and the read-back of its output.
- `parse.dfy` (`Parse`): `parse_graph_data`. It handles list-form nodes, the
  `from`/`to` renaming and the `ValueError` cases.
- `graph.dfy` (`Graph`): the `DiGraph` the analysis builds. It holds nodes in
  insertion order, their attribute dicts, and labelled ordered pairs.
  Degrees are counted as networkx counts them.
- `order.dfy` (`Order`): Python's `<` on strings and `sorted`.
- `validation.dfy` (`Validation`): step 1 of `run_full_analysis`. It covers
  valid edges, error records, duplicate directed pairs and unreferenced nodes.
- `build.dfy` (`Build`): step 2. It builds the graph, the node warnings, and
  the node, edge and self-loop counts.
- `chains.dfy` (`Chains`): `detect_chains`. The chain pass is driven by the
  visited set. The cycle pass keeps one candidate cycle per node set.
- `chain_example.dfy` (`ChainExample`): the chain pass on A -> B -> C -> D.
- `analysis.dfy` (`Analysis`): `run_full_analysis` restricted to the steps
  above, plus the longest chain and cycle lengths.

Loops in the source are methods with loop invariants. The loops that
compute a value (parsing, validation, duplicate counting, graph building)
are proved equal to a specification function of their input, and the
properties the source promises are lemmas about those functions. The chain
pass of `detect_chains` depends on the node order. It is proved equal to a
reference function of the graph and its order (`PassFrom`, walking with
`WalkFrom`), so for a given order the chains are determined. Its contracts
also state what holds for every order: the shape of each chain, which nodes
must start or end a chain, and where a chain may stop. The cycle pass depends
on which node `set.pop()` returns, and the kept cycles are exactly those
some order of popping the pending nodes keeps.

Three inputs are parameters of the model:

- The fuzzy matcher (`get_close_matches_for_node`) is a function parameter.
  Issue messages are tags that carry the suggested ids.
- The cycles `nx.simple_cycles(G)` enumerates are a sequence parameter.
- The arbitrary element `set.pop()` returns is a nondeterministic choice.

## Model

| member | source | states |
|---|---|---|
| Format.FormatList | backend/utils.py:9-16 | An empty list renders as `[]`. A list of at most `max_items` elements renders as all of them joined by ", ". A longer one renders as the `lst[:max_items]` elements with the total note as one more element. When that slice is empty (`max_items` of 0, or a negative one reaching past the start), the output is ", " followed by the note. |
| Format.FormatListReadBack | backend/utils.py:9-16 | Cutting the output at ", " gives back, for every `max_items`: `[]` as one piece for an empty list, every element of a list that fits, or the shown elements (one empty piece when none is shown) followed by the total note. |
| Format.DecimalRoundTrip | backend/utils.py:14 | The total in the truncation note reads back as the list's length. |
| Format.PyPrefix | backend/utils.py:14 | `lst[:max_items]` has Python's length, negative counts included, and is a prefix of the list. |
| Format.SplitJoin | backend/utils.py:14-16 | Joining comma-free elements with ", " loses none of them: cutting at ", " gives the list back. |
| Parse.ParseGraphData | backend/utils.py:63-106 | Each outcome is stated. A non-dict body gives NotAnObject. A `nodes` value that is neither list nor dict gives BadNodes, and a non-list `edges` gives BadEdges. A list-form id the dict cannot take gives the list loop's error. A dict-form `nodes` is returned unchanged. Otherwise the result is the list-form node dict and the normalized edges. |
| Parse.NodesLoop | backend/utils.py:72-80 | The list-form node loop computes the node dict `NodesFromList` describes, or its error. |
| Parse.EdgesLoop | backend/utils.py:92-103 | The edge loop computes the normalized edge list `NormalizedEdges` describes. |
| Parse.NodesFromListFails | backend/utils.py:72-80 | The list-form loop fails exactly when some entry has a non-string id. |
| Parse.NodesFromListFirstError | backend/utils.py:74-77 | The error raised is the one for the first such entry. |
| Parse.NodesFromListErrorSticks | backend/utils.py:74-77 | A failure on a prefix of the entries is the failure of the whole list. |
| Parse.NodesFromListOrder | backend/utils.py:72-80 | The node dict lists its ids in the order they first occur among the entries. A later entry with the same id keeps that place. |
| Parse.NodesFromListContents | backend/utils.py:72-80 | Each dict entry with an `"id"` is stored under its id, and a later entry overwrites an earlier one. Entries that are not dicts or lack `"id"` are skipped. Nothing else is stored, and the dict is well formed. |
| Parse.Normalize | backend/utils.py:96-100 | `from` becomes `source` only when `source` is absent, and likewise `to`/`target`. The result has both endpoints, with the right values, and every other key is unchanged. |
| Parse.NormalizedEdgesOrder | backend/utils.py:92-103 | An edge is kept iff it is a dict with (`source` or `from`) and (`target` or `to`). The k-th kept edge is the normalized copy of the k-th such entry, in input order. |
| Parse.NormalizedEdgesHaveEndpoints | backend/utils.py:93-101 | Every kept edge has a `source` and a `target`. |
| Order.BelowIrreflexive | backend/analysis.py:259 | No string sorts before itself. |
| Order.BelowTransitive | backend/analysis.py:259 | The string order `sorted` uses is transitive. |
| Order.BelowTotal | backend/analysis.py:259 | Any two different strings are ordered one way or the other. |
| Order.BelowAsymmetric | backend/analysis.py:259 | Two strings are never ordered both ways round. |
| Order.Insert | backend/analysis.py:259 | Inserting into a sorted list keeps it sorted and adds exactly the one element. |
| Order.Sort | backend/analysis.py:259 | `sorted` returns a non-decreasing permutation of its input. |
| Order.SortDistinct | backend/analysis.py:259 | Sorting distinct strings gives an increasing list of exactly those strings. |
| Order.StrictlyOrderedUnique | backend/analysis.py:259 | Two increasing lists with the same elements are equal, so the sorted listing is unique. |
| Validation.Issues | backend/analysis.py:213-224 | A source issue comes first iff the source is undefined, and a target issue comes last iff the target is undefined. Each carries the matcher's suggestions over the defined ids. There are 1 or 2 issues, and none iff both endpoints are defined. |
| Validation.ValidateEdges | backend/analysis.py:206-229 | The loop fails at the first edge with a list or object endpoint, and only then. Otherwise it returns the valid edges, the error records and the referenced ids of the whole edge list. |
| Validation.ValidEdgesMembers | backend/analysis.py:212-229 | A valid edge comes from an input edge whose source and target are both defined ids, and every such edge gives one. |
| Validation.ErrorRecordsMembers | backend/analysis.py:212-226 | An error record `{edge, issues}` is made for exactly the edges with an undefined endpoint. |
| Validation.ValidationPartition | backend/analysis.py:225-229 | Every edge yields exactly one outcome: valid edges plus error records number the edges. |
| Validation.CountPositions | backend/analysis.py:232-243 | A pair's count is the number of valid edges joining it. |
| Validation.CountPairs | backend/analysis.py:232-243 | `seen_directed` maps each pair to its count. Every pair counted at least twice is noted, and only those. |
| Validation.DuplicateDirected | backend/analysis.py:232-254 | A pair is reported iff it occurs at least twice among the valid edges. It is reported once, with its total count. |
| Validation.Unreferenced | backend/analysis.py:258 | The defined ids that no valid edge references, each once. |
| Validation.UnreferencedNodes | backend/analysis.py:257-259 | `unreferenced_nodes` lists exactly the defined ids minus the valid edges' endpoints, increasing, with no repeats. |
| Build.WarningsMembers | backend/analysis.py:264-271 | There is one warning per node whose data is not a record, and for no other node. |
| Build.AddNodes | backend/analysis.py:262-271 | Every defined node is added in definition order. A node with record data keeps its fields, and any other node gets just `label = id`. The warnings come in that order. |
| Build.EdgeMapLastWins | backend/analysis.py:275-278 | The graph's edges are exactly the distinct pairs of the valid edges. A repeated pair is one edge, labelled by its last valid edge. |
| Build.AddEdges | backend/analysis.py:275-278 | The edge loop builds that edge map. |
| Build.BuildGraph | backend/analysis.py:262-278 | The graph's nodes are the defined ids in order, its edges are the valid pairs, and it is well formed. |
| Build.BuiltCounts | backend/analysis.py:280-299 | For the built graph: the node count is the number of defined ids, the edge count the number of distinct valid pairs, the self-loop count the number of distinct pairs with source = target. |
| Chains.ExtendWalk | backend/analysis.py:41-49 | Appending an unvisited successor keeps the chain an edge-linked walk with no repeats. |
| Chains.ExtendThrough | backend/analysis.py:41-44 | Appending a one-in/one-out node keeps every interior node one-in/one-out. |
| Chains.WalkStep | backend/analysis.py:41-49 | Appending an unvisited successor and marking it visited keeps the walk simple and edge-linked. The visited set grows by exactly that node, and the count of unvisited nodes drops. |
| Chains.WalkChain | backend/analysis.py:28-50 | The walk starts at its node and follows the single successor of each node. It leaves its start only when the start has exactly one successor. Its interior nodes are one-in/one-out, and no node repeats. It takes only unvisited nodes, and marks exactly those visited. It terminates. It stops only when the last node does not have exactly one successor, or that successor was visited or is on the walk, or the walk ended by taking a node that is not one-in/one-out. The walk and the visited set it leaves are those of the reference walk `WalkFrom`. |
| Chains.VisitedThroughPred | backend/analysis.py:22-54 | During the pass, the single predecessor of a visited one-in/one-out node is visited too. |
| Chains.HeadWalks | backend/analysis.py:28-54 | A walk from a chain head never stops at the head alone. A chain head is a node that is not one-in/one-out and whose single successor is another node that is one-in/one-out. |
| Chains.StoppedMaximal | backend/analysis.py:28-50 | A walk that ends at a one-in/one-out node ends before a successor that is not one. |
| Chains.ChainEnds | backend/analysis.py:27-54 | A node on a chain that is not one-in/one-out is the chain's first or last node. |
| Chains.StartChain | backend/analysis.py:27-54 | One start of the pass keeps the pass's invariants. The kept chain has the chain shape, so the walk left its start only if the start has exactly one successor. The walk's new nodes lie on the kept chain, and a chain head ends up on a chain. The chains and visited set are those `WalkFrom` gives for this start. |
| Chains.ChainPass | backend/analysis.py:19-54 | The chains and the visited set are those of the reference pass `PassFrom` over the graph's node order, so they are determined by that order. Every chain has length at least 2 and a start that is not one-in/one-out and has exactly one successor. Its interior nodes are one-in/one-out, consecutive nodes are edges, and no node repeats. Chains are pairwise disjoint. A node ends up visited iff it is not one-in/one-out or lies on a chain. For every node order, every chain head lies on a chain. A chain that ends at a one-in/one-out node ends before a successor that is not one. |
| Chains.IsNewCycle | backend/analysis.py:72-76 | A cycle is new iff no kept cycle has the same node set. |
| Chains.TakeCyclesThrough | backend/analysis.py:66-81 | Only candidates through the popped node are added, and each is new. Each added cycle is the first candidate through the node with its node set, in candidate order. Every candidate through it ends with its node set among the kept cycles. The new nodes become visited and leave the pending set. |
| Chains.CyclePass | backend/analysis.py:59-85 | The kept cycles are candidates with pairwise different node sets. Each meets a node the chain pass left. Every such node on some candidate lies on a kept cycle. `visited` grows by exactly the kept cycles' nodes. The popped nodes, in order, are distinct pending nodes, and none lies on a candidate through an earlier one, because the nodes of a kept cycle leave the pending set. Each kept cycle is the first candidate through some popped node with its node set. Every candidate through a popped node has its node set kept. Every pending node was popped or lies on a kept cycle. |
| Chains.PopsDone | backend/analysis.py:59-81 | Such a pop order implies that each kept cycle meets a pending node, and that every pending node on a candidate lies on a kept cycle. |
| Chains.DetectChains | backend/analysis.py:17-89 | The result satisfies `Detected`. The chains are `ChainsOf(g)`, the reference pass over the graph's node order. They have the chain shape and share no node. Every chain head starts or ends a chain. A chain is cut short only at a node that is not one-in/one-out. The cycles are candidates with pairwise different node sets, each through a pending node, and every pending node on a candidate lies on a kept cycle. Some order of popping the pending nodes keeps exactly these cycles, as `CyclePass` states. A pending node is one-in/one-out and on no chain. |
| ChainExample.LineChains | backend/analysis.py:19-54 | On A -> B -> C -> D with the nodes listed in that order, the chains are exactly [[A, B, C, D]]: the walk from A appends D because D is unvisited. |
| Chains.LongestLength | backend/analysis.py:362-363 | The result bounds every length and is attained, or is 0 for no sequences. |
| Analysis.RunFullAnalysis | backend/analysis.py:204-369 | The analysis fails iff some edge has a list or object endpoint, and then carries the first such edge. Otherwise every field is stated. The error records are stated. Each duplicated pair is reported once, with its total count. The unreferenced ids are sorted. The node warnings are stated, and so are the graph's nodes, attributes and edges. The counts are the defined ids, the distinct valid pairs and the distinct self-loop pairs. The chains and cycles satisfy `Detected`: the chains are those the reference pass finds for the defined ids' order, and the cycles those some pop order keeps. With no nodes there are none. The longest lengths are the maxima. |

## Left out

- `backend/app.py` is not part of this model (HTTP routing and status mapping).
- The embedding steps, the floating-point metrics (average degrees, density, clustering, centralities, path lengths, components), the threshold sweep, the heatmap and the correlation are left out. They rely on foreign libraries and floating point.
- `nx.simple_cycles` is not modelled; its output is the `candidates` input. Nothing requires the candidates to be cycles of the graph, so the cycle properties hold for any candidate list.
- `difflib` fuzzy matching is a parameter. Issue messages are tags with the suggestion list, not the exact text.
- `custom_json_dumps` and all `print` diagnostics are left out.
- The `try`/`except` blocks around `nx.simple_cycles` and `detect_chains` are left out: the model's inputs cannot raise there.
- `Parse.NodesFromList`: a list-form entry whose `"id"` is a number, a boolean or null gives `NonStringNodeId`. Python would store it under that non-string key. Dict keys in this model are strings, so such ids, and Python's `True == 1` key collisions, are not represented. Rejecting them also hides a failure of the source: with ids of mixed types (say `1` and `"a"`) and no edges, `sorted` in backend/analysis.py:259 raises `TypeError`.
- `Format.FormatList` takes elements already rendered as text: `str(x)` of arbitrary Python objects is not modelled.
- `Validation.DuplicateDirected` does not state the order of the reports (by each pair's second occurrence), nor the label the intermediate list carries, which the source drops.
- `Chains.TakeCyclesThrough` states that each new cycle is the first candidate through the popped node with its node set, but not that the new cycles are appended in increasing candidate order.
- `Analysis.RunFullAnalysis` requires a well-formed node dict. A dict decoded from JSON always has distinct keys.
- `Analysis.RunFullAnalysis` returns the edge that makes Python raise `TypeError`. The source's exception propagates instead.
- `Analysis.RunFullAnalysis` returns only the results the model computes. The metric fields it does not compute are left out, as above.
