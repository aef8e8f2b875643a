/**
 * `parse_graph_data` (backend/utils.py): turns the request body into the
 * id-keyed node dict and the list of edges the analysis works on.
 */
module Parse {
  import opened Wrappers
  import opened Json

  datatype ParseError =
    | NotAnObject       // ValueError: the body is not a dict
    | BadNodes          // ValueError: "nodes" is neither a list nor a dict
    | BadEdges          // ValueError: "edges" is not a list
    | UnhashableNodeId  // TypeError: a list-form node's "id" is a list or a dict
    | NonStringNodeId   // a list-form node's "id" is a number, a bool or null (see README)

  /** `graph_data.get("nodes", {})` */
  function NodesRaw(body: Dict<Json>): Json {
    body.Get("nodes", JObj(Empty()))
  }

  /** `graph_data.get("edges", [])` */
  function EdgesRaw(body: Dict<Json>): Json {
    body.Get("edges", JArr([]))
  }

  /** The id a list-form node entry is stored under, or None when the entry is skipped. */
  function EntryId(item: Json): Option<Json> {
    if item.JObj? && item.obj.Has("id") then Some(item.obj.vals["id"]) else None
  }

  /** A string id of a list entry, or None for skipped entries and non-string ids. */
  function StringId(item: Json): Option<string> {
    match EntryId(item)
    case Some(JStr(s)) => Some(s)
    case _ => None
  }

  /** An entry whose id the model cannot store. */
  predicate BadId(item: Json) {
    EntryId(item).Some? && !EntryId(item).value.JStr?
  }

  /** The node dict the list-form loop builds: `nodes[item["id"]] = item` for each entry in turn. */
  function NodesFromList(items: seq<Json>): Result<Dict<Json>, ParseError>
    decreases |items|
  {
    if items == [] then Ok(Empty())
    else
      match NodesFromList(items[..|items| - 1])
      case Err(e) => Err(e)
      case Ok(d) =>
        var item := items[|items| - 1];
        match EntryId(item)
        case None => Ok(d)
        case Some(JStr(s)) => Ok(d.Set(s, item))
        case Some(id) => Err(if id.Unhashable() then UnhashableNodeId else NonStringNodeId)
  }

  /** The list-form loop fails exactly when some entry has an id the dict cannot take. */
  lemma {:induction false} NodesFromListFails(items: seq<Json>)
    ensures NodesFromList(items).Err? <==> exists i :: 0 <= i < |items| && BadId(items[i])
    decreases |items|
  {
    if items != [] {
      var init := items[..|items| - 1];
      NodesFromListFails(init);
      if exists i :: 0 <= i < |init| && BadId(init[i]) {
        var i :| 0 <= i < |init| && BadId(init[i]);
        assert items[i] == init[i];
      }
      if exists i :: 0 <= i < |items| && BadId(items[i]) {
        var i :| 0 <= i < |items| && BadId(items[i]);
        if i < |init| {
          assert init[i] == items[i];
        }
      }
    }
  }

  /** Once a prefix of the entries has failed, the whole list fails with the same error. */
  lemma {:induction false} NodesFromListErrorSticks(items: seq<Json>, i: nat)
    requires i <= |items| && NodesFromList(items[..i]).Err?
    ensures NodesFromList(items) == NodesFromList(items[..i])
    decreases |items| - i
  {
    if i < |items| {
      assert items[..i + 1][..i] == items[..i];
      NodesFromListErrorSticks(items, i + 1);
    } else {
      assert items[..i] == items;
    }
  }

  /** The error raised is the one for the first entry with a bad id. */
  lemma {:induction false} NodesFromListFirstError(items: seq<Json>, i: nat)
    requires i < |items| && BadId(items[i])
    requires forall j :: 0 <= j < i ==> !BadId(items[j])
    ensures NodesFromList(items)
         == Err(if EntryId(items[i]).value.Unhashable() then UnhashableNodeId else NonStringNodeId)
    decreases |items|
  {
    var init := items[..|items| - 1];
    if i < |init| {
      NodesFromListFirstError(init, i);
    } else {
      assert init == items[..i];
      NodesFromListFails(init);
    }
  }

  /**
   * The node dict stores every entry with a string id under that id, the
   * value being the LAST entry carrying it, and nothing else.
   */
  ghost predicate StoresEntries(items: seq<Json>, d: Dict<Json>) {
    && d.Valid()
    && (forall k :: k in d.vals <==> exists i :: 0 <= i < |items| && StringId(items[i]) == Some(k))
    && (forall i ::
         (&& 0 <= i < |items|
          && StringId(items[i]).Some?
          && (forall j :: i < j < |items| ==> StringId(items[j]) != StringId(items[i])))
         ==> d.vals[StringId(items[i]).value] == items[i])
  }

  /** Storing one more entry (or skipping it) keeps `StoresEntries`. */
  lemma StoresEntriesSnoc(init: seq<Json>, d: Dict<Json>, last: Json)
    requires StoresEntries(init, d)
    ensures StoresEntries(init + [last], if StringId(last).Some? then d.Set(StringId(last).value, last) else d)
  {
    var items := init + [last];
    assert forall i :: 0 <= i < |init| ==> items[i] == init[i];
    assert items[|init|] == last;
  }

  /** On success the list-form loop's dict stores the entries as `StoresEntries` says. */
  lemma {:induction false} NodesFromListContents(items: seq<Json>)
    requires NodesFromList(items).Ok?
    ensures StoresEntries(items, NodesFromList(items).value)
    decreases |items|
  {
    if items != [] {
      var init := items[..|items| - 1];
      var last := items[|items| - 1];
      NodesFromListContents(init);
      StoresEntriesSnoc(init, NodesFromList(init).value, last);
      assert items == init + [last];
    }
  }

  /** `i` is the first position of an entry whose string id is `k`. */
  ghost predicate FirstAt(items: seq<Json>, k: string, i: int) {
    && 0 <= i < |items| && StringId(items[i]) == Some(k)
    && forall j :: 0 <= j < i ==> StringId(items[j]) != Some(k)
  }

  /** The dict's keys come in the order in which their ids first occur among the entries. */
  ghost predicate FirstOccurrenceOrder(items: seq<Json>, d: Dict<Json>) {
    forall a, b, i, j :: 0 <= a < b < |d.keys| && FirstAt(items, d.keys[a], i) && FirstAt(items, d.keys[b], j) ==> i < j
  }

  /** An id that occurs among the earlier entries first occurs before the new entry. */
  lemma FirstBeforeLast(init: seq<Json>, last: Json, k: string, p: nat, i: int)
    requires p < |init| && StringId(init[p]) == Some(k)
    requires FirstAt(init + [last], k, i)
    ensures FirstAt(init, k, i)
  {
    assert (init + [last])[p] == init[p];
    assert i <= p;
    forall j | 0 <= j < i ensures StringId(init[j]) != Some(k) {
      assert (init + [last])[j] == init[j];
    }
  }

  /** Storing one more entry (or skipping it) keeps the first-occurrence order. */
  lemma FirstOccurrenceSnoc(init: seq<Json>, d: Dict<Json>, last: Json)
    requires StoresEntries(init, d) && FirstOccurrenceOrder(init, d)
    ensures FirstOccurrenceOrder(init + [last], if StringId(last).Some? then d.Set(StringId(last).value, last) else d)
  {
    var items := init + [last];
    var d' := if StringId(last).Some? then d.Set(StringId(last).value, last) else d;
    forall a, b, i, j | 0 <= a < b < |d'.keys| && FirstAt(items, d'.keys[a], i) && FirstAt(items, d'.keys[b], j)
      ensures i < j
    {
      assert d'.keys[a] == d.keys[a];
      var pa :| 0 <= pa < |init| && StringId(init[pa]) == Some(d.keys[a]);
      FirstBeforeLast(init, last, d.keys[a], pa, i);
      if b < |d.keys| {
        assert d'.keys[b] == d.keys[b];
        var pb :| 0 <= pb < |init| && StringId(init[pb]) == Some(d.keys[b]);
        FirstBeforeLast(init, last, d.keys[b], pb, j);
      } else {
        var k := d'.keys[b];
        assert k !in d.vals;
      }
    }
  }

  /** On success the list-form loop's dict lists its keys in first-occurrence order. */
  lemma {:induction false} NodesFromListOrder(items: seq<Json>)
    requires NodesFromList(items).Ok?
    ensures FirstOccurrenceOrder(items, NodesFromList(items).value)
    decreases |items|
  {
    if items != [] {
      var init := items[..|items| - 1];
      var last := items[|items| - 1];
      NodesFromListOrder(init);
      NodesFromListContents(init);
      FirstOccurrenceSnoc(init, NodesFromList(init).value, last);
      assert items == init + [last];
    }
  }

  /** An edge entry is kept iff it is a dict with a source (or from) and a target (or to). */
  predicate KeptEdge(item: Json) {
    item.JObj? && (item.obj.Has("source") || item.obj.Has("from"))
      && (item.obj.Has("target") || item.obj.Has("to"))
  }

  /** The copy of a kept edge with "from"/"to" renamed to "source"/"target" where those are absent. */
  function Normalize(e: Dict<Json>): (r: Dict<Json>)
    ensures e.Valid() ==> r.Valid()
    ensures (e.Has("source") || e.Has("from")) ==>
      (r.Has("source") && r.vals["source"] == if e.Has("source") then e.vals["source"] else e.vals["from"])
    ensures (e.Has("target") || e.Has("to")) ==>
      (r.Has("target") && r.vals["target"] == if e.Has("target") then e.vals["target"] else e.vals["to"])
    ensures r.Has("from") <==> e.Has("from") && e.Has("source")
    ensures r.Has("to") <==> e.Has("to") && e.Has("target")
    ensures forall k :: k != "source" && k != "target" && k != "from" && k != "to" ==>
      (k in r.vals <==> k in e.vals) && (k in e.vals ==> r.vals[k] == e.vals[k])
  {
    var e1 := if e.Has("from") && !e.Has("source") then e.Remove("from").Set("source", e.vals["from"]) else e;
    if e1.Has("to") && !e1.Has("target") then e1.Remove("to").Set("target", e1.vals["to"]) else e1
  }

  /** The edge list the loop builds: kept entries, normalized, in input order. */
  function NormalizedEdges(items: seq<Json>): seq<Dict<Json>>
    decreases |items|
  {
    if items == [] then []
    else
      var last := items[|items| - 1];
      NormalizedEdges(items[..|items| - 1]) + (if KeptEdge(last) then [Normalize(last.obj)] else [])
  }

  /** Positions of the kept entries, in increasing order. */
  function KeptPositions(items: seq<Json>): seq<nat>
    decreases |items|
  {
    if items == [] then []
    else
      KeptPositions(items[..|items| - 1]) + (if KeptEdge(items[|items| - 1]) then [|items| - 1] else [])
  }

  /**
   * The k-th returned edge is the normalized copy of the k-th kept entry,
   * the kept entries being exactly the well-formed ones, in input order.
   */
  lemma {:induction false} NormalizedEdgesOrder(items: seq<Json>)
    ensures |KeptPositions(items)| == |NormalizedEdges(items)|
    ensures forall k :: 0 <= k < |KeptPositions(items)| ==> KeptPositions(items)[k] < |items|
    ensures forall k, l :: 0 <= k < l < |KeptPositions(items)| ==> KeptPositions(items)[k] < KeptPositions(items)[l]
    ensures forall i :: 0 <= i < |items| ==> (KeptEdge(items[i]) <==> i in KeptPositions(items))
    ensures forall k :: 0 <= k < |KeptPositions(items)| ==>
      KeptEdge(items[KeptPositions(items)[k]])
      && NormalizedEdges(items)[k] == Normalize(items[KeptPositions(items)[k]].obj)
    decreases |items|
  {
    if items != [] {
      var init := items[..|items| - 1];
      NormalizedEdgesOrder(init);
      forall i | 0 <= i < |init| ensures init[i] == items[i] { }
    }
  }

  /** Every kept edge ends up with both a "source" and a "target". */
  lemma {:induction false} NormalizedEdgesHaveEndpoints(items: seq<Json>)
    ensures forall k :: 0 <= k < |NormalizedEdges(items)| ==>
      NormalizedEdges(items)[k].Has("source") && NormalizedEdges(items)[k].Has("target")
    decreases |items|
  {
    if items != [] {
      NormalizedEdgesHaveEndpoints(items[..|items| - 1]);
    }
  }

  /** `parse_graph_data(graph_data)` */
  method ParseGraphData(graphData: Json) returns (r: Result<(Dict<Json>, seq<Dict<Json>>), ParseError>)
    ensures !graphData.JObj? ==> r == Err(NotAnObject)
    ensures graphData.JObj? && !NodesRaw(graphData.obj).JArr? && !NodesRaw(graphData.obj).JObj? ==>
      r == Err(BadNodes)
    ensures graphData.JObj? && NodesRaw(graphData.obj).JArr? && NodesFromList(NodesRaw(graphData.obj).items).Err? ==>
      r == Err(NodesFromList(NodesRaw(graphData.obj).items).error)
    ensures graphData.JObj? && NodesRaw(graphData.obj).JArr? && NodesFromList(NodesRaw(graphData.obj).items).Ok? ==>
      r == (if EdgesRaw(graphData.obj).JArr?
            then Ok((NodesFromList(NodesRaw(graphData.obj).items).value, NormalizedEdges(EdgesRaw(graphData.obj).items)))
            else Err(BadEdges))
    ensures graphData.JObj? && NodesRaw(graphData.obj).JObj? ==>
      r == (if EdgesRaw(graphData.obj).JArr?
            then Ok((NodesRaw(graphData.obj).obj, NormalizedEdges(EdgesRaw(graphData.obj).items)))
            else Err(BadEdges))
  {
    if !graphData.JObj? {
      return Err(NotAnObject);
    }
    var nodesRaw := graphData.obj.Get("nodes", JObj(Empty()));
    var edgesRaw := graphData.obj.Get("edges", JArr([]));

    var nodes: Dict<Json>;
    if nodesRaw.JArr? {
      var fromList := NodesLoop(nodesRaw.items);
      if fromList.Err? {
        return Err(fromList.error);
      }
      nodes := fromList.value;
    } else if nodesRaw.JObj? {
      nodes := nodesRaw.obj;
    } else {
      return Err(BadNodes);
    }

    if !edgesRaw.JArr? {
      return Err(BadEdges);
    }
    var edges := EdgesLoop(edgesRaw.items);
    r := Ok((nodes, edges));
  }

  /** The list-form node loop: `nodes[item["id"]] = item` for each entry with an id. */
  method NodesLoop(items: seq<Json>) returns (r: Result<Dict<Json>, ParseError>)
    ensures r == NodesFromList(items)
  {
    var nodes: Dict<Json> := Empty();
    for i := 0 to |items|
      invariant NodesFromList(items[..i]) == Ok(nodes)
    {
      assert items[..i + 1][..i] == items[..i];
      var item := items[i];
      if item.JObj? && item.obj.Has("id") {
        var id := item.obj.vals["id"];
        if id.JStr? {
          nodes := nodes.Set(id.s, item);
        } else {
          NodesFromListErrorSticks(items, i + 1);
          return Err(if id.Unhashable() then UnhashableNodeId else NonStringNodeId);
        }
      }
    }
    assert items[..|items|] == items;
    return Ok(nodes);
  }

  /** The edge loop: keep the well-formed entries, copied with "from"/"to" renamed. */
  method EdgesLoop(items: seq<Json>) returns (edges: seq<Dict<Json>>)
    ensures edges == NormalizedEdges(items)
  {
    edges := [];
    for i := 0 to |items|
      invariant edges == NormalizedEdges(items[..i])
    {
      assert items[..i + 1][..i] == items[..i];
      var item := items[i];
      if item.JObj? && (item.obj.Has("source") || item.obj.Has("from"))
                    && (item.obj.Has("target") || item.obj.Has("to")) {
        var edge := item.obj;
        if edge.Has("from") && !edge.Has("source") {
          var v := edge.vals["from"];
          edge := edge.Remove("from");
          edge := edge.Set("source", v);
        }
        if edge.Has("to") && !edge.Has("target") {
          var v := edge.vals["to"];
          edge := edge.Remove("to");
          edge := edge.Set("target", v);
        }
        edges := edges + [edge];
      }
    }
    assert items[..|items|] == items;
  }
}
