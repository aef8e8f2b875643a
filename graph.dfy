/**
 * The directed graph `run_full_analysis` builds (backend/analysis.py):
 * nodes in insertion order with their attribute dicts, and a set of
 * ordered pairs, each with the label of its edge. A repeated pair is one
 * edge; self-loops are allowed. Degrees are counted as a DiGraph counts
 * them: a self-loop adds one to both the in- and the out-degree.
 */
module Graph {
  import opened Json

  type NodeId = string
  type Pair = (NodeId, NodeId)

  datatype Graph = Graph(order: seq<NodeId>, attrs: map<NodeId, Dict<Json>>, edges: map<Pair, Json>)

  /** Nodes are listed once each, every node has attributes, and every edge joins two nodes. */
  ghost predicate WellFormed(g: Graph) {
    && Distinct(g.order)
    && (forall v :: v in g.attrs <==> v in g.order)
    && (forall p :: p in g.edges ==> p.0 in g.order && p.1 in g.order)
  }

  function NodeSet(g: Graph): set<NodeId> {
    set v | v in g.order
  }

  /** `G.successors(v)` */
  function Succs(g: Graph, v: NodeId): set<NodeId> {
    set w | w in g.order && (v, w) in g.edges
  }

  /** `G.predecessors(v)` */
  function Preds(g: Graph, v: NodeId): set<NodeId> {
    set u | u in g.order && (u, v) in g.edges
  }

  /** `G.out_degree(v)` */
  function OutDeg(g: Graph, v: NodeId): nat {
    |Succs(g, v)|
  }

  /** `G.in_degree(v)` */
  function InDeg(g: Graph, v: NodeId): nat {
    |Preds(g, v)|
  }

  /** A node with exactly one edge in and one edge out: the inside of a chain. */
  predicate Through(g: Graph, v: NodeId) {
    InDeg(g, v) == 1 && OutDeg(g, v) == 1
  }

  /** `G.number_of_selfloops()` */
  function SelfLoops(g: Graph): set<Pair> {
    set p | p in g.edges && p.0 == p.1
  }

  /** The nodes a sequence of ids mentions: `set(c)`. */
  function NodesOf(c: seq<NodeId>): set<NodeId> {
    set v | v in c
  }
}
