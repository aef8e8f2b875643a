/**
 * `detect_chains` (backend/analysis.py): a chain pass driven by a visited
 * set, then a cycle pass that keeps the candidate cycles through the nodes
 * the chain pass left, one per node set. The candidate cycles are what
 * `nx.simple_cycles(G)` enumerates; the model takes them as an input.
 */
module Chains {
  import opened Json
  import opened Graph

  /**
   * The shape of a reported chain: at least two nodes, a start that is not
   * a one-in/one-out node but has exactly one successor, one-in/one-out
   * nodes inside, an edge from each node to the next, and no node twice.
   */
  ghost predicate IsChain(g: Graph, c: seq<NodeId>) {
    && |c| >= 2
    && !Through(g, c[0])
    && OutDeg(g, c[0]) == 1
    && (forall k :: 0 < k < |c| - 1 ==> Through(g, c[k]))
    && Linked(g, c)
    && Distinct(c)
  }

  /** Each node of `c` has an edge to the next one. */
  ghost predicate Linked(g: Graph, c: seq<NodeId>) {
    forall k :: 0 <= k < |c| - 1 ==> (c[k], c[k + 1]) in g.edges
  }

  /** Every node of `c` after the first is a one-in/one-out node. */
  ghost predicate ThroughAfterFirst(g: Graph, c: seq<NodeId>) {
    forall k :: 0 < k < |c| ==> Through(g, c[k])
  }

  lemma ExtendThrough(g: Graph, c: seq<NodeId>, x: NodeId)
    requires |c| >= 1 && ThroughAfterFirst(g, c)
    ensures Through(g, x) ==> ThroughAfterFirst(g, c + [x])
    ensures forall k :: 0 < k < |c + [x]| - 1 ==> Through(g, (c + [x])[k])
  {
    assert forall k :: 0 <= k < |c| ==> (c + [x])[k] == c[k];
  }

  /** A walk extended by an unvisited successor of its last node is still a simple walk. */
  lemma ExtendWalk(g: Graph, c: seq<NodeId>, x: NodeId)
    requires |c| >= 1 && Linked(g, c) && Distinct(c)
    requires (c[|c| - 1], x) in g.edges && x !in c
    ensures Linked(g, c + [x]) && Distinct(c + [x])
    ensures NodesOf(c + [x]) == NodesOf(c) + {x}
  {
    var c' := c + [x];
    forall k | 0 <= k < |c'| - 1 ensures (c'[k], c'[k + 1]) in g.edges {
      if k < |c| - 1 {
        assert c'[k] == c[k] && c'[k + 1] == c[k + 1];
      }
    }
    assert forall v :: v in c' <==> v in c || v == x;
  }

  /** Every node that appears in some sequence of the list. */
  function AllNodes(cs: seq<seq<NodeId>>): set<NodeId> {
    set c, v | c in cs && v in c :: v
  }

  /** No node belongs to two different chains. */
  ghost predicate PairwiseDisjoint(cs: seq<seq<NodeId>>) {
    forall i, j :: 0 <= i < j < |cs| ==> NodesOf(cs[i]) !! NodesOf(cs[j])
  }

  /** The nodes the cycle pass starts from: one-in/one-out nodes that no chain took. */
  function Pending(g: Graph, chains: seq<seq<NodeId>>): set<NodeId> {
    set v | v in g.order && Through(g, v) && v !in AllNodes(chains)
  }

  lemma AllNodesSnoc(cs: seq<seq<NodeId>>, c: seq<NodeId>)
    ensures AllNodes(cs + [c]) == AllNodes(cs) + NodesOf(c)
  {
    assert forall x :: x in cs + [c] <==> x in cs || x == c;
  }

  lemma VisitOneMore(all: set<NodeId>, visited: set<NodeId>, x: NodeId)
    requires x in all && x !in visited
    ensures |all - (visited + {x})| < |all - visited|
  {
    assert all - (visited + {x}) == (all - visited) - {x};
  }

  /** One step of the walk: appending an unvisited successor and marking it visited keeps the walk's invariants. */
  lemma WalkStep(g: Graph, visited0: set<NodeId>, chain: seq<NodeId>, visited: set<NodeId>, next: NodeId)
    requires WellFormed(g) && visited <= NodeSet(g)
    requires |chain| >= 1 && Linked(g, chain) && Distinct(chain) && ThroughAfterFirst(g, chain)
    requires forall v :: v in visited <==> v in visited0 || v in chain
    requires forall v :: v in chain ==> v !in visited0
    requires (chain[|chain| - 1], next) in g.edges && next !in visited
    ensures Linked(g, chain + [next]) && Distinct(chain + [next])
    ensures forall v :: v in visited + {next} <==> v in visited0 || v in chain + [next]
    ensures forall v :: v in chain + [next] ==> v !in visited0
    ensures visited + {next} <= NodeSet(g)
    ensures |NodeSet(g) - (visited + {next})| < |NodeSet(g) - visited|
    ensures Through(g, next) ==> ThroughAfterFirst(g, chain + [next])
    ensures forall k :: 0 < k < |chain + [next]| - 1 ==> Through(g, (chain + [next])[k])
  {
    VisitOneMore(NodeSet(g), visited, next);
    ExtendWalk(g, chain, next);
    ExtendThrough(g, chain, next);
  }

  /**
   * Why a walk ended: its last node does not have exactly one successor,
   * or that successor was visited before the walk or is on it, or the walk
   * ended by taking a node that is not one-in/one-out.
   */
  ghost predicate Stopped(g: Graph, visited0: set<NodeId>, chain: seq<NodeId>)
    requires |chain| >= 1
  {
    var last := chain[|chain| - 1];
    || OutDeg(g, last) != 1
    || (exists s :: s in Succs(g, last) && (s in visited0 || s in chain))
    || (|chain| >= 2 && !Through(g, last))
  }

  /** The one successor of a node with out-degree 1: `list(G.successors(v))[0]`. */
  ghost function TheSucc(g: Graph, v: NodeId): (s: NodeId)
    requires OutDeg(g, v) == 1
    ensures s in Succs(g, v)
  {
    var s :| s in Succs(g, v); s
  }

  /**
   * The walk of the chain pass continued from `current`, with the chain
   * and the visited set so far: take the single successor while there is
   * exactly one; stop at a self-loop or a visited successor; append an
   * unvisited one, and go on only when it is one-in/one-out.
   */
  ghost function WalkFrom(g: Graph, current: NodeId, chain: seq<NodeId>, visited: set<NodeId>): (r: (seq<NodeId>, set<NodeId>))
    requires WellFormed(g) && visited <= NodeSet(g)
    ensures visited <= r.1 <= NodeSet(g)
    decreases |NodeSet(g) - visited|
  {
    if OutDeg(g, current) != 1 then (chain, visited)
    else
      var next := TheSucc(g, current);
      if next == current || next in visited then (chain, visited)
      else
        VisitOneMore(NodeSet(g), visited, next);
        if Through(g, next) then WalkFrom(g, next, chain + [next], visited + {next})
        else (chain + [next], visited + {next})
  }

  /**
   * The chain pass from the i-th node of the order on, with the chains
   * and the visited set so far: a walk starts at each unvisited node that
   * is not one-in/one-out, and is kept when it has two nodes or more.
   */
  ghost function PassFrom(g: Graph, i: nat, chains: seq<seq<NodeId>>, visited: set<NodeId>): (r: (seq<seq<NodeId>>, set<NodeId>))
    requires WellFormed(g) && i <= |g.order| && visited <= NodeSet(g)
    ensures visited <= r.1 <= NodeSet(g)
    decreases |g.order| - i
  {
    if i == |g.order| then (chains, visited)
    else
      var node := g.order[i];
      if node !in visited && (InDeg(g, node) != 1 || OutDeg(g, node) != 1) then
        var w := WalkFrom(g, node, [node], visited + {node});
        PassFrom(g, i + 1, KeepWalk(chains, w.0), w.1)
      else PassFrom(g, i + 1, chains, visited)
  }

  /** The chains `detect_chains` finds for the graph's own node order. */
  ghost function ChainsOf(g: Graph): seq<seq<NodeId>>
    requires WellFormed(g)
  {
    PassFrom(g, 0, [], {}).0
  }

  /**
   * The inner walk of the chain pass, from a start node: follow the single
   * successor while it is an unvisited one-in/one-out node; stop at a
   * self-loop; otherwise end with the successor if it is still unvisited.
   */
  method WalkChain(g: Graph, node: NodeId, visited0: set<NodeId>) returns (chain: seq<NodeId>, visited: set<NodeId>)
    requires WellFormed(g)
    requires visited0 <= NodeSet(g) && node in NodeSet(g) && node !in visited0
    ensures |chain| >= 1 && chain[0] == node
    ensures forall k :: 0 < k < |chain| - 1 ==> Through(g, chain[k])
    ensures Linked(g, chain) && Distinct(chain)
    ensures forall v :: v in chain ==> v !in visited0
    ensures forall v :: v in visited <==> v in visited0 || v in chain
    ensures visited <= NodeSet(g)
    ensures |chain| >= 2 ==> OutDeg(g, node) == 1
    ensures Stopped(g, visited0, chain)
    ensures (chain, visited) == WalkFrom(g, node, [node], visited0 + {node})
  {
    chain := [node];
    visited := visited0 + {node};
    var current := node;
    while OutDeg(g, current) == 1
      invariant visited <= NodeSet(g)
      invariant |chain| >= 1 && chain[0] == node && current == chain[|chain| - 1]
      invariant |chain| >= 2 ==> OutDeg(g, node) == 1
      invariant ThroughAfterFirst(g, chain)
      invariant Linked(g, chain) && Distinct(chain)
      invariant forall v :: v in visited <==> v in visited0 || v in chain
      invariant forall v :: v in chain ==> v !in visited0
      invariant WalkFrom(g, current, chain, visited) == WalkFrom(g, node, [node], visited0 + {node})
      decreases |NodeSet(g) - visited|
    {
      assert |chain| == 1 ==> current == node;
      var next :| next in Succs(g, current);
      SingleMember(Succs(g, current), next, TheSucc(g, current));
      if next == current {
        break;  // self-loop: the chain ends here
      }
      // an unvisited one-in/one-out successor continues the chain; any
      // other successor ends it, joining it only when unvisited
      var continues := Through(g, next) && next !in visited;
      if next !in visited {
        WalkStep(g, visited0, chain, visited, next);
        chain := chain + [next];
        visited := visited + {next};
      }
      if !continues {
        break;
      }
      current := next;
    }
  }

  /** Two members of a one-element set are equal. */
  lemma SingleMember(s: set<NodeId>, a: NodeId, b: NodeId)
    requires |s| == 1 && a in s && b in s
    ensures a == b
  {
    var rest := s - {a};
    assert |rest| == 0;
    assert b in rest || b == a;
  }

  /**
   * What the chain pass knows between walks: every chain node is visited,
   * and a visited one-in/one-out node lies on a chain.
   */
  ghost predicate PassState(g: Graph, chains: seq<seq<NodeId>>, visited: set<NodeId>) {
    && WellFormed(g)
    && (forall c :: c in chains ==> IsChain(g, c))
    && AllNodes(chains) <= visited
    && (forall v :: v in visited ==> !Through(g, v) || v in AllNodes(chains))
  }

  /** The one predecessor of a visited one-in/one-out node is visited too. */
  lemma VisitedThroughPred(g: Graph, chains: seq<seq<NodeId>>, visited: set<NodeId>, s: NodeId, p: NodeId)
    requires PassState(g, chains, visited)
    requires s in visited && Through(g, s) && (p, s) in g.edges
    ensures p in visited
  {
    assert s in AllNodes(chains);
    var c :| c in chains && s in c;
    var k :| 0 <= k < |c| && c[k] == s;
    assert k > 0;
    assert (c[k - 1], c[k]) in g.edges;
    SingleMember(Preds(g, s), p, c[k - 1]);
    assert c[k - 1] in c;
  }

  /**
   * A node a chain must start or end at: not one-in/one-out, with one
   * successor, other than itself, that is one-in/one-out.
   */
  ghost predicate ChainHead(g: Graph, u: NodeId) {
    && !Through(g, u)
    && OutDeg(g, u) == 1
    && forall s :: s in Succs(g, u) ==> s != u && Through(g, s)
  }

  /** A chain that ends at a one-in/one-out node ends before a node that is not one. */
  ghost predicate EndsMaximal(g: Graph, c: seq<NodeId>)
    requires |c| >= 1
  {
    Through(g, c[|c| - 1]) ==> forall s :: s in Succs(g, c[|c| - 1]) ==> !Through(g, s)
  }

  /** A walk from a chain head never stops at the head alone. */
  lemma HeadWalks(g: Graph, chains: seq<seq<NodeId>>, visited0: set<NodeId>, chain: seq<NodeId>)
    requires PassState(g, chains, visited0)
    requires |chain| >= 1 && chain[0] !in visited0 && ChainHead(g, chain[0])
    requires Stopped(g, visited0, chain)
    ensures |chain| >= 2
  {
    if |chain| == 1 {
      var u := chain[0];
      var t :| t in Succs(g, u) && (t in visited0 || t in chain);
      assert chain == [u] && t != u;
      assert t in visited0 && Through(g, t) && (u, t) in g.edges;
      VisitedThroughPred(g, chains, visited0, t, u);
      assert false;
    }
  }

  /** A walk that stopped at a one-in/one-out node stopped before a node that is not one. */
  lemma StoppedMaximal(g: Graph, chains: seq<seq<NodeId>>, visited0: set<NodeId>, chain: seq<NodeId>)
    requires PassState(g, chains, visited0)
    requires IsChain(g, chain) && forall v :: v in chain ==> v !in visited0
    requires Stopped(g, visited0, chain)
    ensures EndsMaximal(g, chain)
  {
    var last := chain[|chain| - 1];
    if Through(g, last) {
      forall s | s in Succs(g, last) ensures !Through(g, s) {
        var t :| t in Succs(g, last) && (t in visited0 || t in chain);
        SingleMember(Succs(g, last), s, t);
        if Through(g, s) {
          if s in visited0 {
            VisitedThroughPred(g, chains, visited0, s, last);
          } else {
            var j :| 0 <= j < |chain| && chain[j] == s;
            assert j > 0;
            assert (chain[j - 1], chain[j]) in g.edges;
            SingleMember(Preds(g, s), chain[j - 1], last);
          }
          assert false;
        }
      }
    }
  }

  /** A node that is not one-in/one-out and lies on a chain is one of its ends. */
  lemma ChainEnds(g: Graph, chains: seq<seq<NodeId>>, u: NodeId)
    requires forall c :: c in chains ==> IsChain(g, c)
    requires u in AllNodes(chains) && !Through(g, u)
    ensures exists c :: c in chains && |c| >= 2 && (c[0] == u || c[|c| - 1] == u)
  {
    var c :| c in chains && u in c;
    var k :| 0 <= k < |c| && c[k] == u;
    assert k == 0 || k == |c| - 1;
  }

  /** What `WalkChain` promises about a walk from `node`. */
  ghost predicate Walked(g: Graph, node: NodeId, visited0: set<NodeId>, chain: seq<NodeId>, visited: set<NodeId>) {
    && |chain| >= 1 && chain[0] == node
    && (forall k :: 0 < k < |chain| - 1 ==> Through(g, chain[k]))
    && Linked(g, chain) && Distinct(chain)
    && (forall v :: v in chain ==> v !in visited0)
    && (forall v :: v in visited <==> v in visited0 || v in chain)
    && (|chain| >= 2 ==> OutDeg(g, node) == 1)
    && Stopped(g, visited0, chain)
  }

  /** The chains after a walk: the walk is kept when it has at least two nodes. */
  function KeepWalk(chains: seq<seq<NodeId>>, chain: seq<NodeId>): seq<seq<NodeId>> {
    if |chain| > 1 then chains + [chain] else chains
  }

  /** A walk from an unvisited node that is not one-in/one-out keeps the pass's invariants. */
  lemma WalkKeepsPass(g: Graph, chains: seq<seq<NodeId>>, visited0: set<NodeId>, node: NodeId,
                      chain: seq<NodeId>, visited: set<NodeId>)
    requires PassState(g, chains, visited0) && PairwiseDisjoint(chains)
    requires forall c :: c in chains ==> |c| >= 1 && EndsMaximal(g, c)
    requires node !in visited0 && !Through(g, node)
    requires Walked(g, node, visited0, chain, visited)
    ensures PassState(g, KeepWalk(chains, chain), visited) && PairwiseDisjoint(KeepWalk(chains, chain))
    ensures forall c :: c in KeepWalk(chains, chain) ==> |c| >= 1 && EndsMaximal(g, c)
    ensures ChainHead(g, node) ==> node in AllNodes(KeepWalk(chains, chain))
    ensures forall v :: v in visited && v !in visited0 && v != node ==> v in AllNodes(KeepWalk(chains, chain))
  {
    if ChainHead(g, node) {
      HeadWalks(g, chains, visited0, chain);
    }
    if |chain| > 1 {
      assert IsChain(g, chain);
      StoppedMaximal(g, chains, visited0, chain);
      AllNodesSnoc(chains, chain);
      DisjointSnoc(chains, chain);
      assert node in chain;
    }
  }

  /** A sequence that shares no node with the earlier ones keeps them pairwise disjoint. */
  lemma DisjointSnoc(cs: seq<seq<NodeId>>, c: seq<NodeId>)
    requires PairwiseDisjoint(cs) && AllNodes(cs) !! NodesOf(c)
    ensures PairwiseDisjoint(cs + [c])
  {
    var cs' := cs + [c];
    forall i, j | 0 <= i < j < |cs'| ensures NodesOf(cs'[i]) !! NodesOf(cs'[j]) {
      if j == |cs| {
        forall v | v in cs[i] ensures v !in c {
          assert cs[i] in cs && v in AllNodes(cs);
          assert v !in NodesOf(c);
        }
      }
    }
  }

  /**
   * The pass's bookkeeping over the node order after the walk from the
   * i-th node: `covered` is the set of chain nodes before and after it.
   */
  lemma PassOrderStep(g: Graph, i: nat, visited0: set<NodeId>, visited: set<NodeId>,
                      covered0: set<NodeId>, covered: set<NodeId>)
    requires WellFormed(g) && i < |g.order|
    requires visited0 + {g.order[i]} <= visited && covered0 <= covered
    requires forall v :: v in visited && v !in visited0 && v != g.order[i] ==> v in covered
    requires ChainHead(g, g.order[i]) ==> g.order[i] in covered
    requires forall k :: 0 <= k < i ==> g.order[k] in visited0 || Through(g, g.order[k])
    requires forall k :: i <= k < |g.order| && g.order[k] in visited0 ==> g.order[k] in covered0
    requires forall k :: 0 <= k < i && ChainHead(g, g.order[k]) ==> g.order[k] in covered0
    ensures forall k :: 0 <= k < i + 1 ==> g.order[k] in visited || Through(g, g.order[k])
    ensures forall k :: i + 1 <= k < |g.order| && g.order[k] in visited ==> g.order[k] in covered
    ensures forall k :: 0 <= k < i + 1 && ChainHead(g, g.order[k]) ==> g.order[k] in covered
  {
    forall k | i + 1 <= k < |g.order| && g.order[k] in visited ensures g.order[k] in covered {
      assert g.order[k] != g.order[i];
    }
  }

  /**
   * One start of the chain pass: walk from an unvisited node that is not
   * one-in/one-out, and keep the walk as a chain when it has two nodes or more.
   */
  method StartChain(g: Graph, node: NodeId, chains0: seq<seq<NodeId>>, visited0: set<NodeId>)
    returns (chains: seq<seq<NodeId>>, visited: set<NodeId>)
    requires visited0 <= NodeSet(g) && PassState(g, chains0, visited0) && PairwiseDisjoint(chains0)
    requires forall c :: c in chains0 ==> |c| >= 1 && EndsMaximal(g, c)
    requires node in NodeSet(g) && node !in visited0 && !Through(g, node)
    ensures visited <= NodeSet(g) && PassState(g, chains, visited) && PairwiseDisjoint(chains)
    ensures forall c :: c in chains ==> |c| >= 1 && EndsMaximal(g, c)
    ensures visited0 + {node} <= visited && AllNodes(chains0) <= AllNodes(chains)
    ensures forall v :: v in visited && v !in visited0 && v != node ==> v in AllNodes(chains)
    ensures ChainHead(g, node) ==> node in AllNodes(chains)
    ensures chains == KeepWalk(chains0, WalkFrom(g, node, [node], visited0 + {node}).0)
    ensures visited == WalkFrom(g, node, [node], visited0 + {node}).1
  {
    var chain;
    chain, visited := WalkChain(g, node, visited0);
    WalkKeepsPass(g, chains0, visited0, node, chain, visited);
    AllNodesSnoc(chains0, chain);
    chains := chains0;
    if |chain| > 1 {
      chains := chains + [chain];
    }
  }

  /** What the chain pass knows of its chains between steps. */
  ghost predicate PassChains(g: Graph, chains: seq<seq<NodeId>>, visited: set<NodeId>) {
    && visited <= NodeSet(g)
    && PassState(g, chains, visited)
    && PairwiseDisjoint(chains)
    && (forall c :: c in chains ==> |c| >= 1 && EndsMaximal(g, c))
  }

  /**
   * What the chain pass knows after the first `i` nodes of the order: every
   * node before `i` is visited or one-in/one-out, and lies on a chain if it
   * is a chain head; a visited node after `i` lies on a chain.
   */
  ghost predicate PassOrder(g: Graph, chains: seq<seq<NodeId>>, visited: set<NodeId>, i: nat)
    requires i <= |g.order|
  {
    && (forall k :: 0 <= k < i ==> g.order[k] in visited || Through(g, g.order[k]))
    && (forall k :: i <= k < |g.order| && g.order[k] in visited ==> g.order[k] in AllNodes(chains))
    && (forall k :: 0 <= k < i && ChainHead(g, g.order[k]) ==> g.order[k] in AllNodes(chains))
  }

  /**
   * One step of the chain pass over the node order: start a walk at the
   * i-th node when it is unvisited and not one-in/one-out.
   */
  method PassStep(g: Graph, i: nat, chains0: seq<seq<NodeId>>, visited0: set<NodeId>)
    returns (chains: seq<seq<NodeId>>, visited: set<NodeId>)
    requires WellFormed(g) && i < |g.order|
    requires PassChains(g, chains0, visited0) && PassOrder(g, chains0, visited0, i)
    ensures PassChains(g, chains, visited) && PassOrder(g, chains, visited, i + 1)
    ensures PassFrom(g, i + 1, chains, visited) == PassFrom(g, i, chains0, visited0)
  {
    var node := g.order[i];
    if node !in visited0 && (InDeg(g, node) != 1 || OutDeg(g, node) != 1) {
      chains, visited := StartChain(g, node, chains0, visited0);
      PassOrderStep(g, i, visited0, visited, AllNodes(chains0), AllNodes(chains));
    } else {
      chains, visited := chains0, visited0;
      SkipStep(g, i, chains, visited);
    }
  }

  /** Passing over a visited or one-in/one-out node keeps what the pass knows. */
  lemma SkipStep(g: Graph, i: nat, chains: seq<seq<NodeId>>, visited: set<NodeId>)
    requires i < |g.order| && PassOrder(g, chains, visited, i)
    requires g.order[i] in visited || (InDeg(g, g.order[i]) == 1 && OutDeg(g, g.order[i]) == 1)
    ensures PassOrder(g, chains, visited, i + 1)
  {
    var node := g.order[i];
    assert node in visited || Through(g, node);
    assert ChainHead(g, node) ==> node in AllNodes(chains) by {
      if ChainHead(g, node) {
        assert node in visited;
      }
    }
  }

  /**
   * The chain pass of `detect_chains`: returns the chains and the visited
   * set it leaves. What the chains are does not depend on the node order
   * in these respects: every chain head lies on a chain, and a chain is
   * only cut short at a node that is not one-in/one-out.
   */
  method ChainPass(g: Graph) returns (chains: seq<seq<NodeId>>, visited: set<NodeId>)
    requires WellFormed(g)
    ensures forall c :: c in chains ==> IsChain(g, c)
    ensures PairwiseDisjoint(chains)
    ensures visited <= NodeSet(g)
    ensures forall v :: v in NodeSet(g) ==> (v in visited <==> !Through(g, v) || v in AllNodes(chains))
    ensures forall u :: u in NodeSet(g) && ChainHead(g, u) ==> u in AllNodes(chains)
    ensures forall c :: c in chains ==> |c| >= 1 && EndsMaximal(g, c)
    ensures (chains, visited) == PassFrom(g, 0, [], {})
  {
    visited := {};
    chains := [];
    for i := 0 to |g.order|
      invariant PassChains(g, chains, visited) && PassOrder(g, chains, visited, i)
      invariant PassFrom(g, i, chains, visited) == PassFrom(g, 0, [], {})
    {
      chains, visited := PassStep(g, i, chains, visited);
    }
    forall v | v in NodeSet(g)
      ensures (v in visited <==> !Through(g, v) || v in AllNodes(chains)) && (ChainHead(g, v) ==> v in AllNodes(chains))
    {
      var k :| 0 <= k < |g.order| && g.order[k] == v;
    }
  }

  /** `set(cycle) != set(existing)` for every cycle kept so far. */
  method IsNewCycle(cycles: seq<seq<NodeId>>, cycle: seq<NodeId>) returns (isNew: bool)
    ensures isNew <==> forall k :: 0 <= k < |cycles| ==> NodesOf(cycles[k]) != NodesOf(cycle)
  {
    isNew := true;
    for k := 0 to |cycles|
      invariant forall j :: 0 <= j < k ==> NodesOf(cycles[j]) != NodesOf(cycle)
    {
      if NodesOf(cycle) == NodesOf(cycles[k]) {
        isNew := false;
        break;
      }
    }
  }

  /** No two kept cycles cover the same node set. */
  ghost predicate DistinctNodeSets(cs: seq<seq<NodeId>>) {
    forall i, j :: 0 <= i < j < |cs| ==> NodesOf(cs[i]) != NodesOf(cs[j])
  }

  lemma SubsetSmaller(a: set<NodeId>, b: set<NodeId>, x: NodeId)
    requires a <= b && x in b && x !in a
    ensures |a| < |b|
  {
    assert a <= b - {x};
    assert |b - {x}| == |b| - 1;
    SubsetNoLarger(a, b - {x});
  }

  lemma SubsetNoLarger(a: set<NodeId>, b: set<NodeId>)
    requires a <= b
    ensures |a| <= |b|
  {
    assert b == a + (b - a);
  }

  /** Appending a cycle keeps every node set already kept, and keeps the new one. */
  lemma KeptStaysKept(cycles: seq<seq<NodeId>>, cycle: seq<NodeId>, candidates: seq<seq<NodeId>>, node: NodeId, j: nat)
    requires j < |candidates| && cycle == candidates[j]
    requires forall k :: 0 <= k < j && node in candidates[k] ==>
      exists i :: 0 <= i < |cycles| && NodesOf(cycles[i]) == NodesOf(candidates[k])
    ensures forall k :: 0 <= k < j + 1 && node in candidates[k] ==>
      exists i :: 0 <= i < |cycles + [cycle]| && NodesOf((cycles + [cycle])[i]) == NodesOf(candidates[k])
  {
    forall k | 0 <= k < j + 1 && node in candidates[k]
      ensures exists i :: 0 <= i < |cycles + [cycle]| && NodesOf((cycles + [cycle])[i]) == NodesOf(candidates[k])
    {
      if k == j {
        assert (cycles + [cycle])[|cycles|] == cycle;
      } else {
        var i :| 0 <= i < |cycles| && NodesOf(cycles[i]) == NodesOf(candidates[k]);
        assert (cycles + [cycle])[i] == cycles[i];
      }
    }
  }

  /**
   * `cycle` is a candidate through `node`, and no candidate through `node`
   * before it has the same node set.
   */
  ghost predicate FirstOfItsSet(candidates: seq<seq<NodeId>>, node: NodeId, cycle: seq<NodeId>) {
    exists j :: 0 <= j < |candidates| && candidates[j] == cycle && node in cycle &&
      forall k :: 0 <= k < j && node in candidates[k] ==> NodesOf(candidates[k]) != NodesOf(cycle)
  }

  /**
   * The j-th candidate through `node`, whose node set no kept cycle has,
   * is the first candidate through `node` with that node set, when every
   * earlier candidate through `node` has its node set kept.
   */
  lemma FirstKept(cycles: seq<seq<NodeId>>, candidates: seq<seq<NodeId>>, node: NodeId, j: nat)
    requires j < |candidates| && node in candidates[j]
    requires forall k :: 0 <= k < j && node in candidates[k] ==>
      exists i :: 0 <= i < |cycles| && NodesOf(cycles[i]) == NodesOf(candidates[k])
    requires forall i :: 0 <= i < |cycles| ==> NodesOf(cycles[i]) != NodesOf(candidates[j])
    ensures FirstOfItsSet(candidates, node, candidates[j])
  {
    forall k | 0 <= k < j && node in candidates[k] ensures NodesOf(candidates[k]) != NodesOf(candidates[j]) {
      var i :| 0 <= i < |cycles| && NodesOf(cycles[i]) == NodesOf(candidates[k]);
    }
  }

  /**
   * What the scan of the candidates through `node` knows after the first
   * `j` candidates: the kept cycles extend `cycles0` by candidates through
   * `node`, each the first of its node set, with pairwise different node
   * sets; every candidate through `node` so far has its node set kept; and
   * `visited` and `remaining` gain and lose exactly the kept nodes.
   */
  ghost predicate Taking(node: NodeId, candidates: seq<seq<NodeId>>, cycles0: seq<seq<NodeId>>,
                         visited0: set<NodeId>, remaining0: set<NodeId>, j: nat,
                         cycles: seq<seq<NodeId>>, visited: set<NodeId>, remaining: set<NodeId>)
    requires j <= |candidates|
  {
    && |cycles| >= |cycles0| && cycles[..|cycles0|] == cycles0
    && (forall i :: |cycles0| <= i < |cycles| ==> cycles[i] in candidates && node in cycles[i])
    && (forall i :: |cycles0| <= i < |cycles| ==> FirstOfItsSet(candidates, node, cycles[i]))
    && DistinctNodeSets(cycles)
    && (forall k :: 0 <= k < j && node in candidates[k] ==>
         exists i :: 0 <= i < |cycles| && NodesOf(cycles[i]) == NodesOf(candidates[k]))
    && (forall k :: 0 <= k < j && node in candidates[k] ==> node in AllNodes(cycles))
    && (forall v :: v in visited <==> v in visited0 || v in AllNodes(cycles))
    && (forall v :: v in remaining <==> v in remaining0 && v !in AllNodes(cycles))
  }

  /** Keeping the j-th candidate, through `node` and with a new node set, keeps the scan's invariant. */
  lemma TakeKeep(node: NodeId, candidates: seq<seq<NodeId>>, cycles0: seq<seq<NodeId>>,
                 visited0: set<NodeId>, remaining0: set<NodeId>, j: nat,
                 cycles: seq<seq<NodeId>>, visited: set<NodeId>, remaining: set<NodeId>)
    requires j < |candidates| && Taking(node, candidates, cycles0, visited0, remaining0, j, cycles, visited, remaining)
    requires node in candidates[j]
    requires forall i :: 0 <= i < |cycles| ==> NodesOf(cycles[i]) != NodesOf(candidates[j])
    ensures Taking(node, candidates, cycles0, visited0, remaining0, j + 1, cycles + [candidates[j]],
                   visited + NodesOf(candidates[j]), remaining - NodesOf(candidates[j]))
  {
    var cycle := candidates[j];
    var cs := cycles + [cycle];
    AllNodesSnoc(cycles, cycle);
    assert forall v :: v in NodesOf(cycle) <==> v in cycle;
    KeptStaysKept(cycles, cycle, candidates, node, j);
    FirstKept(cycles, candidates, node, j);
    assert cs[..|cycles0|] == cycles[..|cycles0|];
    assert cs[|cycles|] == cycle;
    assert forall i :: 0 <= i < |cycles| ==> cs[i] == cycles[i];
    assert node in AllNodes(cs) by {
      assert cycle in cs;
    }
  }

  /** Passing over a candidate not through `node`, or one whose node set is kept, keeps the scan's invariant. */
  lemma TakeSkip(node: NodeId, candidates: seq<seq<NodeId>>, cycles0: seq<seq<NodeId>>,
                 visited0: set<NodeId>, remaining0: set<NodeId>, j: nat,
                 cycles: seq<seq<NodeId>>, visited: set<NodeId>, remaining: set<NodeId>)
    requires j < |candidates| && Taking(node, candidates, cycles0, visited0, remaining0, j, cycles, visited, remaining)
    requires node in candidates[j] ==> exists i :: 0 <= i < |cycles| && NodesOf(cycles[i]) == NodesOf(candidates[j])
    ensures Taking(node, candidates, cycles0, visited0, remaining0, j + 1, cycles, visited, remaining)
  {
    if node in candidates[j] {
      var i :| 0 <= i < |cycles| && NodesOf(cycles[i]) == NodesOf(candidates[j]);
      assert node in NodesOf(cycles[i]) && cycles[i] in cycles;
    }
  }

  /**
   * The body of the cycle pass for one popped node: walk the candidate
   * cycles through `node`, keep each one whose node set is new, and mark
   * its nodes visited and no longer pending.
   */
  method TakeCyclesThrough(node: NodeId, candidates: seq<seq<NodeId>>, cycles0: seq<seq<NodeId>>,
                           visited0: set<NodeId>, remaining0: set<NodeId>)
    returns (cycles: seq<seq<NodeId>>, visited: set<NodeId>, remaining: set<NodeId>)
    requires DistinctNodeSets(cycles0)
    requires forall v :: v in AllNodes(cycles0) ==> v in visited0
    requires forall v :: v in remaining0 ==> v !in AllNodes(cycles0)
    ensures |cycles| >= |cycles0| && cycles[..|cycles0|] == cycles0
    ensures forall i :: |cycles0| <= i < |cycles| ==> cycles[i] in candidates && node in cycles[i]
    ensures forall i :: |cycles0| <= i < |cycles| ==> FirstOfItsSet(candidates, node, cycles[i])
    ensures DistinctNodeSets(cycles)
    ensures forall k :: 0 <= k < |candidates| && node in candidates[k] ==>
      exists i :: 0 <= i < |cycles| && NodesOf(cycles[i]) == NodesOf(candidates[k])
    ensures forall k :: 0 <= k < |candidates| && node in candidates[k] ==> node in AllNodes(cycles)
    ensures forall v :: v in visited <==> v in visited0 || v in AllNodes(cycles)
    ensures forall v :: v in remaining <==> v in remaining0 && v !in AllNodes(cycles)
  {
    cycles, visited, remaining := cycles0, visited0, remaining0;
    assert cycles[..|cycles0|] == cycles0;
    for j := 0 to |candidates|
      invariant Taking(node, candidates, cycles0, visited0, remaining0, j, cycles, visited, remaining)
    {
      var cycle := candidates[j];
      var isNew := false;
      if node in cycle {
        isNew := IsNewCycle(cycles, cycle);
      }
      if isNew {
        TakeKeep(node, candidates, cycles0, visited0, remaining0, j, cycles, visited, remaining);
        cycles := cycles + [cycle];
        visited := visited + NodesOf(cycle);
        remaining := remaining - NodesOf(cycle);
      } else {
        TakeSkip(node, candidates, cycles0, visited0, remaining0, j, cycles, visited, remaining);
      }
    }
  }

  /**
   * The cycles the pass keeps, explained by the nodes it popped, in order:
   * distinct pending nodes, none on a candidate through an earlier pop
   * (the nodes of a kept cycle leave the pending set); each kept cycle is
   * the first candidate through some pop with its node set; every
   * candidate through a pop has its node set kept; and every pending node
   * was popped or lies on a kept cycle.
   */
  ghost predicate PopOrder(pending: set<NodeId>, candidates: seq<seq<NodeId>>, cycles: seq<seq<NodeId>>, pops: seq<NodeId>) {
    && Popped(pending, candidates, cycles, pops, {})
    && (forall v :: v in pending ==> v in pops || v in AllNodes(cycles))
  }

  /** `PopOrder` while the nodes in `remaining` still wait to be popped. */
  ghost predicate Popped(pending: set<NodeId>, candidates: seq<seq<NodeId>>, cycles: seq<seq<NodeId>>,
                         pops: seq<NodeId>, remaining: set<NodeId>) {
    && Distinct(pops)
    && (forall t :: 0 <= t < |pops| ==> pops[t] in pending && pops[t] !in remaining)
    && (forall t, u, c :: 0 <= t < u < |pops| && c in candidates && pops[t] in c ==> pops[u] !in c)
    && (forall c :: c in cycles ==> exists t :: 0 <= t < |pops| && FirstOfItsSet(candidates, pops[t], c))
    && (forall c, t :: c in candidates && 0 <= t < |pops| && pops[t] in c ==>
         exists i :: 0 <= i < |cycles| && NodesOf(cycles[i]) == NodesOf(c))
    && (forall v :: v in pending && v !in remaining ==> v in pops || v in AllNodes(cycles))
  }

  lemma AllNodesPrefix(cs0: seq<seq<NodeId>>, cs: seq<seq<NodeId>>)
    requires |cs| >= |cs0| && cs[..|cs0|] == cs0
    ensures AllNodes(cs0) <= AllNodes(cs)
  {
    forall v | v in AllNodes(cs0) ensures v in AllNodes(cs) {
      var c :| c in cs0 && v in c;
      var i :| 0 <= i < |cs0| && cs0[i] == c;
      assert cs[i] == c;
    }
  }

  /**
   * A popped node lies on no candidate through an earlier pop, because
   * those candidates' nodes are already on kept cycles.
   */
  lemma PopFresh(candidates: seq<seq<NodeId>>, cycles0: seq<seq<NodeId>>, pops: seq<NodeId>,
                 remaining0: set<NodeId>, node: NodeId)
    requires Distinct(pops) && forall t :: 0 <= t < |pops| ==> pops[t] !in remaining0
    requires forall t, u, c :: 0 <= t < u < |pops| && c in candidates && pops[t] in c ==> pops[u] !in c
    requires forall c, t :: c in candidates && 0 <= t < |pops| && pops[t] in c ==>
      exists i :: 0 <= i < |cycles0| && NodesOf(cycles0[i]) == NodesOf(c)
    requires node in remaining0 && node !in AllNodes(cycles0)
    ensures Distinct(pops + [node])
    ensures forall t, u, c :: 0 <= t < u < |pops + [node]| && c in candidates && (pops + [node])[t] in c ==>
      (pops + [node])[u] !in c
  {
    var pops' := pops + [node];
    assert forall t :: 0 <= t < |pops| ==> pops'[t] == pops[t];
    assert pops'[|pops|] == node;
    forall t, c | 0 <= t < |pops| && c in candidates && pops[t] in c ensures node !in c {
      var i :| 0 <= i < |cycles0| && NodesOf(cycles0[i]) == NodesOf(c);
      assert cycles0[i] in cycles0;
      assert node !in cycles0[i];
      assert node !in NodesOf(c);
    }
  }

  /** After popping `node`, each kept cycle is still explained by a pop, and each candidate through a pop is kept. */
  lemma PopKept(candidates: seq<seq<NodeId>>, cycles0: seq<seq<NodeId>>, pops: seq<NodeId>,
                node: NodeId, cycles: seq<seq<NodeId>>)
    requires forall c :: c in cycles0 ==> exists t :: 0 <= t < |pops| && FirstOfItsSet(candidates, pops[t], c)
    requires forall c, t :: c in candidates && 0 <= t < |pops| && pops[t] in c ==>
      exists i :: 0 <= i < |cycles0| && NodesOf(cycles0[i]) == NodesOf(c)
    requires |cycles| >= |cycles0| && cycles[..|cycles0|] == cycles0
    requires forall i :: |cycles0| <= i < |cycles| ==> FirstOfItsSet(candidates, node, cycles[i])
    requires forall k :: 0 <= k < |candidates| && node in candidates[k] ==>
      exists i :: 0 <= i < |cycles| && NodesOf(cycles[i]) == NodesOf(candidates[k])
    ensures forall c :: c in cycles ==> exists t :: 0 <= t < |pops + [node]| && FirstOfItsSet(candidates, (pops + [node])[t], c)
    ensures forall c, t :: c in candidates && 0 <= t < |pops + [node]| && (pops + [node])[t] in c ==>
      exists i :: 0 <= i < |cycles| && NodesOf(cycles[i]) == NodesOf(c)
  {
    var pops' := pops + [node];
    assert forall t :: 0 <= t < |pops| ==> pops'[t] == pops[t];
    assert pops'[|pops|] == node;
    forall c | c in cycles ensures exists t :: 0 <= t < |pops'| && FirstOfItsSet(candidates, pops'[t], c) {
      var i :| 0 <= i < |cycles| && cycles[i] == c;
      if i < |cycles0| {
        assert cycles[..|cycles0|][i] == c;
        assert c in cycles0;
        var t :| 0 <= t < |pops| && FirstOfItsSet(candidates, pops[t], c);
        assert pops'[t] == pops[t];
      } else {
        assert FirstOfItsSet(candidates, pops'[|pops|], c);
      }
    }
    forall c, t | c in candidates && 0 <= t < |pops'| && pops'[t] in c
      ensures exists i :: 0 <= i < |cycles| && NodesOf(cycles[i]) == NodesOf(c)
    {
      if t < |pops| {
        assert pops[t] in c;
        var i :| 0 <= i < |cycles0| && NodesOf(cycles0[i]) == NodesOf(c);
        assert cycles[i] == cycles0[i];
      } else {
        var k :| 0 <= k < |candidates| && candidates[k] == c;
      }
    }
  }

  /** After popping `node`, every pending node that left the waiting set was popped or is on a kept cycle. */
  lemma PopCovered(pending: set<NodeId>, cycles0: seq<seq<NodeId>>, pops: seq<NodeId>, remaining0: set<NodeId>,
                   node: NodeId, cycles: seq<seq<NodeId>>, remaining: set<NodeId>)
    requires forall t :: 0 <= t < |pops| ==> pops[t] in pending && pops[t] !in remaining0
    requires forall v :: v in pending && v !in remaining0 ==> v in pops || v in AllNodes(cycles0)
    requires node in pending
    requires |cycles| >= |cycles0| && cycles[..|cycles0|] == cycles0
    requires forall v :: v in remaining <==> v in remaining0 && v != node && v !in AllNodes(cycles)
    ensures forall t :: 0 <= t < |pops + [node]| ==> (pops + [node])[t] in pending && (pops + [node])[t] !in remaining
    ensures forall v :: v in pending && v !in remaining ==> v in pops + [node] || v in AllNodes(cycles)
  {
    AllNodesPrefix(cycles0, cycles);
    assert forall t :: 0 <= t < |pops| ==> (pops + [node])[t] == pops[t];
    assert (pops + [node])[|pops|] == node;
  }

  /** Popping `node` and keeping the new cycles through it keeps the pop order. */
  lemma PopStep(pending: set<NodeId>, candidates: seq<seq<NodeId>>, cycles0: seq<seq<NodeId>>, pops: seq<NodeId>,
                remaining0: set<NodeId>, node: NodeId, cycles: seq<seq<NodeId>>, remaining: set<NodeId>)
    requires Popped(pending, candidates, cycles0, pops, remaining0)
    requires node in remaining0 && node in pending && node !in AllNodes(cycles0)
    requires |cycles| >= |cycles0| && cycles[..|cycles0|] == cycles0
    requires forall i :: |cycles0| <= i < |cycles| ==> FirstOfItsSet(candidates, node, cycles[i])
    requires forall k :: 0 <= k < |candidates| && node in candidates[k] ==>
      exists i :: 0 <= i < |cycles| && NodesOf(cycles[i]) == NodesOf(candidates[k])
    requires forall v :: v in remaining <==> v in remaining0 && v != node && v !in AllNodes(cycles)
    ensures Popped(pending, candidates, cycles, pops + [node], remaining)
  {
    PopFresh(candidates, cycles0, pops, remaining0, node);
    PopKept(candidates, cycles0, pops, node, cycles);
    PopCovered(pending, cycles0, pops, remaining0, node, cycles, remaining);
  }

  /** Once nothing waits to be popped, the pop order explains the kept cycles, and every pending node on a candidate lies on one. */
  lemma PopsDone(pending: set<NodeId>, candidates: seq<seq<NodeId>>, cycles: seq<seq<NodeId>>, pops: seq<NodeId>)
    requires Popped(pending, candidates, cycles, pops, {})
    ensures PopOrder(pending, candidates, cycles, pops)
    ensures forall c :: c in cycles ==> exists v :: v in c && v in pending
    ensures forall c, v :: c in candidates && v in c && v in pending ==> v in AllNodes(cycles)
  {
    forall c | c in cycles ensures exists v :: v in c && v in pending {
      var t :| 0 <= t < |pops| && FirstOfItsSet(candidates, pops[t], c);
      assert pops[t] in c;
    }
    forall c, v | c in candidates && v in c && v in pending ensures v in AllNodes(cycles) {
      if v in pops {
        var t :| 0 <= t < |pops| && pops[t] == v;
        var i :| 0 <= i < |cycles| && NodesOf(cycles[i]) == NodesOf(c);
        assert v in NodesOf(cycles[i]) && cycles[i] in cycles;
      }
    }
  }

  /**
   * What the cycle pass knows between pops: the waiting nodes are pending
   * and unvisited, `visited` grew by exactly the kept cycles' nodes, the
   * kept cycles are candidates with pairwise different node sets, and the
   * pops so far explain them.
   */
  ghost predicate CycleState(pending: set<NodeId>, visited0: set<NodeId>, candidates: seq<seq<NodeId>>,
                             cycles: seq<seq<NodeId>>, visited: set<NodeId>, pops: seq<NodeId>, remaining: set<NodeId>) {
    && (forall v :: v in remaining ==> v in pending && v !in visited)
    && (forall v :: v in visited <==> v in visited0 || v in AllNodes(cycles))
    && (forall c :: c in cycles ==> c in candidates)
    && DistinctNodeSets(cycles)
    && Popped(pending, candidates, cycles, pops, remaining)
  }

  /**
   * One pop of the cycle pass: `node` leaves the waiting set, the new
   * cycles through it are kept, and their nodes leave the waiting set too.
   */
  method PopNode(pending: set<NodeId>, visited0: set<NodeId>, candidates: seq<seq<NodeId>>, node: NodeId,
                 cycles0: seq<seq<NodeId>>, visited1: set<NodeId>, ghost pops0: seq<NodeId>, remaining0: set<NodeId>)
    returns (cycles: seq<seq<NodeId>>, visited: set<NodeId>, ghost pops: seq<NodeId>, remaining: set<NodeId>)
    requires CycleState(pending, visited0, candidates, cycles0, visited1, pops0, remaining0)
    requires node in remaining0
    ensures CycleState(pending, visited0, candidates, cycles, visited, pops, remaining)
    ensures |remaining| < |remaining0|
  {
    cycles, visited, remaining := TakeCyclesThrough(node, candidates, cycles0, visited1, remaining0 - {node});
    PopStep(pending, candidates, cycles0, pops0, remaining0, node, cycles, remaining);
    pops := pops0 + [node];
    SubsetSmaller(remaining, remaining0, node);
    forall c | c in cycles ensures c in candidates {
      var i :| 0 <= i < |cycles| && cycles[i] == c;
      if i < |cycles0| {
        assert c in cycles0;
      }
    }
  }

  /**
   * The cycle pass of `detect_chains`. `remaining_nodes.pop()` takes an
   * arbitrary pending node; `candidates` is the list `nx.simple_cycles(G)`
   * yields, the same on every call. `pops` records the nodes popped and
   * not skipped, in order.
   */
  method CyclePass(g: Graph, visited0: set<NodeId>, candidates: seq<seq<NodeId>>)
    returns (cycles: seq<seq<NodeId>>, visited: set<NodeId>, ghost pops: seq<NodeId>)
    ensures forall c :: c in cycles ==> c in candidates
    ensures DistinctNodeSets(cycles)
    ensures forall c :: c in cycles ==> exists v :: v in c && v in NodeSet(g) - visited0
    ensures forall c, v :: c in candidates && v in c && v in NodeSet(g) - visited0 ==> v in AllNodes(cycles)
    ensures forall v :: v in visited <==> v in visited0 || v in AllNodes(cycles)
    ensures PopOrder(NodeSet(g) - visited0, candidates, cycles, pops)
  {
    cycles := [];
    visited := visited0;
    pops := [];
    var remaining := NodeSet(g) - visited;
    while remaining != {}
      invariant CycleState(NodeSet(g) - visited0, visited0, candidates, cycles, visited, pops, remaining)
      decreases |remaining|
    {
      var node :| node in remaining;
      if node in visited {
        remaining := remaining - {node};
        continue;
      }
      cycles, visited, pops, remaining := PopNode(NodeSet(g) - visited0, visited0, candidates, node, cycles, visited, pops, remaining);
    }
    PopsDone(NodeSet(g) - visited0, candidates, cycles, pops);
  }

  /**
   * What `detect_chains` promises. The chains are those of the reference
   * pass over the graph's own node order. For every order, they have the
   * chain shape and share no node. Every chain head starts or ends a
   * chain, and a chain is cut short only at a node that is not
   * one-in/one-out. The cycles are candidates with pairwise different
   * node sets. Each cycle meets a pending node, and every pending node on
   * some candidate lies on a kept cycle. Some order of popping the pending
   * nodes explains exactly which cycles are kept.
   */
  ghost predicate Detected(g: Graph, candidates: seq<seq<NodeId>>, chains: seq<seq<NodeId>>, cycles: seq<seq<NodeId>>) {
    && WellFormed(g)
    && chains == ChainsOf(g)
    && (forall c :: c in chains ==> IsChain(g, c))
    && PairwiseDisjoint(chains)
    && (forall u :: u in NodeSet(g) && ChainHead(g, u) ==>
         exists c :: c in chains && |c| >= 2 && (c[0] == u || c[|c| - 1] == u))
    && (forall c :: c in chains ==> |c| >= 1 && EndsMaximal(g, c))
    && (forall c :: c in cycles ==> c in candidates)
    && DistinctNodeSets(cycles)
    && (forall c :: c in cycles ==> exists v :: v in c && v in Pending(g, chains))
    && (forall c, v :: c in candidates && v in c && v in Pending(g, chains) ==> v in AllNodes(cycles))
    && (exists pops :: PopOrder(Pending(g, chains), candidates, cycles, pops))
  }

  /** `detect_chains(G)`: the chains, then the cycles through the nodes no chain took. */
  method DetectChains(g: Graph, candidates: seq<seq<NodeId>>) returns (chains: seq<seq<NodeId>>, cycles: seq<seq<NodeId>>)
    requires WellFormed(g)
    ensures Detected(g, candidates, chains, cycles)
  {
    var visited;
    chains, visited := ChainPass(g);
    forall u | u in NodeSet(g) && ChainHead(g, u)
      ensures exists c :: c in chains && |c| >= 2 && (c[0] == u || c[|c| - 1] == u)
    {
      ChainEnds(g, chains, u);
    }
    assert NodeSet(g) - visited == Pending(g, chains);
    ghost var pops;
    cycles, visited, pops := CyclePass(g, visited, candidates);
  }

  /** A graph with no nodes has no chains and no cycles. */
  lemma NothingDetected(g: Graph, candidates: seq<seq<NodeId>>)
    requires WellFormed(g) && g.order == []
    ensures Detected(g, candidates, [], [])
  {
    assert PopOrder(Pending(g, []), candidates, [], []);
  }

  /** `max(len(c) for c in xs) if xs else 0` */
  function LongestLength<T>(xs: seq<seq<T>>): (m: nat)
    ensures forall k :: 0 <= k < |xs| ==> |xs[k]| <= m
    ensures xs == [] ==> m == 0
    ensures xs != [] ==> exists k :: 0 <= k < |xs| && |xs[k]| == m
  {
    if xs == [] then 0
    else
      var rest := LongestLength(xs[1..]);
      if |xs[0]| >= rest then |xs[0]| else rest
  }
}
