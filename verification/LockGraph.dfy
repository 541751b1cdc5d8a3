/**
 The lock dependency graph of core/kernel/lockdep.c as a value: walks, cycles,
 and what the graph operations do to them.
 */
module LockGraph {
  import opened Common

  /** The address of a lock, so never 0; the reported path ends in a 0. */
  type LockId = n: nat | n > 0 witness 1

  /** Nodes in list order, and for each node its edge list in insertion order. */
  datatype Graph = Graph(nodes: seq<LockId>, edges: map<LockId, seq<LockId>>)

  ghost predicate Edge(g: Graph, a: LockId, b: LockId) {
    a in g.edges && b in g.edges[a]
  }

  ghost predicate WellFormed(g: Graph) {
    && Distinct(g.nodes)
    && (forall n :: n in g.nodes <==> n in g.edges)
    && (forall a, b :: Edge(g, a, b) ==> b in g.nodes)
  }

  ghost predicate Walk(g: Graph, p: seq<LockId>) {
    |p| >= 1 && forall i :: 0 <= i < |p| - 1 ==> Edge(g, p[i], p[i+1])
  }

  /** A closed walk of at least one edge; a self-loop is one. */
  ghost predicate Cycle(g: Graph, p: seq<LockId>) {
    |p| >= 2 && Walk(g, p) && p[0] == p[|p|-1]
  }

  ghost predicate Acyclic(g: Graph) {
    forall p :: !Cycle(g, p)
  }

  // ----- operations

  function AddNode(g: Graph, id: LockId): Graph {
    if id in g.nodes then g else Graph(g.nodes + [id], g.edges[id := []])
  }

  function AddEdge(g: Graph, from: LockId, to: LockId): Graph
    requires from in g.edges
  {
    if to in g.edges[from] then g else g.(edges := g.edges[from := g.edges[from] + [to]])
  }

  /** An edge to `to` from every lock owned, in the order they were taken. */
  function AddEdges(g: Graph, owned: seq<LockId>, to: LockId): (r: Graph)
    requires forall l :: l in owned ==> l in g.edges
    ensures r.nodes == g.nodes && r.edges.Keys == g.edges.Keys
    decreases |owned|
  {
    if owned == [] then g
    else
      var h := AddEdges(g, owned[..|owned|-1], to);
      assert owned[|owned|-1] in owned;
      AddEdge(h, owned[|owned|-1], to)
  }

  function Cut(edges: map<LockId, seq<LockId>>, id: LockId): map<LockId, seq<LockId>> {
    map n | n in edges && n != id :: Without(edges[n], id)
  }

  /** The node and every edge into or out of it are gone. */
  function RemoveNode(g: Graph, id: LockId): Graph {
    Graph(Without(g.nodes, id), Cut(g.edges, id))
  }

  // ----- what they do to edges

  lemma AddNodeEdges(g: Graph, id: LockId)
    requires WellFormed(g)
    ensures WellFormed(AddNode(g, id))
    ensures AddNode(g, id).nodes == g.nodes + if id in g.nodes then [] else [id]
    ensures forall a, b :: Edge(AddNode(g, id), a, b) <==> Edge(g, a, b)
  {
    var h := AddNode(g, id);
    assert forall n :: n in h.nodes <==> n in g.nodes || n == id;
    forall a, b ensures Edge(h, a, b) <==> Edge(g, a, b) {}
  }

  lemma {:induction false} AddEdgesEdges(g: Graph, owned: seq<LockId>, to: LockId)
    requires forall l :: l in owned ==> l in g.edges
    ensures forall a, b :: Edge(AddEdges(g, owned, to), a, b) <==> Edge(g, a, b) || (a in owned && b == to)
    decreases |owned|
  {
    if owned != [] {
      var rest, last := owned[..|owned|-1], owned[|owned|-1];
      AddEdgesEdges(g, rest, to);
      assert owned == rest + [last];
      var h, r := AddEdges(g, rest, to), AddEdges(g, owned, to);
      assert last in owned;
      forall a, b ensures Edge(r, a, b) <==> Edge(h, a, b) || (a == last && b == to) {}
    }
  }

  lemma RemoveNodeEdges(g: Graph, id: LockId)
    requires WellFormed(g)
    ensures WellFormed(RemoveNode(g, id))
    ensures forall n :: n in RemoveNode(g, id).nodes <==> n in g.nodes && n != id
    ensures forall a, b :: Edge(RemoveNode(g, id), a, b) <==> Edge(g, a, b) && a != id && b != id
  {
    WithoutDistinct(g.nodes, id);
    forall a, b ensures Edge(RemoveNode(g, id), a, b) <==> Edge(g, a, b) && a != id && b != id {}
  }

  /** Fewer edges, fewer cycles. */
  lemma SubgraphAcyclic(g: Graph, h: Graph)
    requires Acyclic(g) && forall a, b :: Edge(h, a, b) ==> Edge(g, a, b)
    ensures Acyclic(h)
  {
    forall p ensures !Cycle(h, p) {
      if Cycle(h, p) { assert Cycle(g, p); }
    }
  }

  // ----- cycles through a node

  /** A cycle can be entered at any of its nodes. */
  lemma RotateCycle(g: Graph, p: seq<LockId>, k: nat) returns (q: seq<LockId>)
    requires Cycle(g, p) && k < |p| - 1
    ensures Cycle(g, q) && |q| == |p| && q[0] == p[k]
  {
    var n := |p| - 1;
    q := p[k..n] + p[..k+1];
    forall i | 0 <= i < |q| - 1 ensures Edge(g, q[i], q[i+1]) {
      if i < n - k - 1 {
        assert Edge(g, p[k+i], p[k+i+1]);
      } else if i == n - k - 1 {
        assert Edge(g, p[n-1], p[n]);
      } else {
        var j := i - (n - k);
        assert Edge(g, p[j], p[j+1]);
      }
    }
  }

  /** If all new edges end in `to`, every new cycle passes through it. */
  lemma NewCycleThrough(g: Graph, h: Graph, to: LockId, p: seq<LockId>) returns (q: seq<LockId>)
    requires Acyclic(g) && Cycle(h, p)
    requires forall a, b :: Edge(h, a, b) ==> Edge(g, a, b) || b == to
    ensures Cycle(h, q) && |q| == |p| && q[0] == to
  {
    if k :| 0 <= k < |p| - 1 && p[k] == to {
      q := RotateCycle(h, p, k);
    } else {
      forall i | 0 <= i < |p| - 1 ensures Edge(g, p[i], p[i+1]) {
        assert p[i+1] == if i + 1 < |p| - 1 then p[i+1] else p[0];
      }
      assert Cycle(g, p);
      assert false;
    }
  }

  // ----- an order with successors first rules out cycles

  /** Every successor of a listed node is listed before it. */
  ghost predicate Topological(g: Graph, order: seq<LockId>) {
    forall i, b :: 0 <= i < |order| && Edge(g, order[i], b) ==> b in order[..i]
  }

  lemma {:induction false} WalkDescends(g: Graph, order: seq<LockId>, p: seq<LockId>, i: nat) returns (j: nat)
    requires Topological(g, order) && Walk(g, p) && i < |order| && order[i] == p[0]
    ensures j <= i && order[j] == p[|p|-1]
    ensures |p| >= 2 ==> j < i
    decreases |p|
  {
    if |p| == 1 {
      j := i;
    } else {
      assert Edge(g, order[i], p[1]);
      var m :| 0 <= m < i && order[m] == p[1];
      j := WalkDescends(g, order, p[1..], m);
    }
  }

  lemma OrderedIsAcyclic(g: Graph, order: seq<LockId>)
    requires Topological(g, order) && Distinct(order) && forall n :: n in g.edges ==> n in order
    ensures Acyclic(g)
  {
    forall p ensures !Cycle(g, p) {
      if Cycle(g, p) {
        assert Edge(g, p[0], p[1]);
        var i :| 0 <= i < |order| && order[i] == p[0];
        var j := WalkDescends(g, order, p, i);
        assert false;
      }
    }
  }
}
