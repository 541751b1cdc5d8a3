/**
 The lock dependency checker of core/kernel/lockdep.c: depth-first sorting with
 marks, breadth-first search for the shortest cycle, and the calls made when a
 lock is taken, released or destroyed.
 */
module Lockdep {
  import opened Common
  import opened LockGraph
  import opened LockBfs

  /** The three bits of lockdep_node::flags. */
  datatype Marks = Marks(temp: bool, perm: bool, bfs: bool)

  const NO_MARKS := Marks(false, false, false)

  lemma PrefixMember<T>(a: seq<T>, b: seq<T>, x: T)
    requires a <= b && x in a
    ensures x in b
  {
    var i :| 0 <= i < |a| && a[i] == x;
    assert b[i] == x;
  }

  ghost predicate AllIn(list: seq<LockId>, n: nat, order: seq<LockId>)
    requires n <= |list|
  {
    forall j :: 0 <= j < n ==> list[j] in order
  }

  lemma AllInNext(list: seq<LockId>, i: nat, a: seq<LockId>, b: seq<LockId>)
    requires i < |list| && a <= b && AllIn(list, i, a) && list[i] in b
    ensures AllIn(list, i + 1, b)
  {
    forall j | 0 <= j < i ensures list[j] in b { PrefixMember(a, b, list[j]); }
  }

  /** The path visits `start` first and an edge leads from its end back to `start`. */
  ghost predicate IsCyclePath(g: Graph, start: LockId, p: seq<LockId>) {
    Walk(g, p) && p[0] == start && Edge(g, p[|p|-1], start)
  }

  /** The list without its last occurrence of id. */
  function DropLast(s: seq<LockId>, id: LockId): seq<LockId> {
    if s == [] then []
    else if s[|s|-1] == id then s[..|s|-1]
    else DropLast(s[..|s|-1], id) + [s[|s|-1]]
  }

  /** r is s without the entry at k, the last one that is id. */
  ghost predicate LastTaken(s: seq<LockId>, id: LockId, k: nat, r: seq<LockId>) {
    k < |s| && s[k] == id && id !in s[k+1..] && r == s[..k] + s[k+1..]
  }

  /** Exactly the last occurrence goes, and nothing when there is none. */
  lemma {:induction false} DropLastTakes(s: seq<LockId>, id: LockId)
    ensures id in s ==> exists k: nat :: LastTaken(s, id, k, DropLast(s, id))
    ensures id !in s ==> DropLast(s, id) == s
  {
    if s != [] {
      var n := |s| - 1;
      assert s == s[..n] + [s[n]];
      if s[n] == id {
        assert LastTaken(s, id, n, DropLast(s, id));
      } else {
        DropLastTakes(s[..n], id);
        if id in s {
          var k: nat :| LastTaken(s[..n], id, k, DropLast(s[..n], id));
          assert s[..n][..k] == s[..k] && s[..n][k+1..] + [s[n]] == s[k+1..];
          assert LastTaken(s, id, k, DropLast(s, id));
        }
      }
    }
  }

  lemma TakenIsDropped(s: seq<LockId>, id: LockId, k: nat, r: seq<LockId>)
    requires LastTaken(s, id, k, r)
    ensures r == DropLast(s, id)
  {
    DropLastTakes(s, id);
    var j: nat :| LastTaken(s, id, j, DropLast(s, id));
    After(s, id, j);
    After(s, id, k);
  }

  lemma After(s: seq<LockId>, id: LockId, k: nat)
    requires k < |s| && id !in s[k+1..]
    ensures forall i :: k < i < |s| ==> s[i] != id
  {
    forall i | k < i < |s| ensures s[i] != id {
      assert s[i] == s[k+1..][i-k-1];
    }
  }

  lemma {:induction false} WithoutAppend(a: seq<LockId>, b: seq<LockId>, id: LockId)
    ensures Without(a + b, id) == Without(a, id) + Without(b, id)
  {
    if a == [] {
      assert a + b == b;
    } else {
      WithoutAppend(a[1..], b, id);
      assert (a + b)[1..] == a[1..] + b;
    }
  }

  lemma WithoutNext(s: seq<LockId>, i: nat, id: LockId)
    requires i < |s|
    ensures Without(s[..i+1], id) == Without(s[..i], id) + if s[i] == id then [] else [s[i]]
  {
    assert s[..i+1] == s[..i] + [s[i]];
    WithoutAppend(s[..i], [s[i]], id);
  }

  /** Unlinking every match from a list. */
  method RemoveAll(list: seq<LockId>, id: LockId) returns (left: seq<LockId>)
    ensures left == Without(list, id)
  {
    left := [];
    for i := 0 to |list|
      invariant left == Without(list[..i], id)
    {
      WithoutNext(list, i, id);
      if list[i] != id { left := left + [list[i]]; }
    }
    assert list[..|list|] == list;
  }

  /** The remaining nodes lose their edges to the removed one. */
  method CutEdges(nodes: seq<LockId>, edges: map<LockId, seq<LockId>>, id: LockId) returns (left: map<LockId, seq<LockId>>)
    requires forall n :: n in nodes <==> n in edges
    ensures left == Cut(edges, id)
  {
    left := map[];
    for i := 0 to |nodes|
      invariant forall n :: n in left <==> n in nodes[..i] && n != id
      invariant forall n :: n in left ==> n in edges && left[n] == Without(edges[n], id)
    {
      assert nodes[i] in nodes;
      if nodes[i] != id {
        var list := RemoveAll(edges[nodes[i]], id);
        left := left[nodes[i] := list];
      }
    }
    assert nodes[..|nodes|] == nodes;
  }

  class LockList {
    var locks: seq<LockId>

    constructor ()
      ensures locks == []
    {
      locks := [];
    }
  }

  class Checker {
    var nodes: seq<LockId>
    var edges: map<LockId, seq<LockId>>
    var marks: map<LockId, Marks>

    constructor ()
      ensures Valid() && Unmarked() && Abs() == Graph([], map[])
    {
      nodes, edges, marks := [], map[], map[];
    }

    ghost function Abs(): Graph
      reads this
    {
      Graph(nodes, edges)
    }

    ghost predicate Valid()
      reads this
    {
      WellFormed(Abs()) && marks.Keys == edges.Keys
    }

    ghost predicate Unmarked()
      reads this
    {
      forall n :: n in marks ==> marks[n] == NO_MARKS
    }

    // ----- building the graph

    method AddToGraph(id: LockId)
      requires Valid()
      modifies this
      ensures Valid() && Abs() == AddNode(old(Abs()), id) && id in edges
      ensures old(Unmarked()) ==> Unmarked()
    {
      AddNodeEdges(Abs(), id);
      for i := 0 to |nodes|
        invariant id !in nodes[..i]
      {
        if nodes[i] == id { return; }
      }
      nodes := nodes + [id];
      edges := edges[id := []];
      marks := marks[id := NO_MARKS];
    }

    method AddEdgeTo(from: LockId, to: LockId)
      requires Valid() && from in edges && to in edges
      modifies this`edges
      ensures Valid() && Abs() == AddEdge(old(Abs()), from, to)
      ensures forall a, b :: Edge(Abs(), a, b) <==> Edge(old(Abs()), a, b) || (a == from && b == to)
      ensures edges[from] == old(edges)[from] + if to in old(edges)[from] then [] else [to]
    {
      assert forall n :: n in nodes <==> n in edges;
      var list := edges[from];
      for i := 0 to |list|
        invariant to !in list[..i]
      {
        if list[i] == to { return; }
      }
      edges := edges[from := list + [to]];
      assert forall a, b :: Edge(Abs(), a, b) ==> old(Edge(Abs(), a, b)) || b == to;
    }

    // ----- depth-first sorting

    /**
     The state of the search: `order` lists the finished nodes, successors
     first; `stack` is the walk to the node being visited.
     */
    ghost predicate Searching(stack: seq<LockId>, order: seq<LockId>)
      reads this
    {
      && Valid()
      && Topological(Abs(), order) && Distinct(order)
      && (forall n :: n in order || n in stack ==> n in marks)
      && (forall n :: n in marks ==> (marks[n].perm <==> n in order))
      && (forall n :: n in marks ==> (marks[n].temp <==> n in order || n in stack))
      && (forall n :: n in stack ==> n !in order)
      && (stack != [] ==> Walk(Abs(), stack))
    }

    ghost function Fresh(): set<LockId>
      reads this
    {
      set n | n in marks && !marks[n].temp
    }

    ghost predicate SameBfs(before: map<LockId, Marks>)
      reads this
    {
      marks.Keys == before.Keys && forall n :: n in marks ==> marks[n].bfs == before[n].bfs
    }

    method MarkTemp(node: LockId, ghost stack: seq<LockId>, ghost order: seq<LockId>)
      requires Searching(stack, order) && node in marks && !marks[node].temp
      requires stack != [] ==> Edge(Abs(), stack[|stack|-1], node)
      modifies this`marks
      ensures Searching(stack + [node], order) && Fresh() < old(Fresh()) && SameBfs(old(marks))
    {
      marks := marks[node := marks[node].(temp := true)];
      assert node !in Fresh() && node in old(Fresh());
      ghost var s := stack + [node];
      assert forall n :: n in s <==> n in stack || n == node;
      forall k | 0 <= k < |s| - 1 ensures Edge(Abs(), s[k], s[k+1]) {
        if k + 1 < |stack| { assert Edge(Abs(), stack[k], stack[k+1]); }
      }
    }

    method MarkPerm(node: LockId, ghost stack: seq<LockId>, ghost order: seq<LockId>)
      requires Searching(stack + [node], order) && node in marks && node !in stack
      requires forall b :: b in edges[node] ==> b in order
      modifies this`marks
      ensures Searching(stack, order + [node]) && Fresh() == old(Fresh()) && SameBfs(old(marks))
    {
      assert node in stack + [node];
      FinishNode(order, node);
      marks := marks[node := marks[node].(perm := true)];
      ghost var s, o := stack + [node], order + [node];
      assert forall n :: n in s <==> n in stack || n == node;
      assert forall n :: n in o <==> n in order || n == node;
      if stack != [] {
        forall k | 0 <= k < |stack| - 1 ensures Edge(Abs(), stack[k], stack[k+1]) {
          assert Edge(Abs(), s[k], s[k+1]);
        }
      }
    }

    /** lockdep_visit. */
    method Visit(node: LockId, ghost stack: seq<LockId>, ghost order: seq<LockId>) returns (ok: bool, ghost order': seq<LockId>)
      requires Searching(stack, order) && node in marks
      requires stack != [] ==> Edge(Abs(), stack[|stack|-1], node)
      modifies this`marks
      ensures Valid() && Fresh() <= old(Fresh()) && SameBfs(old(marks))
      ensures ok ==> Searching(stack, order') && order <= order' && node in order'
      ensures !ok ==> !Acyclic(Abs())
      decreases Fresh(), 0
    {
      order' := order;
      if marks[node].perm { return true, order; }
      if marks[node].temp {
        BackEdge(stack, node);
        return false, order;
      }
      assert node !in stack;
      MarkTemp(node, stack, order);
      ok, order' := VisitSuccessors(node, stack + [node], order);
      if !ok { return; }
      assert forall b :: b in edges[node] ==> b in order';
      MarkPerm(node, stack, order');
      order' := order' + [node];
    }

    /** The edge loop of lockdep_visit. */
    method VisitSuccessors(node: LockId, ghost stack: seq<LockId>, ghost order: seq<LockId>) returns (ok: bool, ghost order': seq<LockId>)
      requires Searching(stack, order) && node in marks
      requires stack != [] && stack[|stack|-1] == node
      modifies this`marks
      ensures Valid() && Fresh() <= old(Fresh()) && SameBfs(old(marks))
      ensures ok ==> Searching(stack, order') && order <= order' && AllIn(edges[node], |edges[node]|, order')
      ensures !ok ==> !Acyclic(Abs())
      decreases Fresh(), 1
    {
      ok, order' := true, order;
      var list := edges[node];
      for i := 0 to |list|
        invariant Searching(stack, order') && order <= order' && Fresh() <= old(Fresh()) && SameBfs(old(marks))
        invariant AllIn(list, i, order') && ok
      {
        assert Edge(Abs(), node, list[i]);
        ghost var before := order';
        ok, order' := Visit(list[i], stack, order');
        if !ok { return; }
        AllInNext(list, i, before, order');
      }
    }

    /** lockdep_graph_sort: it succeeds exactly on an acyclic graph, and then no mark is left. */
    method GraphSort() returns (ok: bool)
      requires Valid() && Unmarked()
      modifies this`marks
      ensures Valid()
      ensures ok <==> Acyclic(Abs())
      ensures ok ==> Unmarked()
      ensures forall n :: n in marks ==> !marks[n].bfs
    {
      ghost var order: seq<LockId> := [];
      for i := 0 to |nodes|
        invariant Searching([], order)
        invariant AllIn(nodes, i, order)
        invariant forall n :: n in marks ==> !marks[n].bfs
      {
        assert nodes[i] in nodes;
        if marks[nodes[i]] == NO_MARKS {
          ghost var before := order;
          ok, order := Visit(nodes[i], [], order);
          if !ok { return; }
          AllInNext(nodes, i, before, order);
        }
      }
      OrderedIsAcyclic(Abs(), order);
      marks := map n | n in marks :: NO_MARKS;
      return true;
    }

    lemma BackEdge(stack: seq<LockId>, node: LockId)
      requires stack != [] && Walk(Abs(), stack) && node in stack && Edge(Abs(), stack[|stack|-1], node)
      ensures !Acyclic(Abs())
    {
      var i :| 0 <= i < |stack| && stack[i] == node;
      var p := stack[i..] + [node];
      forall k | 0 <= k < |p| - 1 ensures Edge(Abs(), p[k], p[k+1]) {
        if i + k + 1 < |stack| { assert Edge(Abs(), stack[i+k], stack[i+k+1]); }
      }
      assert Cycle(Abs(), p);
    }

    lemma FinishNode(order: seq<LockId>, node: LockId)
      requires Topological(Abs(), order) && Distinct(order) && node !in order && node in edges
      requires forall b :: b in edges[node] ==> b in order
      ensures Topological(Abs(), order + [node]) && Distinct(order + [node])
    {
      var o := order + [node];
      forall i, b | 0 <= i < |o| && Edge(Abs(), o[i], b) ensures b in o[..i] {
        assert o[..i] == if i < |order| then order[..i] else order;
      }
    }

    // ----- breadth-first search

    ghost predicate Visited(paths: Paths)
      reads this
    {
      Valid() && forall n :: n in marks ==> (marks[n].bfs <==> n in paths)
    }

    /** The state of the search between two queue entries. */
    ghost predicate Bfs(start: LockId, paths: Paths, done: set<LockId>, queue: seq<Entry>, lo: nat, hand: Option<LockId>)
      reads this
    {
      && Visited(paths) && paths.Keys <= edges.Keys
      && Found(Abs(), start, paths) && Closed(Abs(), start, paths, done)
      && Queued(paths, done, queue, lo) && Covered(paths, done, queue, hand)
    }

    /** Visit the target of one edge of the node in hand. */
    method Enqueue(start: LockId, u: Entry, v: LockId, queue: seq<Entry>, ghost paths: Paths, ghost done: set<LockId>)
      returns (queue': seq<Entry>, ghost paths': Paths)
      requires u.node in paths && u.path == paths[u.node] && Edge(Abs(), u.node, v) && v != start
      requires Bfs(start, paths, done, queue, |u.path|, Some(u.node))
      modifies this`marks
      ensures Bfs(start, paths', done, queue', |u.path|, Some(u.node))
      ensures Follows(start, paths', u.node, v)
      ensures Grows(paths, paths')
      ensures forall i :: 0 <= i < |queue'| ==> (i < |queue| && queue'[i] == queue[i]) || queue'[i].node !in paths
    {
      queue', paths' := queue, paths;
      if !marks[v].bfs {
        Discover(Abs(), start, paths, done, queue, u.node, v);
        marks := marks[v := marks[v].(bfs := true)];
        queue', paths' := queue + [Entry(v, u.path + [v])], paths[v := paths[u.node] + [v]];
      }
    }

    /** The edge loop: it stops at an edge back to the start, otherwise the node in hand is finished. */
    method Expand(start: LockId, u: Entry, queue: seq<Entry>, ghost paths: Paths, ghost done: set<LockId>)
      returns (closed: bool, queue': seq<Entry>, ghost paths': Paths)
      requires u.node in paths && u.path == paths[u.node]
      requires Bfs(start, paths, done, queue, |u.path|, Some(u.node))
      requires forall i :: 0 <= i < |queue| ==> queue[i].node != u.node
      modifies this`marks
      ensures closed ==> Edge(Abs(), u.node, start) && Bfs(start, paths', done, queue', |u.path|, Some(u.node))
      ensures closed ==> u.node in paths' && paths'[u.node] == u.path
      ensures !closed ==> Bfs(start, paths', done + {u.node}, queue', |u.path|, None)
    {
      closed, queue', paths' := false, queue, paths;
      var list := edges[u.node];
      for k := 0 to |list|
        invariant u.node in paths' && u.path == paths'[u.node]
        invariant Bfs(start, paths', done, queue', |u.path|, Some(u.node))
        invariant forall i :: 0 <= i < |queue'| ==> queue'[i].node != u.node
        invariant FollowsAll(start, paths', u.node, list, k)
      {
        assert Edge(Abs(), u.node, list[k]);
        if list[k] == start { return true, queue', paths'; }
        ghost var before := paths';
        queue', paths' := Enqueue(start, u, list[k], queue', paths', done);
        FollowsNext(start, before, paths', u.node, list, k);
      }
      forall v | Edge(Abs(), u.node, v) ensures Follows(start, paths', u.node, v) {
        var j :| 0 <= j < |list| && list[j] == v;
      }
      Finish(Abs(), start, paths', done, queue', u.node);
    }

    lemma HandIsNearest(start: LockId, paths: Paths, done: set<LockId>, queue: seq<Entry>, u: Entry)
      requires u.node in paths && u.path == paths[u.node]
      requires Bfs(start, paths, done, queue, |u.path|, Some(u.node)) && Edge(Abs(), u.node, start)
      ensures IsCyclePath(Abs(), start, u.path)
      ensures forall c :: Cycle(Abs(), c) && c[0] == start ==> |u.path| + 1 <= |c|
    {
      forall c | Cycle(Abs(), c) && c[0] == start ensures |u.path| + 1 <= |c| {
        FirstClosingIsShortest(Abs(), start, paths, done, |u.path|, c);
      }
      assert PathTo(Abs(), start, u.node, u.path);
    }

    /**
     lockdep_graph_get_shortest_cycle: a shortest cycle through `start` if there
     is one; the source's terminating 0 is not part of the path here.
     */
    method ShortestCycle(start: LockId) returns (r: Option<seq<LockId>>)
      requires Valid() && start in edges && forall n :: n in marks ==> !marks[n].bfs
      modifies this`marks
      ensures Valid()
      ensures r.Some? ==> IsCyclePath(Abs(), start, r.value)
      ensures r.Some? ==> forall c :: Cycle(Abs(), c) && c[0] == start ==> |r.value| + 1 <= |c|
      ensures r.None? ==> forall c :: Cycle(Abs(), c) ==> c[0] != start
    {
      marks := marks[start := marks[start].(bfs := true)];
      var queue := [Entry(start, [start])];
      ghost var paths: Paths, done, lo: nat := map[start := [start]], {}, 1;
      assert queue[0].node == start;
      while queue != []
        invariant Bfs(start, paths, done, queue, lo, None)
        invariant done <= edges.Keys
        decreases edges.Keys - done
      {
        var u := queue[0];
        TakeHead(paths, done, queue, lo);
        assert u.node in paths && u.node !in done;
        var closed;
        closed, queue, paths := Expand(start, u, queue[1..], paths, done);
        if closed {
          HandIsNearest(start, paths, done, queue, u);
          return Some(u.path);
        }
        done, lo := done + {u.node}, |u.path|;
      }
      EmptyQueue(paths, done);
      forall c | Cycle(Abs(), c) ensures c[0] != start {
        ExhaustedMeansNone(Abs(), start, paths, done, c);
      }
      return None;
    }

    /** lockdep_find_edge. */
    method FindEdge(from: LockId, to: LockId) returns (found: bool)
      requires Valid()
      ensures found <==> Edge(Abs(), from, to)
    {
      for i := 0 to |nodes|
        invariant forall k :: 0 <= k < i && nodes[k] == from ==> !Edge(Abs(), from, to)
      {
        if nodes[i] == from {
          assert nodes[i] in nodes;
          var list := edges[from];
          for j := 0 to |list|
            invariant to !in list[..j]
          {
            if list[j] == to { return true; }
          }
        }
      }
      assert from in edges ==> from in nodes;
      return false;
    }

    /** The report loop of lockdep_print_cycle_info: every lookup succeeds, so no null edge is dereferenced. */
    method ReportEdges(node: LockId, cycle: seq<LockId>) returns (report: seq<(LockId, LockId)>)
      requires Valid() && IsCyclePath(Abs(), node, cycle)
      ensures |report| == |cycle|
      ensures forall i :: 0 <= i < |cycle| ==> report[i] == (cycle[i], if i + 1 < |cycle| then cycle[i+1] else node)
      ensures forall i :: 0 <= i < |cycle| ==> Edge(Abs(), report[i].0, report[i].1)
    {
      report := [];
      var to: nat, p := 0, 0;
      while p < |cycle|
        invariant 0 <= p <= |cycle| && |report| == Max(p, 1) - 1
        invariant p > 0 ==> to == cycle[p-1]
        invariant forall i :: 0 <= i < |report| ==> report[i] == (cycle[i], cycle[i+1])
      {
        if p > 0 {
          var found := FindEdge(to, cycle[p]);
          assert Edge(Abs(), cycle[p-1], cycle[p-1+1]);
          assert found;
          report := report + [(to, cycle[p])];
        }
        to := cycle[p];
        p := p + 1;
      }
      var found := FindEdge(to, cycle[0]);
      assert found;
      report := report + [(to, cycle[0])];
      forall i | 0 <= i < |cycle| ensures Edge(Abs(), report[i].0, report[i].1) {
        if i + 1 < |cycle| { assert Edge(Abs(), cycle[i], cycle[i+1]); }
      }
    }

    /** lockdep_print_cycle_info: the search cannot come back empty. */
    method CycleInfo(node: LockId) returns (cycle: seq<LockId>, report: seq<(LockId, LockId)>)
      requires Valid() && node in edges && (forall n :: n in marks ==> !marks[n].bfs)
      requires exists c :: Cycle(Abs(), c) && c[0] == node
      modifies this`marks
      ensures Valid() && IsCyclePath(Abs(), node, cycle)
      ensures forall c :: Cycle(Abs(), c) && c[0] == node ==> |cycle| + 1 <= |c|
      ensures |report| == |cycle| && forall i :: 0 <= i < |report| ==> Edge(Abs(), report[i].0, report[i].1)
    {
      var r := ShortestCycle(node);
      assert r.Some?;
      cycle := r.value;
      report := ReportEdges(node, cycle);
    }

    // ----- the calls made by the lock implementation

    /** The edges __lockdep_lock_acquire adds. */
    ghost function Acquired(g: Graph, locks: seq<LockId>, id: LockId): Graph
      requires forall l :: l in locks ==> l in g.edges
    {
      AddEdges(AddNode(g, id), locks, id)
    }

    method AddOwnedEdges(locks: seq<LockId>, id: LockId)
      requires Valid() && id in edges && forall l :: l in locks ==> l in edges
      modifies this`edges
      ensures Valid() && Abs() == AddEdges(old(Abs()), locks, id)
    {
      for i := 0 to |locks|
        invariant Valid() && edges.Keys == old(edges).Keys
        invariant Abs() == AddEdges(old(Abs()), locks[..i], id)
      {
        assert locks[..i+1][..i] == locks[..i] && locks[..i+1][i] in locks;
        AddEdgeTo(locks[i], id);
      }
      assert locks[..|locks|] == locks;
    }

    /**
     __lockdep_lock_acquire.  It fails exactly when the new edges close a cycle,
     and then reports a cycle that is shortest in the whole graph.
     */
    method Acquire(owned: LockList, id: LockId) returns (r: Result<()>, cycle: seq<LockId>)
      requires Valid() && Unmarked() && Acyclic(Abs())
      requires forall l :: l in owned.locks ==> l in edges
      modifies this, owned
      ensures Valid() && Abs() == Acquired(old(Abs()), old(owned.locks), id)
      ensures nodes == old(nodes) + if id in old(nodes) then [] else [id]
      ensures forall a, b :: Edge(Abs(), a, b) <==> Edge(old(Abs()), a, b) || (a in old(owned.locks) && b == id)
      ensures r.Ok? <==> Acyclic(Abs())
      ensures r.Ok? ==> Unmarked() && owned.locks == old(owned.locks) + [id]
      ensures r.Err? ==> r.error == BadState && owned.locks == old(owned.locks)
      ensures r.Err? ==> IsCyclePath(Abs(), id, cycle) && forall c :: Cycle(Abs(), c) ==> |cycle| + 1 <= |c|
    {
      AddToGraph(id);
      AddOwnedEdges(owned.locks, id);
      AcquiredEdges(old(Abs()), owned.locks, id);
      var ok := GraphSort();
      if !ok {
        cycle := Explain(old(Abs()), id);
        return Err(BadState), cycle;
      }
      owned.locks := owned.locks + [id];
      return Ok(()), [];
    }

    lemma AcquiredEdges(g: Graph, locks: seq<LockId>, id: LockId)
      requires WellFormed(g) && forall l :: l in locks ==> l in g.edges
      ensures Acquired(g, locks, id).nodes == g.nodes + if id in g.nodes then [] else [id]
      ensures forall a, b :: Edge(Acquired(g, locks, id), a, b) <==> Edge(g, a, b) || (a in locks && b == id)
    {
      AddNodeEdges(g, id);
      AddEdgesEdges(AddNode(g, id), locks, id);
    }

    /** The failure branch: a shortest cycle of the whole graph, found through the new node. */
    method Explain(ghost g: Graph, id: LockId) returns (cycle: seq<LockId>)
      requires Valid() && id in edges && (forall n :: n in marks ==> !marks[n].bfs)
      requires Acyclic(g) && !Acyclic(Abs()) && forall a, b :: Edge(Abs(), a, b) ==> Edge(g, a, b) || b == id
      modifies this`marks
      ensures Valid() && IsCyclePath(Abs(), id, cycle)
      ensures forall c :: Cycle(Abs(), c) ==> |cycle| + 1 <= |c|
    {
      ghost var h := Abs();
      assert exists c :: Cycle(h, c) && c[0] == id by {
        var c :| Cycle(h, c);
        var q := NewCycleThrough(g, h, id, c);
      }
      var report;
      cycle, report := CycleInfo(id);
      assert Abs() == h;
      ShortestOfAll(g, h, id, |cycle|);
    }

    lemma ShortestOfAll(g: Graph, h: Graph, id: LockId, len: nat)
      requires Acyclic(g) && forall a, b :: Edge(h, a, b) ==> Edge(g, a, b) || b == id
      requires forall c :: Cycle(h, c) && c[0] == id ==> len + 1 <= |c|
      ensures forall c :: Cycle(h, c) ==> len + 1 <= |c|
    {
      forall c | Cycle(h, c) ensures len + 1 <= |c| {
        var q := NewCycleThrough(g, h, id, c);
      }
    }

    /** __lockdep_lock_tryacquire: the lock is recorded, no edge is added. */
    method TryAcquire(owned: LockList, id: LockId)
      requires Valid()
      modifies this, owned
      ensures Valid() && Abs() == AddNode(old(Abs()), id) && (old(Unmarked()) ==> Unmarked())
      ensures nodes == old(nodes) + if id in old(nodes) then [] else [id]
      ensures forall a, b :: Edge(Abs(), a, b) <==> Edge(old(Abs()), a, b)
      ensures owned.locks == old(owned.locks) + [id]
    {
      AddNodeEdges(Abs(), id);
      AddToGraph(id);
      owned.locks := owned.locks + [id];
    }

    /** __lockdep_lock_release: the most recent matching entry goes. */
    method Release(owned: LockList, id: LockId) returns (r: Result<()>)
      modifies owned
      ensures r.Ok? <==> id in old(owned.locks)
      ensures r.Ok? ==> exists k: nat :: LastTaken(old(owned.locks), id, k, owned.locks)
      ensures r.Err? ==> r.error == ItemNotFound && owned.locks == old(owned.locks)
      ensures owned.locks == DropLast(old(owned.locks), id)
    {
      var locks := owned.locks;
      var i := |locks|;
      while i > 0
        invariant 0 <= i <= |locks| && owned.locks == locks && id !in locks[i..]
      {
        i := i - 1;
        if locks[i] == id {
          owned.locks := locks[..i] + locks[i+1..];
          assert LastTaken(locks, id, i, owned.locks);
          TakenIsDropped(locks, id, i, owned.locks);
          return Ok(());
        }
        assert locks[i..] == [locks[i]] + locks[i+1..];
      }
      assert locks[0..] == locks;
      DropLastTakes(locks, id);
      return Err(ItemNotFound);
    }

    /** lockdep_lock_destroy. */
    method Destroy(id: LockId)
      requires Valid()
      modifies this
      ensures Valid() && Abs() == RemoveNode(old(Abs()), id)
      ensures forall n :: n in nodes <==> n in old(nodes) && n != id
      ensures forall a, b :: Edge(Abs(), a, b) <==> Edge(old(Abs()), a, b) && a != id && b != id
      ensures old(Unmarked()) ==> Unmarked()
    {
      ghost var h := RemoveNode(Abs(), id);
      RemoveNodeEdges(Abs(), id);
      var left := CutEdges(nodes, edges, id);
      assert left.Keys == edges.Keys - {id};
      nodes := RemoveAll(nodes, id);
      edges := left;
      marks := marks - {id};
      assert Abs() == h;
    }
  }
}
