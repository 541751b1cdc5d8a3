/**
 The invariant of the breadth-first search in lockdep_graph_get_shortest_cycle
 and why the first closing edge it meets closes a shortest cycle.
 */
module LockBfs {
  import opened Common
  import opened LockGraph

  /** A queue entry: a node and the path from the start node that led to it. */
  datatype Entry = Entry(node: LockId, path: seq<LockId>)

  type Paths = map<LockId, seq<LockId>>

  ghost predicate PathTo(g: Graph, start: LockId, v: LockId, p: seq<LockId>) {
    Walk(g, p) && p[0] == start && p[|p|-1] == v
  }

  /** Every visited node has a path from the start. */
  ghost predicate Found(g: Graph, start: LockId, paths: Paths) {
    && start in paths && paths[start] == [start]
    && (forall v {:trigger paths[v]} :: v in paths ==> PathTo(g, start, v, paths[v]))
  }

  /** Out of a finished node all edges lead to visited nodes at most one step further, none to the start. */
  ghost predicate Closed(g: Graph, start: LockId, paths: Paths, done: set<LockId>) {
    && done <= paths.Keys
    && (forall u, v :: u in done && Edge(g, u, v) ==> Follows(start, paths, u, v))
  }

  ghost predicate Follows(start: LockId, paths: Paths, u: LockId, v: LockId) {
    v != start && u in paths && v in paths && |paths[v]| <= |paths[u]| + 1
  }

  ghost predicate FollowsAll(start: LockId, paths: Paths, u: LockId, list: seq<LockId>, n: nat)
    requires n <= |list|
  {
    forall j :: 0 <= j < n ==> Follows(start, paths, u, list[j])
  }

  ghost predicate Grows(paths: Paths, paths': Paths) {
    forall x :: x in paths ==> x in paths' && paths'[x] == paths[x]
  }

  lemma FollowsNext(start: LockId, paths: Paths, paths': Paths, u: LockId, list: seq<LockId>, k: nat)
    requires k < |list| && FollowsAll(start, paths, u, list, k)
    requires Grows(paths, paths') && Follows(start, paths', u, list[k])
    ensures FollowsAll(start, paths', u, list, k + 1)
  {
    forall j | 0 <= j < k ensures Follows(start, paths', u, list[j]) {
      assert Follows(start, paths, u, list[j]);
    }
  }

  /** The queue holds exactly the visited, unfinished nodes, nearest first, at distances lo or lo+1. */
  ghost predicate Queued(paths: Paths, done: set<LockId>, queue: seq<Entry>, lo: nat) {
    && (forall i {:trigger queue[i]} :: 0 <= i < |queue| ==>
          && queue[i].node in paths && queue[i].node !in done
          && queue[i].path == paths[queue[i].node] && lo <= |queue[i].path| <= lo + 1)
    && (forall i, j :: 0 <= i < j < |queue| ==> |queue[i].path| <= |queue[j].path| && queue[i].node != queue[j].node)
    && (forall v :: v in done ==> v in paths && |paths[v]| <= lo)
  }

  /** Every visited node is finished, queued, or the one in hand. */
  ghost predicate Covered(paths: Paths, done: set<LockId>, queue: seq<Entry>, hand: Option<LockId>) {
    forall v :: v in paths ==> v in done || hand == Some(v) || exists i :: 0 <= i < |queue| && queue[i].node == v
  }

  /** Along a walk from the start, the first node not finished is visited within as many steps. */
  lemma {:induction false} WalkMeetsFront(g: Graph, start: LockId, paths: Paths, done: set<LockId>, w: seq<LockId>, n: nat) returns (i: nat)
    requires Found(g, start, paths) && Closed(g, start, paths, done)
    requires Walk(g, w) && w[0] == start && n < |w|
    ensures i <= n && w[i] in paths && |paths[w[i]]| <= i + 1
    ensures w[i] in done ==> i == n
  {
    if n == 0 {
      i := 0;
    } else {
      i := WalkMeetsFront(g, start, paths, done, w, n - 1);
      if w[i] in done {
        assert Edge(g, w[n-1], w[n]);
        assert Follows(start, paths, w[n-1], w[n]);
        i := n;
      }
    }
  }

  /** If everything visited is at least as far as `hand` unless finished, no cycle is shorter than its path. */
  lemma FirstClosingIsShortest(g: Graph, start: LockId, paths: Paths, done: set<LockId>, len: nat, cycle: seq<LockId>)
    requires Found(g, start, paths) && Closed(g, start, paths, done)
    requires forall v :: v in paths && v !in done ==> len <= |paths[v]|
    requires Cycle(g, cycle) && cycle[0] == start
    ensures len + 1 <= |cycle|
  {
    var n := |cycle| - 2;
    var last := cycle[n];
    assert Edge(g, last, cycle[n+1]);
    assert last !in done by {
      assert last in done ==> Follows(start, paths, last, start);
    }
    var i := WalkMeetsFront(g, start, paths, done, cycle, n);
  }

  /** If everything visited is finished, the start lies on no cycle. */
  lemma ExhaustedMeansNone(g: Graph, start: LockId, paths: Paths, done: set<LockId>, cycle: seq<LockId>)
    requires Found(g, start, paths) && Closed(g, start, paths, done) && paths.Keys <= done
    requires Cycle(g, cycle)
    ensures cycle[0] != start
  {
    if cycle[0] == start {
      FirstClosingIsShortest(g, start, paths, done, |cycle|, cycle);
    }
  }

  lemma EmptyQueue(paths: Paths, done: set<LockId>)
    requires Covered(paths, done, [], None)
    ensures paths.Keys <= done
  {}

  /** Taking the head of the queue in hand. */
  lemma TakeHead(paths: Paths, done: set<LockId>, queue: seq<Entry>, lo: nat)
    requires queue != [] && Queued(paths, done, queue, lo) && Covered(paths, done, queue, None)
    ensures Queued(paths, done, queue[1..], |queue[0].path|)
    ensures Covered(paths, done, queue[1..], Some(queue[0].node))
  {
    var u := queue[0].node;
    forall v | v in paths && v !in done && v != u
      ensures exists i :: 0 <= i < |queue[1..]| && queue[1..][i].node == v
    {
      var i :| 0 <= i < |queue| && queue[i].node == v;
      assert queue[1..][i-1].node == v;
    }
  }

  /** One more edge at the end of a path. */
  lemma ExtendPath(g: Graph, start: LockId, u: LockId, p: seq<LockId>, v: LockId)
    requires PathTo(g, start, u, p) && Edge(g, u, v)
    ensures PathTo(g, start, v, p + [v])
  {
    var w := p + [v];
    forall i | 0 <= i < |w| - 1 ensures Edge(g, w[i], w[i+1]) {
      if i + 1 < |p| { assert Edge(g, p[i], p[i+1]); }
    }
  }

  lemma DiscoverFound(g: Graph, start: LockId, paths: Paths, done: set<LockId>, u: LockId, v: LockId)
    requires Found(g, start, paths) && Closed(g, start, paths, done) && u in paths && v !in paths && Edge(g, u, v)
    ensures var p := paths[v := paths[u] + [v]];
            Found(g, start, p) && Closed(g, start, p, done)
  {
    var p := paths[v := paths[u] + [v]];
    ExtendPath(g, start, u, paths[u], v);
    forall a, b | a in done && Edge(g, a, b) ensures Follows(start, p, a, b) {
      assert Follows(start, paths, a, b);
    }
  }

  lemma DiscoverQueued(paths: Paths, done: set<LockId>, queue: seq<Entry>, u: LockId, v: LockId)
    requires u in paths && v !in paths
    requires Queued(paths, done, queue, |paths[u]|) && Covered(paths, done, queue, Some(u))
    ensures var p := paths[v := paths[u] + [v]];
            var q := queue + [Entry(v, paths[u] + [v])];
            Queued(p, done, q, |paths[u]|) && Covered(p, done, q, Some(u))
  {
    var p := paths[v := paths[u] + [v]];
    var q := queue + [Entry(v, paths[u] + [v])];
    forall x | x in p && x !in done && x != u ensures exists i :: 0 <= i < |q| && q[i].node == x {
      if x == v {
        assert q[|queue|].node == v;
      } else {
        var i :| 0 <= i < |queue| && queue[i].node == x;
        assert q[i].node == x;
      }
    }
  }

  /** Visiting a new node one step beyond the node in hand. */
  lemma Discover(g: Graph, start: LockId, paths: Paths, done: set<LockId>, queue: seq<Entry>, u: LockId, v: LockId)
    requires Found(g, start, paths) && Closed(g, start, paths, done) && u in paths && v !in paths && Edge(g, u, v)
    requires Queued(paths, done, queue, |paths[u]|) && Covered(paths, done, queue, Some(u))
    ensures var p := paths[v := paths[u] + [v]];
            var q := queue + [Entry(v, paths[u] + [v])];
            && Found(g, start, p) && Closed(g, start, p, done)
            && Queued(p, done, q, |paths[u]|) && Covered(p, done, q, Some(u))
  {
    DiscoverFound(g, start, paths, done, u, v);
    DiscoverQueued(paths, done, queue, u, v);
  }

  /** Finishing the node in hand once all its edges were seen. */
  lemma Finish(g: Graph, start: LockId, paths: Paths, done: set<LockId>, queue: seq<Entry>, u: LockId)
    requires Closed(g, start, paths, done) && u in paths
    requires forall v :: Edge(g, u, v) ==> Follows(start, paths, u, v)
    requires Queued(paths, done, queue, |paths[u]|) && Covered(paths, done, queue, Some(u))
    requires forall i :: 0 <= i < |queue| ==> queue[i].node != u
    ensures Closed(g, start, paths, done + {u})
    ensures Queued(paths, done + {u}, queue, |paths[u]|) && Covered(paths, done + {u}, queue, None)
  {}
}
