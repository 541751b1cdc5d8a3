/**
 Why the checker of core/kernel/lockdep.c prevents deadlock: threads take and
 release locks in any interleaving, each recording a blocking request before it
 waits.  As long as no record fails, no circular wait can form.
 */
module LockdepRuns {
  import opened Common
  import opened LockGraph
  import opened Lockdep

  type Tid = nat

  /** `owned` is the thread's lockdep list; a requested lock is in it before it is granted. */
  datatype Thread = Thread(owned: seq<LockId>, waiting: Option<LockId>)

  datatype State = State(graph: Graph, threads: map<Tid, Thread>, holder: map<LockId, Tid>)

  const START := State(Graph([], map[]), map[], map[])

  function ThreadOf(s: State, t: Tid): Thread {
    if t in s.threads then s.threads[t] else Thread([], None)
  }

  datatype Action =
    | Request(t: Tid, l: LockId)      // recorded, then blocking
    | Grant(t: Tid)
    | TryLock(t: Tid, l: LockId)      // taken first, then recorded
    | Unlock(t: Tid, l: LockId)
    | DestroyLock(l: LockId)

  ghost predicate OwnsKnown(s: State, t: Tid) {
    forall l :: l in ThreadOf(s, t).owned ==> l in s.graph.edges
  }

  /** One error-free step of one thread. */
  ghost predicate Step(s: State, a: Action, s': State) {
    match a
    case Request(t, l) =>
      var th := ThreadOf(s, t);
      && th.waiting.None? && OwnsKnown(s, t)
      && s'.graph == AddEdges(AddNode(s.graph, l), th.owned, l) && Acyclic(s'.graph)
      && s'.threads == s.threads[t := Thread(th.owned + [l], Some(l))]
      && s'.holder == s.holder
    case Grant(t) =>
      var th := ThreadOf(s, t);
      && th.waiting.Some? && th.waiting.value !in s.holder
      && s' == s.(threads := s.threads[t := th.(waiting := None)], holder := s.holder[th.waiting.value := t])
    case TryLock(t, l) =>
      var th := ThreadOf(s, t);
      && th.waiting.None? && l !in s.holder
      && s' == State(AddNode(s.graph, l), s.threads[t := th.(owned := th.owned + [l])], s.holder[l := t])
    case Unlock(t, l) =>
      var th := ThreadOf(s, t);
      && th.waiting.None? && l in s.holder && s.holder[l] == t
      && s' == s.(threads := s.threads[t := th.(owned := DropLast(th.owned, l))], holder := s.holder - {l})
    case DestroyLock(l) =>
      && (forall t :: l !in ThreadOf(s, t).owned)
      && s' == s.(graph := RemoveNode(s.graph, l))
  }

  /** Holding l while waiting for w is recorded as an edge from l to w. */
  ghost predicate Recorded(s: State, t: Tid) {
    var th := ThreadOf(s, t);
    && (th.waiting.Some? ==> th.waiting.value in th.owned)
    && (forall l :: l in th.owned ==> l in s.graph.edges)
    && (forall l :: l in s.holder && s.holder[l] == t ==> Held(s.graph, th, l))
  }

  ghost predicate Held(g: Graph, th: Thread, l: LockId) {
    l in th.owned && (th.waiting.Some? ==> Edge(g, l, th.waiting.value))
  }

  ghost predicate Inv(s: State) {
    WellFormed(s.graph) && Acyclic(s.graph) && forall t :: Recorded(s, t)
  }

  // ----- every step keeps it

  lemma RequestKeeps(s: State, t: Tid, l: LockId, s': State)
    requires Inv(s) && Step(s, Request(t, l), s')
    ensures Inv(s')
  {
    var th := ThreadOf(s, t);
    AddNodeEdges(s.graph, l);
    AddEdgesEdges(AddNode(s.graph, l), th.owned, l);
    assert forall n :: n in s'.graph.nodes <==> n in s'.graph.edges;
    forall u ensures Recorded(s', u) {
      assert Recorded(s, u);
      if u == t {
        forall k | k in s.holder && s.holder[k] == t ensures Held(s'.graph, ThreadOf(s', t), k) {
          assert Held(s.graph, th, k);
        }
      } else {
        forall k | k in s.holder && s.holder[k] == u ensures Held(s'.graph, ThreadOf(s', u), k) {
          assert Held(s.graph, ThreadOf(s, u), k);
        }
      }
    }
  }

  lemma GrantKeeps(s: State, t: Tid, s': State)
    requires Inv(s) && Step(s, Grant(t), s')
    ensures Inv(s')
  {
    forall u ensures Recorded(s', u) {
      assert Recorded(s, u);
      forall k | k in s'.holder && s'.holder[k] == u ensures Held(s'.graph, ThreadOf(s', u), k) {
        if k in s.holder { assert Held(s.graph, ThreadOf(s, u), k); }
      }
    }
  }

  lemma TryLockKeeps(s: State, t: Tid, l: LockId, s': State)
    requires Inv(s) && Step(s, TryLock(t, l), s')
    ensures Inv(s')
  {
    AddNodeEdges(s.graph, l);
    SubgraphAcyclic(s.graph, s'.graph);
    forall u ensures Recorded(s', u) {
      assert Recorded(s, u);
      forall k | k in s'.holder && s'.holder[k] == u ensures Held(s'.graph, ThreadOf(s', u), k) {
        if k in s.holder { assert Held(s.graph, ThreadOf(s, u), k); }
      }
    }
  }

  lemma {:induction false} DropLastKeepsOthers(s: seq<LockId>, id: LockId)
    ensures forall x :: x in DropLast(s, id) ==> x in s
    ensures forall x :: x in s && x != id ==> x in DropLast(s, id)
  {
    if s != [] && s[|s|-1] != id {
      DropLastKeepsOthers(s[..|s|-1], id);
    }
  }

  lemma UnlockKeeps(s: State, t: Tid, l: LockId, s': State)
    requires Inv(s) && Step(s, Unlock(t, l), s')
    ensures Inv(s')
  {
    DropLastKeepsOthers(ThreadOf(s, t).owned, l);
    forall u ensures Recorded(s', u) {
      assert Recorded(s, u);
      forall k | k in s'.holder && s'.holder[k] == u ensures Held(s'.graph, ThreadOf(s', u), k) {
        assert Held(s.graph, ThreadOf(s, u), k);
      }
    }
  }

  lemma DestroyKeeps(s: State, l: LockId, s': State)
    requires Inv(s) && Step(s, DestroyLock(l), s')
    ensures Inv(s')
  {
    RemoveNodeEdges(s.graph, l);
    SubgraphAcyclic(s.graph, s'.graph);
    forall u ensures Recorded(s', u) {
      assert Recorded(s, u);
      assert l !in ThreadOf(s, u).owned;
      forall k | k in s'.holder && s'.holder[k] == u ensures Held(s'.graph, ThreadOf(s', u), k) {
        assert Held(s.graph, ThreadOf(s, u), k);
      }
    }
  }

  lemma StepKeeps(s: State, a: Action, s': State)
    requires Inv(s) && Step(s, a, s')
    ensures Inv(s')
  {
    match a
    case Request(t, l) => RequestKeeps(s, t, l, s');
    case Grant(t) => GrantKeeps(s, t, s');
    case TryLock(t, l) => TryLockKeeps(s, t, l, s');
    case Unlock(t, l) => UnlockKeeps(s, t, l, s');
    case DestroyLock(l) => DestroyKeeps(s, l, s');
  }

  /** A run: states linked by error-free steps. */
  ghost predicate Run(states: seq<State>, actions: seq<Action>) {
    && |states| == |actions| + 1 && states[0] == START
    && forall i :: 0 <= i < |actions| ==> Step(states[i], actions[i], states[i+1])
  }

  lemma {:induction false} RunKeeps(states: seq<State>, actions: seq<Action>, n: nat)
    requires Run(states, actions) && n < |states|
    ensures Inv(states[n])
  {
    if n == 0 {
      OrderedIsAcyclic(START.graph, []);
    } else {
      RunKeeps(states, actions, n - 1);
      StepKeeps(states[n-1], actions[n-1], states[n]);
    }
  }

  // ----- no circular wait

  /** Thread i waits for a lock held by the next thread of the circle. */
  ghost predicate WaitsForNext(s: State, ts: seq<Tid>, i: nat)
    requires i < |ts|
  {
    var w := ThreadOf(s, ts[i]).waiting;
    w.Some? && w.value in s.holder && s.holder[w.value] == ts[if i + 1 < |ts| then i + 1 else 0]
  }

  ghost predicate CircularWait(s: State, ts: seq<Tid>) {
    |ts| >= 1 && forall i :: 0 <= i < |ts| ==> WaitsForNext(s, ts, i)
  }

  /** The lock awaited by thread i of the circle; thread 0 follows the last one. */
  function Awaited(s: State, ts: seq<Tid>, i: nat): LockId {
    var k := if i < |ts| then i else 0;
    if k < |ts| && ThreadOf(s, ts[k]).waiting.Some? then ThreadOf(s, ts[k]).waiting.value else 1
  }

  /** The locks waited for around the circle form a cycle of the graph. */
  lemma WaitIsCycle(s: State, ts: seq<Tid>) returns (p: seq<LockId>)
    requires Inv(s) && CircularWait(s, ts)
    ensures Cycle(s.graph, p)
  {
    p := seq<LockId>(|ts| + 1, i requires i >= 0 => Awaited(s, ts, i));
    forall i | 0 <= i < |p| - 1 ensures Edge(s.graph, p[i], p[i+1]) {
      var n := if i + 1 < |ts| then i + 1 else 0;
      assert WaitsForNext(s, ts, i) && WaitsForNext(s, ts, n);
      assert Recorded(s, ts[n]);
      assert Held(s.graph, ThreadOf(s, ts[n]), p[i]);
    }
  }

  /** In no state of any error-free run do threads wait in a circle. */
  lemma NoCircularWait(states: seq<State>, actions: seq<Action>, n: nat, ts: seq<Tid>)
    requires Run(states, actions) && n < |states|
    ensures Acyclic(states[n].graph)
    ensures !CircularWait(states[n], ts)
  {
    RunKeeps(states, actions, n);
    if CircularWait(states[n], ts) {
      var p := WaitIsCycle(states[n], ts);
      assert false;
    }
  }
}
