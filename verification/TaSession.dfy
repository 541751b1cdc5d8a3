/**
 Session life time in the TA manager (core/kernel/tee_ta_manager.c): references,
 exclusive locking, unlinking and freeing, as steps of threads under one mutex.
 A step ends by releasing the mutex or by waiting on a condition variable of the
 session; a woken thread checks its condition again.
 */
module TaSession {
  import opened Common

  type Tid = nat
  type Obj = nat

  /** struct tee_ta_session, as far as its life time goes. */
  datatype Session = Session(id: nat, refCount: int, lockThread: Option<Tid>, unlink: bool)

  /** How a thread uses a session: it has a reference, or is in get or unlink and waits. */
  datatype Use = Shared | Exclusive | AwaitsLock | AwaitsRefs

  /** A session, the threads that use it, and those of the waiting ones that have been signalled. */
  datatype Slot = Slot(s: Session, users: map<Tid, Use>, woken: set<Tid>)

  /** The allocated sessions, the list of open ones in order, and the objects given back to the allocator. */
  datatype World = World(slots: map<Obj, Slot>, open: seq<Obj>, freed: set<Obj>)

  const START := World(map[], [], {})

  const IDS: nat := 0x1_0000_0000

  // ----- lookup

  predicate Listed(w: World) {
    forall i :: 0 <= i < |w.open| ==> w.open[i] in w.slots
  }

  function IdAt(w: World, i: nat): nat
    requires Listed(w) && i < |w.open|
  {
    w.slots[w.open[i]].s.id
  }

  /** Position of the first session in the list with the identifier, or the end. */
  function Find(w: World, id: nat, k: nat): (r: nat)
    requires Listed(w) && k <= |w.open|
    ensures k <= r <= |w.open| && (r < |w.open| ==> IdAt(w, r) == id)
    ensures forall i :: k <= i < r ==> IdAt(w, i) != id
    decreases |w.open| - k
  {
    if k == |w.open| || IdAt(w, k) == id then k else Find(w, id, k + 1)
  }

  predicate IdUsed(w: World, id: nat)
    requires Listed(w)
  {
    Find(w, id, 0) < |w.open|
  }

  // ----- the condition variables of a session

  predicate Waiting(x: Slot, u: Use, t: Tid) {
    t in x.users && x.users[t] == u
  }

  /** A signal wakes one sleeping waiter, if there is one. */
  ghost predicate Choice(x: Slot, u: Use, k: Option<Tid>) {
    match k
    case Some(t) => Waiting(x, u, t) && t !in x.woken
    case None => forall t :: Waiting(x, u, t) ==> t in x.woken
  }

  function Signal(x: Slot, k: Option<Tid>): Slot {
    x.(woken := x.woken + if k.Some? then {k.value} else {})
  }

  // ----- what a step does to one session

  function Fresh(t: Tid, id: nat): Slot {
    Slot(Session(id, 1, None, false), map[t := Shared], {})
  }

  /** A reference less; with one left the closing thread is signalled. */
  function Dec(x: Slot, t: Tid, kr: Option<Tid>): Slot {
    var y := Slot(x.s.(refCount := x.s.refCount - 1), x.users - {t}, x.woken - {t});
    if y.s.refCount == 1 then Signal(y, kr) else y
  }

  /** Whoever puts back a session it has locked unlocks it and signals a waiter. */
  function Unlock(x: Slot, t: Tid, kl: Option<Tid>): Slot {
    if x.s.lockThread == Some(t) then Signal(x.(s := x.s.(lockThread := None)), kl) else x
  }

  function Put(x: Slot, t: Tid, kl: Option<Tid>, kr: Option<Tid>): Slot {
    Dec(Unlock(x, t, kl), t, kr)
  }

  /** An exclusive get whose reference is counted: take the lock, wait, or give up. */
  function TakeLock(x: Slot, t: Tid, kr: Option<Tid>): Slot {
    if x.s.unlink then Dec(x, t, kr)
    else if x.s.lockThread.Some? then Slot(x.s, x.users[t := AwaitsLock], x.woken - {t})
    else Slot(x.s.(lockThread := Some(t)), x.users[t := Exclusive], x.woken - {t})
  }

  function Get(x: Slot, t: Tid, exclusive: bool): Slot {
    if x.s.unlink then x
    else
      var y := x.(s := x.s.(refCount := x.s.refCount + 1));
      if exclusive then TakeLock(y, t, None) else y.(users := y.users[t := Shared])
  }

  /** The closing thread looks again. */
  function Resume(x: Slot, t: Tid): Slot {
    x.(woken := x.woken - {t})
  }

  /** Closing wakes everybody who waits for the lock. */
  function Unlink(x: Slot, t: Tid): Slot {
    Slot(x.s.(unlink := true), x.users[t := AwaitsRefs], x.woken + set u | u in x.users && x.users[u] == AwaitsLock)
  }

  // ----- and to the manager

  function Update(w: World, o: Obj, x: Slot): World {
    w.(slots := w.slots[o := x])
  }

  /** With one reference left the session leaves the list and is freed. */
  function TryRemove(w: World, o: Obj): World
    requires o in w.slots
  {
    if w.slots[o].s.refCount != 1 then w
    else World(w.slots - {o}, Without(w.open, o), w.freed + {o})
  }

  /** Events name the thread that each signal would wake. */
  datatype Event =
    | Open(t: Tid, o: Obj, newId: nat)
    | PutBack(t: Tid, o: Obj, kl: Option<Tid>, kr: Option<Tid>)
    | Request(t: Tid, id: nat, exclusive: bool)
    | WakeLock(t: Tid, o: Obj, kr: Option<Tid>)
    | Close(t: Tid, o: Obj)
    | WakeRefs(t: Tid, o: Obj)

  predicate Uses(w: World, t: Tid, o: Obj, u: Use) {
    o in w.slots && t in w.slots[o].users && w.slots[o].users[t] == u
  }

  /**
   The discipline of the callers: a reference that was obtained is given back once,
   a thread does not ask again for a session it uses, and the thread that holds a
   session exclusively is the one that closes it.
   */
  ghost predicate Enabled(w: World, e: Event) {
    Listed(w) && match e
    case Open(t, o, id) => o !in w.slots && o !in w.freed && 0 < id < IDS && !IdUsed(w, id)
    case PutBack(t, o, kl, kr) =>
      && (Uses(w, t, o, Shared) || Uses(w, t, o, Exclusive))
      && Choice(w.slots[o], AwaitsLock, kl) && Choice(w.slots[o], AwaitsRefs, kr)
    case Request(t, id, _) => IdUsed(w, id) ==> t !in w.slots[w.open[Find(w, id, 0)]].users
    case WakeLock(t, o, kr) => Uses(w, t, o, AwaitsLock) && Choice(w.slots[o], AwaitsRefs, kr)
    case Close(t, o) => Uses(w, t, o, Exclusive)
    case WakeRefs(t, o) => Uses(w, t, o, AwaitsRefs)
  }

  ghost function Step(w: World, e: Event): World
    requires Enabled(w, e)
  {
    match e
    case Open(t, o, id) => World(w.slots[o := Fresh(t, id)], w.open + [o], w.freed)
    case PutBack(t, o, kl, kr) => Update(w, o, Put(w.slots[o], t, kl, kr))
    case Request(t, id, exclusive) =>
      if IdUsed(w, id) then
        var o := w.open[Find(w, id, 0)];
        Update(w, o, Get(w.slots[o], t, exclusive))
      else w
    case WakeLock(t, o, kr) => Update(w, o, TakeLock(w.slots[o], t, kr))
    case Close(t, o) => TryRemove(Update(w, o, Unlink(w.slots[o], t)), o)
    case WakeRefs(t, o) => TryRemove(Update(w, o, Resume(w.slots[o], t)), o)
  }

  // ----- the invariant

  predicate Locks(u: Use) {
    u == Exclusive || u == AwaitsRefs
  }

  /** Every user accounts for one reference; the lock belongs to its one exclusive user. */
  ghost predicate SlotInv(x: Slot) {
    && x.s.refCount == |x.users.Keys|
    && (forall t :: t in x.users ==> (x.s.lockThread == Some(t) <==> Locks(x.users[t])))
    && (x.s.lockThread.Some? ==> x.s.lockThread.value in x.users)
    && (forall t :: t in x.users ==> (x.users[t] == AwaitsRefs ==> x.s.unlink))
    && (x.s.unlink ==> x.s.lockThread.Some? && x.users[x.s.lockThread.value] == AwaitsRefs)
  }

  /** If anybody waits like this, somebody who does has been signalled. */
  ghost predicate Served(x: Slot, u: Use) {
    (exists t :: Waiting(x, u, t)) ==> exists t :: Waiting(x, u, t) && t in x.woken
  }

  /** A free lock has a signalled waiter, a closing session none that sleeps, and its last reference a signalled closer. */
  ghost predicate WakeInv(x: Slot) {
    && (x.s.lockThread == None ==> Served(x, AwaitsLock))
    && (x.s.unlink ==> forall t :: Waiting(x, AwaitsLock, t) ==> t in x.woken)
    && (x.s.refCount == 1 ==> Served(x, AwaitsRefs))
  }

  ghost predicate ListInv(w: World) {
    && (forall o :: o in w.open <==> o in w.slots)
    && Distinct(w.open)
    && (forall o, p :: o in w.slots && p in w.slots && w.slots[o].s.id == w.slots[p].s.id ==> o == p)
    && (forall o :: o in w.slots ==> 0 < w.slots[o].s.id < IDS && o !in w.freed)
  }

  ghost predicate Inv(w: World) {
    ListInv(w) && forall o :: o in w.slots ==> SlotInv(w.slots[o]) && WakeInv(w.slots[o])
  }

  // ----- every step keeps it: references and lock

  lemma DecCount(x: Slot, t: Tid, kr: Option<Tid>)
    requires t in x.users
    ensures |Dec(x, t, kr).users.Keys| == |x.users.Keys| - 1
  {
    assert Dec(x, t, kr).users.Keys == x.users.Keys - {t};
  }

  lemma AddCount(m: map<Tid, Use>, t: Tid, u: Use)
    ensures |m[t := u].Keys| == |m.Keys| + if t in m then 0 else 1
  {
    assert m[t := u].Keys == m.Keys + {t};
  }

  lemma PutKeeps(x: Slot, t: Tid, kl: Option<Tid>, kr: Option<Tid>)
    requires SlotInv(x) && t in x.users && (x.users[t] == Shared || x.users[t] == Exclusive)
    ensures SlotInv(Put(x, t, kl, kr)) && x.s.refCount > 0
  {
    DecCount(Unlock(x, t, kl), t, kr);
  }

  lemma TakeLockKeeps(x: Slot, t: Tid, kr: Option<Tid>)
    requires SlotInv(x) && t in x.users && x.users[t] == AwaitsLock
    ensures SlotInv(TakeLock(x, t, kr)) && x.s.refCount > 0
  {
    DecCount(x, t, kr);
    AddCount(x.users, t, AwaitsLock);
    AddCount(x.users, t, Exclusive);
  }

  lemma GetKeeps(x: Slot, t: Tid, exclusive: bool)
    requires SlotInv(x) && t !in x.users
    ensures SlotInv(Get(x, t, exclusive)) && x.s.lockThread != Some(t)
  {
    AddCount(x.users, t, Shared);
    AddCount(x.users, t, AwaitsLock);
    AddCount(x.users, t, Exclusive);
  }

  lemma UnlinkKeeps(x: Slot, t: Tid)
    requires SlotInv(x) && t in x.users && x.users[t] == Exclusive
    ensures SlotInv(Unlink(x, t)) && !x.s.unlink && x.s.refCount >= 1
  {
    AddCount(x.users, t, AwaitsRefs);
    DecCount(x, t, None);
  }

  /** A session about to be removed is used by its closer alone. */
  lemma LastUser(x: Slot, t: Tid)
    requires SlotInv(x) && t in x.users && x.s.refCount == 1
    ensures x.users.Keys == {t}
  {
    var rest := x.users.Keys - {t};
    assert |rest| == 0;
    assert x.users.Keys == rest + {t};
  }

  // ----- every step keeps it: signals

  lemma SignalServes(x: Slot, u: Use, k: Option<Tid>)
    requires Choice(x, u, k)
    ensures Served(Signal(x, k), u)
  {
    var y := Signal(x, k);
    if t :| Waiting(y, u, t) {
      assert Waiting(x, u, t);
      var v := if k.Some? then k.value else t;
      assert Waiting(y, u, v) && v in y.woken;
    }
  }

  /** The same waiters, at least as many of them signalled. */
  lemma ServedStays(x: Slot, y: Slot, u: Use)
    requires Served(x, u) && forall t :: Waiting(y, u, t) <==> Waiting(x, u, t)
    requires forall t :: Waiting(x, u, t) && t in x.woken ==> t in y.woken
    ensures Served(y, u)
  {
    if t :| Waiting(y, u, t) {
      assert Waiting(x, u, t);
      var v :| Waiting(x, u, v) && v in x.woken;
      assert Waiting(y, u, v);
    }
  }

  lemma UnlockWakes(x: Slot, t: Tid, kl: Option<Tid>)
    requires SlotInv(x) && WakeInv(x) && Choice(x, AwaitsLock, kl)
    ensures (Unlock(x, t, kl).s.lockThread == None ==> Served(Unlock(x, t, kl), AwaitsLock))
    ensures x.s.unlink ==> forall u :: Waiting(x, AwaitsLock, u) ==> u in Unlock(x, t, kl).woken
  {
    if x.s.lockThread == Some(t) {
      SignalServes(x.(s := x.s.(lockThread := None)), AwaitsLock, kl);
    }
  }

  /** Dropping a user that does not wait, or one of a session that is being closed. */
  lemma DecWakes(x: Slot, t: Tid, kr: Option<Tid>)
    requires t in x.users && x.users[t] != AwaitsRefs && Choice(x, AwaitsRefs, kr)
    requires x.s.lockThread == None ==> Served(x, AwaitsLock) && x.users[t] != AwaitsLock
    requires x.s.unlink ==> forall u :: Waiting(x, AwaitsLock, u) ==> u in x.woken
    ensures WakeInv(Dec(x, t, kr))
  {
    var z := Slot(x.s.(refCount := x.s.refCount - 1), x.users - {t}, x.woken - {t});
    var y := Dec(x, t, kr);
    if y.s.refCount == 1 {
      assert Choice(z, AwaitsRefs, kr);
      SignalServes(z, AwaitsRefs, kr);
    }
    if y.s.lockThread == None {
      ServedStays(x, y, AwaitsLock);
    }
    assert forall u :: Waiting(y, AwaitsLock, u) ==> Waiting(x, AwaitsLock, u) && u != t;
  }

  lemma PutWakes(x: Slot, t: Tid, kl: Option<Tid>, kr: Option<Tid>)
    requires SlotInv(x) && WakeInv(x) && t in x.users && (x.users[t] == Shared || x.users[t] == Exclusive)
    requires Choice(x, AwaitsLock, kl) && Choice(x, AwaitsRefs, kr)
    ensures WakeInv(Put(x, t, kl, kr))
  {
    UnlockWakes(x, t, kl);
    var y := Unlock(x, t, kl);
    assert Choice(y, AwaitsRefs, kr);
    assert forall u :: Waiting(y, AwaitsLock, u) <==> Waiting(x, AwaitsLock, u);
    DecWakes(y, t, kr);
  }

  lemma TakeLockWakes(x: Slot, t: Tid, kr: Option<Tid>)
    requires SlotInv(x) && WakeInv(x) && Waiting(x, AwaitsLock, t) && Choice(x, AwaitsRefs, kr)
    ensures WakeInv(TakeLock(x, t, kr))
  {
    if x.s.unlink {
      DecWakes(x, t, kr);
    } else {
      var y := TakeLock(x, t, kr);
      assert forall u :: !Waiting(y, AwaitsRefs, u);
    }
  }

  lemma GetWakes(x: Slot, t: Tid, exclusive: bool)
    requires SlotInv(x) && WakeInv(x) && t !in x.users
    ensures WakeInv(Get(x, t, exclusive))
  {
    var y := Get(x, t, exclusive);
    if !x.s.unlink {
      assert forall u :: !Waiting(y, AwaitsRefs, u);
      if y.s.lockThread == None { ServedStays(x, y, AwaitsLock); }
    }
  }

  /** The closing thread waits only while there are other references. */
  lemma UnlinkWakes(x: Slot, t: Tid)
    requires SlotInv(x) && t in x.users && x.users[t] == Exclusive && x.s.refCount != 1
    ensures WakeInv(Unlink(x, t))
  {}

  lemma ResumeKeeps(x: Slot, t: Tid)
    requires SlotInv(x) && WakeInv(x) && Waiting(x, AwaitsRefs, t)
    ensures SlotInv(Resume(x, t)) && (x.s.refCount != 1 ==> WakeInv(Resume(x, t)))
  {
    var y := Resume(x, t);
    assert forall u :: Waiting(y, AwaitsLock, u) <==> Waiting(x, AwaitsLock, u);
  }

  // ----- every step keeps it

  lemma UpdateKeeps(w: World, o: Obj, x: Slot)
    requires Inv(w) && o in w.slots && SlotInv(x) && WakeInv(x) && x.s.id == w.slots[o].s.id
    ensures Inv(Update(w, o, x))
  {}

  /** Removing a session, or leaving it with its closer asleep. */
  lemma RemoveKeeps(w: World, o: Obj, x: Slot)
    requires Inv(w) && o in w.slots && SlotInv(x) && x.s.id == w.slots[o].s.id && (x.s.refCount != 1 ==> WakeInv(x))
    ensures Inv(TryRemove(Update(w, o, x), o))
  {
    if x.s.refCount != 1 {
      UpdateKeeps(w, o, x);
    } else {
      WithoutDistinct(w.open, o);
    }
  }

  lemma FreshId(w: World, id: nat, p: Obj)
    requires ListInv(w) && !IdUsed(w, id) && p in w.slots
    ensures w.slots[p].s.id != id
  {
    assert p in w.open;
    var i :| 0 <= i < |w.open| && w.open[i] == p;
    assert IdAt(w, i) != id;
  }

  lemma AppendDistinct(open: seq<Obj>, o: Obj)
    requires Distinct(open) && o !in open
    ensures Distinct(open + [o])
  {}

  lemma OpenList(w: World, o: Obj, x: Slot)
    requires ListInv(w) && o !in w.slots && o !in w.freed && 0 < x.s.id < IDS
    requires forall p :: p in w.slots ==> w.slots[p].s.id != x.s.id
    ensures ListInv(World(w.slots[o := x], w.open + [o], w.freed))
  {
    AppendDistinct(w.open, o);
    var w2 := World(w.slots[o := x], w.open + [o], w.freed);
    forall p, q | p in w2.slots && q in w2.slots && w2.slots[p].s.id == w2.slots[q].s.id ensures p == q {
      assert p == o || p in w.slots;
      assert q == o || q in w.slots;
    }
  }

  lemma FreshOk(t: Tid, id: nat)
    ensures SlotInv(Fresh(t, id)) && WakeInv(Fresh(t, id))
  {
    assert Fresh(t, id).users.Keys == {t};
  }

  lemma OpenIds(w: World, o: Obj, x: Slot)
    requires ListInv(w) && o !in w.slots && o !in w.freed && 0 < x.s.id < IDS && !IdUsed(w, x.s.id)
    ensures ListInv(World(w.slots[o := x], w.open + [o], w.freed))
  {
    forall p | p in w.slots ensures w.slots[p].s.id != x.s.id {
      FreshId(w, x.s.id, p);
    }
    OpenList(w, o, x);
  }

  lemma OpenKeeps(w: World, t: Tid, o: Obj, id: nat)
    requires Inv(w) && Enabled(w, Open(t, o, id))
    ensures Inv(Step(w, Open(t, o, id)))
  {
    FreshOk(t, id);
    OpenIds(w, o, Fresh(t, id));
  }

  lemma StepKeeps(w: World, e: Event)
    requires Inv(w) && Enabled(w, e)
    ensures Inv(Step(w, e))
  {
    match e
    case Open(t, o, id) => OpenKeeps(w, t, o, id);
    case PutBack(t, o, kl, kr) =>
      PutKeeps(w.slots[o], t, kl, kr);
      PutWakes(w.slots[o], t, kl, kr);
      UpdateKeeps(w, o, Put(w.slots[o], t, kl, kr));
    case Request(t, id, exclusive) =>
      if IdUsed(w, id) {
        var o := w.open[Find(w, id, 0)];
        GetKeeps(w.slots[o], t, exclusive);
        GetWakes(w.slots[o], t, exclusive);
        UpdateKeeps(w, o, Get(w.slots[o], t, exclusive));
      }
    case WakeLock(t, o, kr) =>
      TakeLockKeeps(w.slots[o], t, kr);
      TakeLockWakes(w.slots[o], t, kr);
      UpdateKeeps(w, o, TakeLock(w.slots[o], t, kr));
    case Close(t, o) =>
      UnlinkKeeps(w.slots[o], t);
      if w.slots[o].s.refCount != 1 { UnlinkWakes(w.slots[o], t); }
      RemoveKeeps(w, o, Unlink(w.slots[o], t));
    case WakeRefs(t, o) =>
      ResumeKeeps(w.slots[o], t);
      RemoveKeeps(w, o, Resume(w.slots[o], t));
  }

  // ----- whole runs

  ghost predicate Steps(w: World, w2: World) {
    exists e :: Enabled(w, e) && w2 == Step(w, e)
  }

  ghost predicate IsRun(r: seq<World>) {
    && |r| > 0 && r[0] == START
    && forall i :: 0 <= i < |r| - 1 ==> Steps(r[i], r[i + 1])
  }

  lemma {:induction false} RunKeeps(r: seq<World>, i: nat)
    requires IsRun(r) && i < |r|
    ensures Inv(r[i])
  {
    if i > 0 {
      RunKeeps(r, i - 1);
      assert Steps(r[i - 1], r[i]);
      var e :| Enabled(r[i - 1], e) && r[i] == Step(r[i - 1], e);
      StepKeeps(r[i - 1], e);
    }
  }

  /** At most one thread holds a session exclusively, and it is the recorded one. */
  lemma OneExclusiveHolder(r: seq<World>, i: nat, o: Obj, t: Tid, u: Tid)
    requires IsRun(r) && i < |r| && Uses(r[i], t, o, Exclusive)
    requires Uses(r[i], u, o, Exclusive) || Uses(r[i], u, o, AwaitsRefs)
    ensures t == u && r[i].slots[o].s.lockThread == Some(t)
  {
    RunKeeps(r, i);
  }

  /** When a step frees a session, only the closing thread was using it. */
  lemma RemovalIsSafe(r: seq<World>, i: nat, o: Obj, e: Event)
    requires IsRun(r) && i < |r| && Enabled(r[i], e) && o in r[i].slots && o !in Step(r[i], e).slots
    ensures (e.Close? || e.WakeRefs?) && e.o == o && r[i].slots[o].users.Keys == {e.t}
    ensures o in Step(r[i], e).freed && o !in Step(r[i], e).open
  {
    RunKeeps(r, i);
    StepKeeps(r[i], e);
    if e.Close? {
      UnlinkKeeps(r[i].slots[o], e.t);
      LastUser(Unlink(r[i].slots[o], e.t), e.t);
      assert Unlink(r[i].slots[o], e.t).users.Keys == r[i].slots[o].users.Keys + {e.t};
    } else if e.WakeRefs? {
      LastUser(r[i].slots[o], e.t);
    }
  }

  /** No wake-up is lost, neither for the lock of a session nor for its closer. */
  lemma NoLostWakeup(r: seq<World>, i: nat, o: Obj, t: Tid)
    requires IsRun(r) && i < |r| && o in r[i].slots
    ensures var x := r[i].slots[o];
      && (Waiting(x, AwaitsLock, t) && x.s.lockThread == None ==> exists u :: u in x.woken && Waiting(x, AwaitsLock, u))
      && (Waiting(x, AwaitsLock, t) && x.s.unlink ==> t in x.woken)
      && (Waiting(x, AwaitsRefs, t) && x.s.refCount == 1 ==> t in x.woken)
  {
    RunKeeps(r, i);
    var x := r[i].slots[o];
    if Waiting(x, AwaitsRefs, t) && x.s.refCount == 1 {
      var u :| Waiting(x, AwaitsRefs, u) && u in x.woken;
      assert x.s.lockThread == Some(u) && x.s.lockThread == Some(t);
    }
  }

  /** Nobody can find, use or wait for a freed session again. */
  lemma {:induction false} FreedForever(r: seq<World>, i: nat, j: nat, o: Obj)
    requires IsRun(r) && i <= j < |r| && o in r[i].freed
    ensures o in r[j].freed && o !in r[j].slots && o !in r[j].open && forall t, u :: !Uses(r[j], t, o, u)
    decreases j
  {
    RunKeeps(r, j);
    if j > i {
      FreedForever(r, i, j - 1, o);
      assert Steps(r[j - 1], r[j]);
    }
  }

  // ----- the manager object

  /** The session at k is the first one in the list with the identifier. */
  ghost predicate FirstOpen(open: seq<Obj>, sessions: map<Obj, Session>, id: nat, k: int) {
    && 0 <= k < |open| && open[k] in sessions && sessions[open[k]].id == id
    && forall i :: 0 <= i < k ==> open[i] in sessions && sessions[open[i]].id != id
  }

  /** A session that is not being closed is referenced once more; whoever wants it exclusively waits if it is locked. */
  ghost predicate Answered(was: map<Obj, Session>, o: Obj, t: Tid, exclusive: bool, r: Outcome, now: map<Obj, Session>) {
    && o in was && !was[o].unlink
    && r == (if !exclusive || was[o].lockThread.None? then Got(o) else MustWait)
    && now == was[o := TakenBy(was[o], t, exclusive)]
  }

  /** The answer to a request: nothing exactly when no session has the identifier or the first that has it is being closed. */
  ghost predicate Requested(open: seq<Obj>, was: map<Obj, Session>, t: Tid, id: nat, exclusive: bool, r: Outcome,
                            now: map<Obj, Session>)
  {
    if r.NoSession? then now == was && forall k :: FirstOpen(open, was, id, k) ==> was[open[k]].unlink
    else exists k :: FirstOpen(open, was, id, k) && Answered(was, open[k], t, exclusive, r, now)
  }

  /** A second look: the reference goes back, or the lock is taken, or nothing happens. */
  ghost predicate Retried(was: map<Obj, Session>, o: Obj, t: Tid, r: Outcome, now: map<Obj, Session>) {
    o in was && o in now && match r
    case NoSession => now == was[o := was[o].(refCount := was[o].refCount - 1)]
    case Got(_) => now == was[o := was[o].(lockThread := Some(t))]
    case _ => now == was
  }

  /** The closed session is gone from the list, exactly when no other reference to it is left. */
  ghost predicate ClosedIf(open: seq<Obj>, was: map<Obj, Session>, o: Obj, r: Outcome, open2: seq<Obj>, now: map<Obj, Session>) {
    o in was &&
    if was[o].refCount == 1
    then r == Gone && now == was - {o} && exists k: nat :: TakenOut(open, o, k, open2)
    else r == MustWait && now == was[o := was[o].(unlink := true)] && open2 == open
  }

  /** A new session, the last in the list, with an identifier that no other has. */
  ghost predicate Appended(open: seq<Obj>, was: map<Obj, Session>, o: Obj, id: nat, open2: seq<Obj>, now: map<Obj, Session>) {
    && (forall i :: 0 <= i < |open| ==> open[i] in was && was[open[i]].id != id)
    && now == was[o := Session(id, 1, None, false)] && open2 == open + [o]
  }

  /** Signals on the condition variables of a session; unlinking broadcasts. */
  datatype Signalled = LockCv(o: Obj) | LockCvAll(o: Obj) | RefsCv(o: Obj)

  /** What a call that wants a session, or wants to get rid of one, comes to. */
  datatype Outcome = Got(o: Obj) | NoSession | MustWait | Gone

  /** The session list and the signals given; world is the state machine's view of it. */
  class Manager {
    var sessions: map<Obj, Session>
    var open: seq<Obj>
    var signals: seq<Signalled>
    ghost var world: World

    /** The list and the fields of the sessions are those of the state machine. */
    ghost predicate Mirrored()
      reads this
    {
      open == world.open && sessions == Plain(world) && Listed(world)
    }

    ghost predicate Valid()
      reads this
    {
      Mirrored() && Inv(world)
    }

    constructor ()
      ensures Valid() && world == START && signals == []
    {
      sessions, open, signals, world := map[], [], [], START;
    }

    /** tee_ta_find_session_nolock: the position in the list. */
    method FindSession(id: nat) returns (k: nat)
      requires Mirrored()
      ensures k == Find(world, id, 0)
      ensures k <= |open| && forall i :: 0 <= i < k ==> sessions[open[i]].id != id
      ensures k < |open| ==> FirstOpen(open, sessions, id, k)
    {
      k := 0;
      while k < |open|
        invariant k <= |open| && Find(world, id, 0) == Find(world, id, k)
        invariant forall i :: 0 <= i < k ==> sessions[open[i]].id != id
      {
        if sessions[open[k]].id == id {
          return;
        }
        k := k + 1;
      }
    }

    /** A fresh identifier, or 0 exactly when all of them are in use. */
    method NewSessionId() returns (id: nat)
      requires Mirrored()
      ensures id < IDS
      ensures id != 0 ==> !IdUsed(world, id)
      ensures id != 0 ==> FirstUnused(world, if |open| == 0 then 1 else NextId(sessions[open[|open| - 1]].id), id)
      ensures id == 0 ==> forall n :: 0 < n < IDS ==> IdUsed(world, n)
    {
      id := 1;
      if |open| > 0 {
        id := NextId(sessions[open[|open| - 1]].id);
      }
      id := SearchId(id);
    }

    method SearchId(saved: nat) returns (id: nat)
      requires Mirrored() && 0 < saved < IDS
      ensures id < IDS
      ensures id != 0 ==> !IdUsed(world, id) && FirstUnused(world, saved, id)
      ensures id == 0 ==> forall n :: 0 < n < IDS ==> IdUsed(world, n)
    {
      id := saved;
      ghost var n := 0;
      while true
        invariant 0 < id < IDS && 0 <= n < IDS - 1 && id == Around(saved, n)
        invariant forall m :: 0 <= m < n ==> IdUsed(world, Around(saved, m))
        decreases IDS - n
      {
        var k := FindSession(id);
        if k == |open| {
          return;
        }
        AroundNext(saved, n);
        id := NextId(id);
        n := n + 1;
        if id == saved {
          break;
        }
      }
      forall m | 0 < m < IDS ensures IdUsed(world, m) {
        AroundAll(saved, m);
      }
      id := 0;
    }

    method InitSession(t: Tid, o: Obj) returns (r: Option<nat>)
      requires Valid() && o !in sessions && o !in world.freed
      modifies this
      ensures Valid()
      ensures match r
        case Some(id) =>
          && Enabled(old(world), Open(t, o, id)) && world == Step(old(world), Open(t, o, id))
          && 0 < id < IDS && Appended(old(open), old(sessions), o, id, open, sessions) && signals == old(signals)
        case None => unchanged(this) && forall n :: 0 < n < IDS ==> IdUsed(world, n)
    {
      var id := NewSessionId();
      if id == 0 {
        return None;
      }
      StepKeeps(world, Open(t, o, id));
      Append(t, o, id);
      return Some(id);
    }

    method Append(t: Tid, o: Obj, id: nat)
      requires Mirrored() && o !in sessions && !IdUsed(world, id)
      modifies this
      ensures Mirrored() && world == World(old(world).slots[o := Fresh(t, id)], old(world).open + [o], old(world).freed)
      ensures Appended(old(open), old(sessions), o, id, open, sessions) && signals == old(signals)
    {
      assert forall i :: 0 <= i < |open| ==> IdAt(world, i) == sessions[open[i]].id;
      world := World(world.slots[o := Fresh(t, id)], world.open + [o], world.freed);
      sessions := sessions[o := Session(id, 1, None, false)];
      open := open + [o];
    }

    method DecRefCount(o: Obj)
      requires o in sessions && sessions[o].refCount > 0
      modifies `sessions, `signals
      ensures sessions == old(sessions)[o := old(sessions)[o].(refCount := old(sessions)[o].refCount - 1)]
      ensures signals == old(signals) + if sessions[o].refCount == 1 then [RefsCv(o)] else []
    {
      assert sessions[o].refCount > 0;
      sessions := sessions[o := sessions[o].(refCount := sessions[o].refCount - 1)];
      if sessions[o].refCount == 1 {
        signals := signals + [RefsCv(o)];
      }
    }

    method PutSession(t: Tid, o: Obj, ghost kl: Option<Tid>, ghost kr: Option<Tid>)
      requires Valid() && Enabled(world, PutBack(t, o, kl, kr))
      modifies this
      ensures Valid() && world == Step(old(world), PutBack(t, o, kl, kr))
      ensures sessions == old(sessions)[o := PutBackBy(old(sessions)[o], t)] && open == old(open)
      ensures PutSignals(old(sessions)[o], t, o, old(signals), signals)
    {
      StepKeeps(world, PutBack(t, o, kl, kr));
      PutKeeps(world.slots[o], t, kl, kr);
      PutPlain(t, o, kl, kr);
    }

    method PutPlain(t: Tid, o: Obj, ghost kl: Option<Tid>, ghost kr: Option<Tid>)
      requires Mirrored() && o in sessions && sessions[o].refCount > 0
      modifies this
      ensures Mirrored() && o in old(world).slots && world == Update(old(world), o, Put(old(world).slots[o], t, kl, kr))
      ensures sessions == old(sessions)[o := PutBackBy(old(sessions)[o], t)] && open == old(open)
      ensures PutSignals(old(sessions)[o], t, o, old(signals), signals)
    {
      world := Update(world, o, Put(world.slots[o], t, kl, kr));
      if sessions[o].lockThread == Some(t) {
        sessions := sessions[o := sessions[o].(lockThread := None)];
        signals := signals + [LockCv(o)];
      }
      DecRefCount(o);
    }

    /** tee_ta_get_session up to the point where it returns or waits. */
    method GetSession(t: Tid, id: nat, exclusive: bool) returns (r: Outcome)
      requires Valid() && Enabled(world, Request(t, id, exclusive))
      modifies this
      ensures Valid() && world == Step(old(world), Request(t, id, exclusive))
      ensures open == old(open) && signals == old(signals) && Requested(old(open), old(sessions), t, id, exclusive, r, sessions)
      ensures r.Got? ==> Uses(world, t, r.o, if exclusive then Exclusive else Shared) && world.slots[r.o].s.id == id
      ensures r.NoSession? ==> world == old(world)
      ensures r.MustWait? ==> exclusive && exists o :: Uses(world, t, o, AwaitsLock)
      ensures !r.Gone?
    {
      StepKeeps(world, Request(t, id, exclusive));
      if IdUsed(world, id) {
        GetKeeps(world.slots[open[Find(world, id, 0)]], t, exclusive);
      }
      r := GetById(t, id, exclusive);
    }

    method GetById(t: Tid, id: nat, exclusive: bool) returns (r: Outcome)
      requires Mirrored() && (IdUsed(world, id) ==> sessions[open[Find(world, id, 0)]].lockThread != Some(t))
      modifies this
      ensures Mirrored() && Listed(old(world))
      ensures world == if IdUsed(old(world), id) then
          (var o := old(world).open[Find(old(world), id, 0)]; Update(old(world), o, Get(old(world).slots[o], t, exclusive)))
        else old(world)
      ensures open == old(open) && signals == old(signals) && Requested(old(open), old(sessions), t, id, exclusive, r, sessions)
      ensures r.Got? ==> Uses(world, t, r.o, if exclusive then Exclusive else Shared) && world.slots[r.o].s.id == id
      ensures r.NoSession? ==> world == old(world)
      ensures r.MustWait? ==> exclusive && exists o :: Uses(world, t, o, AwaitsLock)
      ensures !r.Gone?
    {
      var k := FindSession(id);
      if k == |open| {
        return NoSession;
      }
      r := GetPlain(t, open[k], exclusive);
    }

    method GetPlain(t: Tid, o: Obj, exclusive: bool) returns (r: Outcome)
      requires Mirrored() && o in sessions && sessions[o].lockThread != Some(t)
      modifies this
      ensures Mirrored() && o in old(world).slots && world == Update(old(world), o, Get(old(world).slots[o], t, exclusive))
      ensures open == old(open) && signals == old(signals)
      ensures r.NoSession? ==> old(sessions)[o].unlink && sessions == old(sessions)
      ensures !r.NoSession? ==> Answered(old(sessions), o, t, exclusive, r, sessions)
      ensures r.Got? ==> r.o == o && Uses(world, t, o, if exclusive then Exclusive else Shared)
      ensures r.NoSession? ==> world == old(world)
      ensures r.MustWait? ==> exclusive && Uses(world, t, o, AwaitsLock)
      ensures !r.Gone?
    {
      ghost var w := world;
      world := Update(world, o, Get(world.slots[o], t, exclusive));
      if sessions[o].unlink {
        assert world.slots == w.slots;
        return NoSession;
      }
      sessions := sessions[o := sessions[o].(refCount := sessions[o].refCount + 1)];
      if !exclusive {
        return Got(o);
      }
      assert sessions[o].lockThread != Some(t);
      if sessions[o].lockThread.Some? {
        return MustWait;
      }
      sessions := sessions[o := sessions[o].(lockThread := Some(t))];
      return Got(o);
    }

    /** A wake-up on lock_cv inside tee_ta_get_session. */
    method RetryLock(t: Tid, o: Obj, ghost kr: Option<Tid>) returns (r: Outcome)
      requires Valid() && Enabled(world, WakeLock(t, o, kr))
      modifies this
      ensures Valid() && world == Step(old(world), WakeLock(t, o, kr))
      ensures r == if old(sessions)[o].unlink then NoSession
                   else if old(sessions)[o].lockThread.Some? then MustWait else Got(o)
      ensures open == old(open) && Retried(old(sessions), o, t, r, sessions)
      ensures signals == old(signals) + if r.NoSession? && sessions[o].refCount == 1 then [RefsCv(o)] else []
      ensures r.Got? ==> Uses(world, t, o, Exclusive)
    {
      StepKeeps(world, WakeLock(t, o, kr));
      TakeLockKeeps(world.slots[o], t, kr);
      r := LockPlain(t, o, kr);
    }

    method LockPlain(t: Tid, o: Obj, ghost kr: Option<Tid>) returns (r: Outcome)
      requires Mirrored() && o in sessions && sessions[o].refCount > 0
      modifies this
      ensures Mirrored() && o in old(world).slots && world == Update(old(world), o, TakeLock(old(world).slots[o], t, kr))
      ensures r == if old(sessions)[o].unlink then NoSession
                   else if old(sessions)[o].lockThread.Some? then MustWait else Got(o)
      ensures open == old(open) && Retried(old(sessions), o, t, r, sessions)
      ensures signals == old(signals) + if r.NoSession? && sessions[o].refCount == 1 then [RefsCv(o)] else []
    {
      world := Update(world, o, TakeLock(world.slots[o], t, kr));
      if sessions[o].lockThread.Some? && !sessions[o].unlink {
        return MustWait;
      }
      if sessions[o].unlink {
        DecRefCount(o);
        return NoSession;
      }
      sessions := sessions[o := sessions[o].(lockThread := Some(t))];
      return Got(o);
    }

    method UnlinkSession(t: Tid, o: Obj) returns (r: Outcome)
      requires Valid() && Enabled(world, Close(t, o))
      modifies this
      ensures Valid() && world == Step(old(world), Close(t, o))
      ensures ClosedIf(old(open), old(sessions), o, r, open, sessions)
      ensures r == if o in world.slots then MustWait else Gone
      ensures signals == old(signals) + [LockCvAll(o)]
    {
      StepKeeps(world, Close(t, o));
      UnlinkKeeps(world.slots[o], t);
      assert sessions[o].refCount >= 1 && sessions[o].lockThread == Some(t) && !sessions[o].unlink;
      r := MarkAndRemove(t, o);
    }

    method MarkAndRemove(t: Tid, o: Obj) returns (r: Outcome)
      requires Mirrored() && o in sessions && Distinct(open) && o in open
      modifies this
      ensures Mirrored() && o in old(world).slots && world == TryRemove(Update(old(world), o, Unlink(old(world).slots[o], t)), o)
      ensures ClosedIf(old(open), old(sessions), o, r, open, sessions)
      ensures r == if o in world.slots then MustWait else Gone
      ensures signals == old(signals) + [LockCvAll(o)]
    {
      MarkUnlinked(t, o);
      WithoutTakesOut(open, o);
      r := RemoveLast(o);
    }

    method MarkUnlinked(t: Tid, o: Obj)
      requires Mirrored() && o in sessions
      modifies this
      ensures Mirrored() && o in old(world).slots && world == Update(old(world), o, Unlink(old(world).slots[o], t))
      ensures open == old(open) && sessions == old(sessions)[o := old(sessions)[o].(unlink := true)]
      ensures signals == old(signals) + [LockCvAll(o)]
    {
      world := Update(world, o, Unlink(world.slots[o], t));
      sessions := sessions[o := sessions[o].(unlink := true)];
      signals := signals + [LockCvAll(o)];
    }

    /** The signal that woke the closing thread is used up. */
    ghost method LookAgain(t: Tid, o: Obj)
      requires Mirrored() && o in sessions
      modifies `world
      ensures Mirrored() && o in old(world).slots && world == Update(old(world), o, Resume(old(world).slots[o], t))
    {
      world := Update(world, o, Resume(world.slots[o], t));
    }

    /** The end of tee_ta_unlink_session: wait while others use the session. */
    method RemoveLast(o: Obj) returns (r: Outcome)
      requires Mirrored() && o in sessions
      modifies `sessions, `open, `world
      ensures Mirrored() && o in old(world).slots && world == TryRemove(old(world), o)
      ensures if old(sessions)[o].refCount == 1
              then r == Gone && sessions == old(sessions) - {o} && open == Without(old(open), o)
              else r == MustWait && sessions == old(sessions) && open == old(open)
      ensures r == if o in world.slots then MustWait else Gone
    {
      if sessions[o].refCount != 1 {
        return MustWait;
      }
      ghost var rest := Without(open, o);
      forall i | 0 <= i < |rest| ensures rest[i] in open && rest[i] != o {
        assert rest[i] in rest;
      }
      world := TryRemove(world, o);
      open := Without(open, o);
      sessions := sessions - {o};
      return Gone;
    }

    /** A wake-up on refc_cv inside tee_ta_unlink_session. */
    method RetryRemove(t: Tid, o: Obj) returns (r: Outcome)
      requires Valid() && Enabled(world, WakeRefs(t, o))
      modifies this
      ensures Valid() && world == Step(old(world), WakeRefs(t, o))
      ensures ClosedIf(old(open), old(sessions), o, r, open, sessions) && signals == old(signals)
      ensures r == if o in world.slots then MustWait else Gone
    {
      StepKeeps(world, WakeRefs(t, o));
      assert SlotInv(world.slots[o]) && sessions[o].unlink;
      r := LookAndRemove(t, o);
    }

    method LookAndRemove(t: Tid, o: Obj) returns (r: Outcome)
      requires Mirrored() && o in sessions && sessions[o].unlink && Distinct(open) && o in open
      modifies `sessions, `open, `world
      ensures Mirrored() && o in old(world).slots && world == TryRemove(Update(old(world), o, Resume(old(world).slots[o], t)), o)
      ensures ClosedIf(old(open), old(sessions), o, r, open, sessions)
      ensures r == if o in world.slots then MustWait else Gone
    {
      LookAgain(t, o);
      WithoutTakesOut(open, o);
      r := RemoveLast(o);
    }
  }

  /** One reference less, and not locked by t any more. */
  function PutBackBy(s: Session, t: Tid): Session {
    s.(refCount := s.refCount - 1, lockThread := if s.lockThread == Some(t) then None else s.lockThread)
  }

  /** One reference more, and locked by t if it asked for that and the lock was free. */
  function TakenBy(s: Session, t: Tid, exclusive: bool): Session {
    s.(refCount := s.refCount + 1, lockThread := if exclusive && s.lockThread.None? then Some(t) else s.lockThread)
  }

  /** Putting a locked session back signals its lock; leaving one reference signals the closer. */
  ghost predicate PutSignals(s: Session, t: Tid, o: Obj, before: seq<Signalled>, after: seq<Signalled>) {
    after == before + (if s.lockThread == Some(t) then [LockCv(o)] else []) + (if s.refCount == 2 then [RefsCv(o)] else [])
  }

  /** The sessions without the threads that use them. */
  function Plain(w: World): map<Obj, Session> {
    map o | o in w.slots :: w.slots[o].s
  }

  lemma AroundNext(saved: nat, n: nat)
    requires 0 < saved < IDS && n < IDS - 1
    ensures NextId(Around(saved, n)) == if n == IDS - 2 then saved else Around(saved, n + 1)
    ensures NextId(Around(saved, n)) == saved ==> n == IDS - 2
  {}

  lemma AroundAll(saved: nat, m: nat)
    requires 0 < saved < IDS && 0 < m < IDS
    ensures exists n :: 0 <= n < IDS - 1 && Around(saved, n) == m
  {
    assert Around(saved, if m >= saved then m - saved else m - saved + IDS - 1) == m;
  }

  /** id is unused, and all identifiers from the start up to it, going around, are used. */
  ghost predicate FirstUnused(w: World, start: nat, id: nat) {
    Listed(w) && !IdUsed(w, id) && exists n: nat :: id == Around(start, n) && forall m: nat :: m < n ==> IdUsed(w, Around(start, m))
  }

  /** The next identifier in 32 bits, skipping 0. */
  function NextId(id: nat): nat {
    if (id + 1) % IDS == 0 then 1 else (id + 1) % IDS
  }

  /** The identifier m places after the start, going around from 1. */
  function Around(start: nat, m: nat): nat {
    if start + m < IDS then start + m else start + m - (IDS - 1)
  }
}
