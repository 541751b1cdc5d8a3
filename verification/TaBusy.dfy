/**
 Entering and leaving TA contexts: the busy flag of a context and the global
 single-instance lock (core/kernel/tee_ta_manager.c).  Every step runs under the
 manager's mutex and ends by releasing it or by waiting on a condition variable;
 a woken thread checks its condition again, so wake-ups may also be spurious.
 */
module TaBusy {
  import opened Common

  type Tid = nat
  type Ctx = nat

  datatype Flags = Flags(concurrent: bool, singleInstance: bool)

  /** What a thread waits for on its way into a context. */
  datatype Wait = OnLock(ctx: Ctx) | OnBusy(ctx: Ctx)

  /** The condition variables: one for the lock, one for each context. */
  datatype Queue = LockCv | BusyCv(c: Ctx)

  /**
   The manager's variables, and beside them which thread is inside or waits for
   which context, and which waiting threads have been signalled.
   */
  datatype Sys = Sys(owner: Option<Tid>, count: int, busy: set<Ctx>, inside: set<(Tid, Ctx)>,
                     waits: map<Tid, Wait>, woken: set<Tid>)

  const START := Sys(None, 0, {}, {}, map[], {})

  // ----- condition variables

  predicate Waiting(s: Sys, q: Queue, t: Tid) {
    t in s.waits && match q
      case LockCv => s.waits[t].OnLock?
      case BusyCv(c) => s.waits[t] == OnBusy(c)
  }

  /** A signal wakes one sleeping waiter, if there is one. */
  ghost predicate Choice(s: Sys, q: Queue, k: Option<Tid>) {
    match k
    case Some(t) => Waiting(s, q, t) && t !in s.woken
    case None => forall t :: Waiting(s, q, t) ==> t in s.woken
  }

  function Signal(s: Sys, k: Option<Tid>): Sys {
    s.(woken := s.woken + if k.Some? then {k.value} else {})
  }

  function Sleep(s: Sys, t: Tid, w: Wait): Sys {
    s.(waits := s.waits[t := w])
  }

  /** A woken thread runs again. */
  function Resume(s: Sys, t: Tid): Sys {
    s.(waits := s.waits - {t}, woken := s.woken - {t})
  }

  // ----- one step of one thread

  function Lock(s: Sys, t: Tid): Sys
    requires s.owner == None || s.owner == Some(t)
  {
    s.(owner := Some(t), count := s.count + 1)
  }

  /** With the last level the lock is free, and one waiter is signalled. */
  function Unlock(s: Sys, k: Option<Tid>): Sys {
    if s.count == 1 then Signal(s.(count := 0, owner := None), k) else s.(count := s.count - 1)
  }

  function Enter(s: Sys, t: Tid, c: Ctx): Sys {
    s.(busy := s.busy + {c}, inside := s.inside + {(t, c)})
  }

  /** The part of tee_ta_try_set_busy after the single-instance lock. */
  function TakeContext(f: Ctx -> Flags, s: Sys, t: Tid, c: Ctx, k: Option<Tid>): Sys {
    if c !in s.busy then Enter(s, t, c)
    else if s.owner == Some(t) then if f(c).singleInstance then Unlock(s, k) else s
    else Sleep(s, t, OnBusy(c))
  }

  function TryEnter(f: Ctx -> Flags, s: Sys, t: Tid, c: Ctx, k: Option<Tid>): Sys {
    if f(c).concurrent then s
    else if !f(c).singleInstance then TakeContext(f, s, t, c, k)
    else if s.owner == None || s.owner == Some(t) then TakeContext(f, Lock(s, t), t, c, k)
    else Sleep(s, t, OnLock(c))
  }

  function Leave(f: Ctx -> Flags, s: Sys, t: Tid, c: Ctx, kb: Option<Tid>, kl: Option<Tid>): Sys {
    if f(c).concurrent then s
    else
      var s1 := Signal(s.(busy := s.busy - {c}, inside := s.inside - {(t, c)}), kb);
      if f(c).singleInstance then Unlock(s1, kl) else s1
  }

  /** Events name the thread that each signal would wake. */
  datatype Event =
    | Call(t: Tid, c: Ctx, kl: Option<Tid>)
    | Wake(t: Tid, kl: Option<Tid>)
    | Return(t: Tid, c: Ctx, kb: Option<Tid>, kl: Option<Tid>)

  /** A waiting thread can only wake; a thread leaves only what it is inside. */
  ghost predicate Enabled(f: Ctx -> Flags, s: Sys, e: Event) {
    match e
    case Call(t, _, kl) => t !in s.waits && Choice(s, LockCv, kl)
    case Wake(t, kl) => t in s.waits && Choice(Resume(s, t), LockCv, kl)
    case Return(t, c, kb, kl) =>
      && t !in s.waits && (f(c).concurrent || (t, c) in s.inside)
      && Choice(s, BusyCv(c), kb) && Choice(s, LockCv, kl)
  }

  ghost function Step(f: Ctx -> Flags, s: Sys, e: Event): Sys
    requires Enabled(f, s, e)
  {
    match e
    case Call(t, c, kl) => TryEnter(f, s, t, c, kl)
    case Wake(t, kl) =>
      (match s.waits[t]
       case OnLock(c) => TryEnter(f, Resume(s, t), t, c, kl)
       case OnBusy(c) => TakeContext(f, Resume(s, t), t, c, kl))
    case Return(t, c, kb, kl) => Leave(f, s, t, c, kb, kl)
  }

  // ----- the invariant

  /** The single-instance contexts thread t is inside. */
  function Held(f: Ctx -> Flags, s: Sys, t: Tid): set<Ctx> {
    set p | p in s.inside && p.0 == t && f(p.1).singleInstance :: p.1
  }

  ghost predicate BusyInv(f: Ctx -> Flags, s: Sys) {
    && (forall p :: p in s.inside ==> p.1 in s.busy && !f(p.1).concurrent)
    && (forall c :: c in s.busy ==> exists t :: (t, c) in s.inside)
    && (forall p, q :: p in s.inside && q in s.inside && p.1 == q.1 ==> p == q)
  }

  ghost predicate LockInv(f: Ctx -> Flags, s: Sys) {
    && (s.owner == None ==> s.count == 0)
    && (forall o :: s.owner == Some(o) ==> s.count == |Held(f, s, o)| > 0 && o !in s.waits)
    && (forall p :: p in s.inside && f(p.1).singleInstance ==> s.owner == Some(p.0))
  }

  ghost predicate WaitInv(f: Ctx -> Flags, s: Sys) {
    && s.woken <= s.waits.Keys
    && forall t :: t in s.waits ==>
      && !f(s.waits[t].ctx).concurrent
      && (s.waits[t].OnLock? <==> f(s.waits[t].ctx).singleInstance)
  }

  /** If anybody waits there, somebody who waits there has been signalled. */
  ghost predicate Served(s: Sys, q: Queue) {
    (exists t :: Waiting(s, q, t)) ==> exists t :: Waiting(s, q, t) && t in s.woken
  }

  /** What is free has a signalled waiter, or none. */
  ghost predicate SignalInv(s: Sys) {
    && (s.owner == None ==> Served(s, LockCv))
    && forall c :: c !in s.busy ==> Served(s, BusyCv(c))
  }

  ghost predicate Inv(f: Ctx -> Flags, s: Sys) {
    BusyInv(f, s) && LockInv(f, s) && WaitInv(f, s) && SignalInv(s)
  }

  // ----- every step keeps it: contexts and lock

  lemma HeldGrows(f: Ctx -> Flags, s: Sys, t: Tid, c: Ctx)
    requires f(c).singleInstance && (t, c) !in s.inside
    ensures |Held(f, Enter(s, t, c), t)| == |Held(f, s, t)| + 1
  {
    assert (t, c) in Enter(s, t, c).inside;
    assert Held(f, Enter(s, t, c), t) == Held(f, s, t) + {c};
  }

  lemma HeldSame(f: Ctx -> Flags, s: Sys, s2: Sys, o: Tid, t: Tid, c: Ctx)
    requires s2.inside == s.inside + {(t, c)} || s2.inside == s.inside - {(t, c)}
    requires o != t || !f(c).singleInstance
    ensures Held(f, s2, o) == Held(f, s, o)
  {
    forall d ensures d in Held(f, s2, o) <==> d in Held(f, s, o) {
      if (o, d) != (t, c) {
        assert (o, d) in s2.inside <==> (o, d) in s.inside;
      }
    }
  }

  lemma HeldShrinks(f: Ctx -> Flags, s: Sys, s2: Sys, t: Tid, c: Ctx)
    requires f(c).singleInstance && (t, c) in s.inside && s2.inside == s.inside - {(t, c)}
    ensures |Held(f, s2, t)| == |Held(f, s, t)| - 1
  {
    assert c in Held(f, s, t);
    assert Held(f, s2, t) == Held(f, s, t) - {c};
  }

  lemma EnterKeepsBusy(f: Ctx -> Flags, s: Sys, t: Tid, c: Ctx)
    requires BusyInv(f, s) && c !in s.busy && !f(c).concurrent
    ensures BusyInv(f, Enter(s, t, c))
  {
    var s2 := Enter(s, t, c);
    forall d | d in s2.busy ensures exists u :: (u, d) in s2.inside {
      if d == c {
        assert (t, d) in s2.inside;
      } else {
        var u :| (u, d) in s.inside;
        assert (u, d) in s2.inside;
      }
    }
  }

  /** The three parts of the invariant that do not speak of signals. */
  ghost predicate Core(f: Ctx -> Flags, s: Sys) {
    BusyInv(f, s) && LockInv(f, s) && WaitInv(f, s)
  }

  /** Core does not see who has been signalled. */
  lemma SignalKeepsCore(f: Ctx -> Flags, s: Sys, q: Queue, k: Option<Tid>)
    requires Core(f, s) && (k.Some? ==> k.value in s.waits)
    ensures Core(f, Signal(s, k))
  {
    var s2 := Signal(s, k);
    forall o | s2.owner == Some(o) ensures Held(f, s2, o) == Held(f, s, o) {}
  }

  /** Entering a context that is not single-instance. */
  lemma TakePlain(f: Ctx -> Flags, s: Sys, t: Tid, c: Ctx, k: Option<Tid>)
    requires Core(f, s) && t !in s.waits && !f(c).concurrent && !f(c).singleInstance
    ensures Core(f, TakeContext(f, s, t, c, k))
  {
    var s2 := TakeContext(f, s, t, c, k);
    if c !in s.busy {
      EnterKeepsBusy(f, s, t, c);
      forall o | s.owner == Some(o) ensures Held(f, s2, o) == Held(f, s, o) {
        HeldSame(f, s, s2, o, t, c);
      }
    } else {
      forall o | s.owner == Some(o) ensures Held(f, s2, o) == Held(f, s, o) {}
    }
  }

  /** Entering a single-instance context with the lock free or already ours. */
  lemma TakeSingle(f: Ctx -> Flags, s: Sys, t: Tid, c: Ctx, k: Option<Tid>)
    requires Core(f, s) && t !in s.waits && !f(c).concurrent && f(c).singleInstance
    requires (s.owner == None || s.owner == Some(t)) && (k.Some? ==> k.value in s.waits)
    ensures Core(f, TakeContext(f, Lock(s, t), t, c, k))
  {
    if c !in s.busy {
      EnterSingle(f, s, t, c, k);
    } else {
      WaitSingle(f, s, t, c, k);
    }
  }

  lemma EnterSingle(f: Ctx -> Flags, s: Sys, t: Tid, c: Ctx, k: Option<Tid>)
    requires Core(f, s) && t !in s.waits && !f(c).concurrent && f(c).singleInstance && c !in s.busy
    requires (s.owner == None || s.owner == Some(t)) && (k.Some? ==> k.value in s.waits)
    ensures Core(f, TakeContext(f, Lock(s, t), t, c, k))
  {
    EnterKeepsBusy(f, Lock(s, t), t, c);
    LockGrows(f, s, t, c);
  }

  lemma LockGrows(f: Ctx -> Flags, s: Sys, t: Tid, c: Ctx)
    requires BusyInv(f, s) && LockInv(f, s) && t !in s.waits && f(c).singleInstance && c !in s.busy && !f(c).concurrent
    requires s.owner == None || s.owner == Some(t)
    ensures LockInv(f, Enter(Lock(s, t), t, c))
  {
    var s1 := Lock(s, t);
    if s.owner == None {
      assert Held(f, s, t) == {};
    }
    HeldGrows(f, s1, t, c);
    assert Held(f, s1, t) == Held(f, s, t);
  }

  lemma WaitSingle(f: Ctx -> Flags, s: Sys, t: Tid, c: Ctx, k: Option<Tid>)
    requires Core(f, s) && t !in s.waits && !f(c).concurrent && f(c).singleInstance && c in s.busy
    requires (s.owner == None || s.owner == Some(t)) && (k.Some? ==> k.value in s.waits)
    ensures Core(f, TakeContext(f, Lock(s, t), t, c, k))
  {
    var s2 := TakeContext(f, Lock(s, t), t, c, k);
    assert Held(f, s2, t) == Held(f, s, t);
  }

  lemma TryEnterCore(f: Ctx -> Flags, s: Sys, t: Tid, c: Ctx, k: Option<Tid>)
    requires Core(f, s) && t !in s.waits && (k.Some? ==> k.value in s.waits)
    ensures Core(f, TryEnter(f, s, t, c, k))
  {
    if f(c).concurrent {
    } else if !f(c).singleInstance {
      TakePlain(f, s, t, c, k);
    } else if s.owner == None || s.owner == Some(t) {
      TakeSingle(f, s, t, c, k);
    } else {
      var s2 := TryEnter(f, s, t, c, k);
      forall o | s2.owner == Some(o) ensures s2.count == |Held(f, s2, o)| > 0 && o !in s2.waits {
        assert Held(f, s2, o) == Held(f, s, o);
      }
    }
  }

  lemma LeaveCore(f: Ctx -> Flags, s: Sys, t: Tid, c: Ctx)
    requires Core(f, s) && (t, c) in s.inside
    ensures Core(f, Leave(f, s, t, c, None, None))
    ensures f(c).singleInstance ==> s.owner == Some(t) && s.count > 0
  {
    var s1 := s.(busy := s.busy - {c}, inside := s.inside - {(t, c)});
    assert BusyInv(f, s1) by {
      forall d | d in s1.busy ensures exists u :: (u, d) in s1.inside {
        var u :| (u, d) in s.inside;
        assert (u, d) in s1.inside;
      }
    }
    if f(c).singleInstance {
      HeldShrinks(f, s, s1, t, c);
      var s2 := Unlock(s1, None);
      assert Held(f, s2, t) == Held(f, s1, t);
      forall p | p in s2.inside && f(p.1).singleInstance ensures s2.owner == Some(p.0) {
        assert p.1 in Held(f, s2, t);
      }
    } else {
      forall o | s.owner == Some(o) ensures Held(f, s1, o) == Held(f, s, o) {
        HeldSame(f, s, s1, o, t, c);
      }
    }
  }

  lemma ResumeCore(f: Ctx -> Flags, s: Sys, t: Tid)
    requires Core(f, s)
    ensures Core(f, Resume(s, t))
  {
    var s2 := Resume(s, t);
    forall o | s2.owner == Some(o) ensures Held(f, s2, o) == Held(f, s, o) {}
  }

  // ----- every step keeps it: signals

  lemma SignalServes(s: Sys, q: Queue, k: Option<Tid>)
    requires Choice(s, q, k)
    ensures Served(Signal(s, k), q)
  {
    var s2 := Signal(s, k);
    if t :| Waiting(s2, q, t) {
      assert Waiting(s, q, t);
      var u := if k.Some? then k.value else t;
      assert Waiting(s2, q, u) && u in s2.woken;
    }
  }

  /** Same waiters and at least the same signals. */
  lemma ServedStays(s: Sys, s2: Sys, q: Queue)
    requires Served(s, q) && s.woken <= s2.woken && forall t :: Waiting(s2, q, t) <==> Waiting(s, q, t)
    ensures Served(s2, q)
  {
    if t :| Waiting(s2, q, t) {
      assert Waiting(s, q, t);
      var u :| Waiting(s, q, u) && u in s.woken;
      assert Waiting(s2, q, u);
    }
  }

  /** A change of flags, lock and signals that leaves the waiters alone. */
  lemma SignalsStay(s: Sys, s2: Sys)
    requires SignalInv(s) && s2.waits == s.waits && s.woken <= s2.woken
    requires s2.owner == None ==> s.owner == None || Served(s2, LockCv)
    requires forall c :: c !in s2.busy ==> c !in s.busy || Served(s2, BusyCv(c))
    ensures SignalInv(s2)
  {
    if s.owner == None && s2.owner == None { ServedStays(s, s2, LockCv); }
    forall c | c !in s2.busy ensures Served(s2, BusyCv(c)) {
      if c !in s.busy { ServedStays(s, s2, BusyCv(c)); }
    }
  }

  /** Going to sleep on something that is taken. */
  lemma SleepSignals(s: Sys, t: Tid, w: Wait)
    requires SignalInv(s) && t !in s.waits && (if w.OnLock? then s.owner != None else w.ctx in s.busy)
    ensures SignalInv(Sleep(s, t, w))
  {
    var s2 := Sleep(s, t, w);
    if s2.owner == None { ServedStays(s, s2, LockCv); }
    forall c | c !in s2.busy ensures Served(s2, BusyCv(c)) {
      ServedStays(s, s2, BusyCv(c));
    }
  }

  /** The last unlock signals the lock's queue. */
  lemma UnlockSignals(s: Sys, s1: Sys, k: Option<Tid>)
    requires SignalInv(s) && Choice(s1, LockCv, k) && s1.waits == s.waits && s.woken <= s1.woken
    requires s1.owner.Some? && forall c :: c !in s1.busy ==> c !in s.busy || Served(s1, BusyCv(c))
    ensures SignalInv(Unlock(s1, k))
  {
    var s2 := Unlock(s1, k);
    if s1.count == 1 {
      SignalServes(s1.(count := 0, owner := None), LockCv, k);
    }
    forall c | c !in s2.busy && c in s.busy ensures Served(s2, BusyCv(c)) {
      ServedStays(s1, s2, BusyCv(c));
    }
    SignalsStay(s, s2);
  }

  lemma TakeSignals(f: Ctx -> Flags, s: Sys, s1: Sys, t: Tid, c: Ctx, k: Option<Tid>)
    requires SignalInv(s) && t !in s.waits && Choice(s, LockCv, k)
    requires s1 == s || (s1.owner == Some(t) && s1 == s.(owner := s1.owner, count := s1.count))
    ensures SignalInv(TakeContext(f, s1, t, c, k))
  {
    if c !in s1.busy {
      SignalsStay(s, Enter(s1, t, c));
    } else if s1.owner == Some(t) {
      if f(c).singleInstance { UnlockSignals(s, s1, k); } else { SignalsStay(s, s1); }
    } else {
      SleepSignals(s, t, OnBusy(c));
    }
  }

  lemma TryEnterSignals(f: Ctx -> Flags, s: Sys, t: Tid, c: Ctx, k: Option<Tid>)
    requires SignalInv(s) && t !in s.waits && Choice(s, LockCv, k)
    ensures SignalInv(TryEnter(f, s, t, c, k))
  {
    if f(c).concurrent {
    } else if !f(c).singleInstance {
      TakeSignals(f, s, s, t, c, k);
    } else if s.owner == None || s.owner == Some(t) {
      TakeSignals(f, s, Lock(s, t), t, c, k);
    } else {
      SleepSignals(s, t, OnLock(c));
    }
  }

  lemma LeaveSignals(f: Ctx -> Flags, s: Sys, t: Tid, c: Ctx, kb: Option<Tid>, kl: Option<Tid>)
    requires SignalInv(s) && Choice(s, BusyCv(c), kb) && Choice(s, LockCv, kl)
    requires f(c).singleInstance ==> s.owner.Some?
    ensures SignalInv(Leave(f, s, t, c, kb, kl))
  {
    if !f(c).concurrent {
      var s0 := s.(busy := s.busy - {c}, inside := s.inside - {(t, c)});
      var s1 := Signal(s0, kb);
      SignalServes(s0, BusyCv(c), kb);
      if f(c).singleInstance {
        assert Choice(s1, LockCv, kl);
        UnlockSignals(s, s1, kl);
      } else {
        SignalsStay(s, s1);
      }
    }
  }

  /** A thread that wakes takes what it was woken for, or finds it taken: either way nobody is forgotten. */
  lemma WakeSignals(f: Ctx -> Flags, s: Sys, t: Tid, k: Option<Tid>)
    requires SignalInv(s) && WaitInv(f, s) && Enabled(f, s, Wake(t, k)) && s.owner != Some(t)
    ensures SignalInv(Step(f, s, Wake(t, k)))
  {
    var r := Resume(s, t);
    match s.waits[t]
    case OnLock(c) =>
      if s.owner == None {
        var l := Lock(r, t);
        ResumeServes(s, l, t, LockCv);
        TakeSignals(f, l, l, t, c, k);
      } else {
        ResumeServes(s, r, t, LockCv);
        SleepSignals(r, t, OnLock(c));
      }
    case OnBusy(c) =>
      var b := r.(busy := r.busy + {c});
      ResumeServes(s, b, t, BusyCv(c));
      if c in s.busy {
        assert b.busy == r.busy;
        SleepSignals(r, t, OnBusy(c));
      } else {
        SignalsStay(b, Enter(r, t, c));
      }
  }

  /** Taking a thread off its queue is harmless where what it waited for is taken. */
  lemma ResumeServes(s: Sys, s2: Sys, t: Tid, q: Queue)
    requires SignalInv(s) && t in s.waits && Waiting(s, q, t)
    requires s2.waits == s.waits - {t} && s2.woken == s.woken - {t} && s.busy <= s2.busy
    requires (s2.owner == None ==> s.owner == None) && (if q == LockCv then s2.owner.Some? else q.c in s2.busy)
    ensures SignalInv(s2)
  {
    if s2.owner == None { ServedOther(s, s2, t, LockCv); }
    forall c | c !in s2.busy ensures Served(s2, BusyCv(c)) {
      ServedOther(s, s2, t, BusyCv(c));
    }
  }

  lemma ServedOther(s: Sys, s2: Sys, t: Tid, q: Queue)
    requires Served(s, q) && !Waiting(s, q, t) && s2.waits == s.waits - {t} && s2.woken == s.woken - {t}
    ensures Served(s2, q)
  {
    if u :| Waiting(s2, q, u) {
      assert Waiting(s, q, u);
      var v :| Waiting(s, q, v) && v in s.woken;
      assert Waiting(s2, q, v);
    }
  }

  // ----- every step keeps it

  lemma TryEnterKeeps(f: Ctx -> Flags, s: Sys, t: Tid, c: Ctx, k: Option<Tid>)
    requires Inv(f, s) && t !in s.waits && Choice(s, LockCv, k)
    ensures Inv(f, TryEnter(f, s, t, c, k))
  {
    TryEnterCore(f, s, t, c, k);
    TryEnterSignals(f, s, t, c, k);
  }

  lemma WakeCore(f: Ctx -> Flags, s: Sys, t: Tid, k: Option<Tid>)
    requires Core(f, s) && Enabled(f, s, Wake(t, k))
    ensures Core(f, Step(f, s, Wake(t, k)))
  {
    var r := Resume(s, t);
    ResumeCore(f, s, t);
    match s.waits[t]
    case OnLock(c) => TryEnterCore(f, r, t, c, k);
    case OnBusy(c) => TakePlain(f, r, t, c, k);
  }

  lemma LeaveKeeps(f: Ctx -> Flags, s: Sys, t: Tid, c: Ctx, kb: Option<Tid>, kl: Option<Tid>)
    requires Inv(f, s) && Enabled(f, s, Return(t, c, kb, kl))
    ensures Inv(f, Leave(f, s, t, c, kb, kl))
    ensures !f(c).concurrent && f(c).singleInstance ==> s.owner == Some(t) && s.count > 0
  {
    if !f(c).concurrent {
      LeaveCore(f, s, t, c);
      LeaveSignals(f, s, t, c, kb, kl);
      SignalKeepsCore(f, Leave(f, s, t, c, None, None), BusyCv(c), kb);
      SignalKeepsCore(f, Signal(Leave(f, s, t, c, None, None), kb), LockCv, kl);
      LeaveIs(f, s, t, c, kb, kl);
    }
  }

  /** Leaving with signals is leaving without, and then the signals that were given. */
  lemma LeaveIs(f: Ctx -> Flags, s: Sys, t: Tid, c: Ctx, kb: Option<Tid>, kl: Option<Tid>)
    requires !f(c).concurrent
    ensures var d := Signal(Leave(f, s, t, c, None, None), kb);
      Leave(f, s, t, c, kb, kl) == d || Leave(f, s, t, c, kb, kl) == Signal(d, kl)
  {}

  lemma StepKeeps(f: Ctx -> Flags, s: Sys, e: Event)
    requires Inv(f, s) && Enabled(f, s, e)
    ensures Inv(f, Step(f, s, e))
  {
    match e
    case Call(t, c, k) => TryEnterKeeps(f, s, t, c, k);
    case Wake(t, k) =>
      WakeCore(f, s, t, k);
      WakeSignals(f, s, t, k);
    case Return(t, c, kb, kl) => LeaveKeeps(f, s, t, c, kb, kl);
  }

  // ----- whole runs

  ghost predicate IsRun(f: Ctx -> Flags, r: seq<Sys>) {
    && |r| > 0 && r[0] == START
    && forall i :: 0 <= i < |r| - 1 ==> Steps(f, r[i], r[i + 1])
  }

  ghost predicate Steps(f: Ctx -> Flags, s: Sys, s2: Sys) {
    exists e :: Enabled(f, s, e) && s2 == Step(f, s, e)
  }

  lemma {:induction false} RunKeeps(f: Ctx -> Flags, r: seq<Sys>, i: nat)
    requires IsRun(f, r) && i < |r|
    ensures Inv(f, r[i])
  {
    if i == 0 {
      assert Inv(f, START);
    } else {
      RunKeeps(f, r, i - 1);
      assert Steps(f, r[i - 1], r[i]);
      var e :| Enabled(f, r[i - 1], e) && r[i] == Step(f, r[i - 1], e);
      StepKeeps(f, r[i - 1], e);
    }
  }

  /** In every reachable state a non-concurrent context has at most one thread inside. */
  lemma MutualExclusion(f: Ctx -> Flags, r: seq<Sys>, i: nat, t: Tid, u: Tid, c: Ctx)
    requires IsRun(f, r) && i < |r| && (t, c) in r[i].inside && (u, c) in r[i].inside
    ensures t == u && c in r[i].busy
  {
    RunKeeps(f, r, i);
    var p, q := (t, c), (u, c);
    assert p in r[i].inside && q in r[i].inside && p.1 == q.1;
  }

  /** The lock count is the number of single-instance contexts the owner is inside, and nobody else is in one. */
  lemma CountIsHeld(f: Ctx -> Flags, r: seq<Sys>, i: nat)
    requires IsRun(f, r) && i < |r|
    ensures match r[i].owner
      case None => r[i].count == 0 && forall t :: Held(f, r[i], t) == {}
      case Some(o) => r[i].count == |Held(f, r[i], o)| > 0 && forall t :: t != o ==> Held(f, r[i], t) == {}
  {
    RunKeeps(f, r, i);
  }

  /** No wake-up is lost: whoever waits for the free lock or a free context has a signalled companion. */
  lemma NoLostWakeup(f: Ctx -> Flags, r: seq<Sys>, i: nat, q: Queue, t: Tid)
    requires IsRun(f, r) && i < |r| && Waiting(r[i], q, t)
    requires match q case LockCv => r[i].owner == None case BusyCv(c) => c !in r[i].busy
    ensures exists u :: u in r[i].woken && Waiting(r[i], q, u)
  {
    RunKeeps(f, r, i);
    assert Served(r[i], q);
  }

  /** t cannot go on before u does something. */
  ghost predicate WaitsFor(s: Sys, t: Tid, u: Tid) {
    t in s.waits && match s.waits[t]
      case OnLock(_) => s.owner == Some(u)
      case OnBusy(c) => (u, c) in s.inside
  }

  ghost predicate WaitCycle(s: Sys, ts: seq<Tid>) {
    |ts| > 1 && ts[0] == ts[|ts| - 1] && forall i :: 0 <= i < |ts| - 1 ==> WaitsFor(s, ts[i], ts[i + 1])
  }

  /** No circular wait passes through the single-instance lock or its owner. */
  lemma NoCycleThroughLock(f: Ctx -> Flags, r: seq<Sys>, i: nat, ts: seq<Tid>, k: nat)
    requires IsRun(f, r) && i < |r| && WaitCycle(r[i], ts) && k < |ts|
    ensures ts[k] in r[i].waits && r[i].waits[ts[k]].OnBusy? && r[i].owner != Some(ts[k])
  {
    RunKeeps(f, r, i);
    var n := if k == |ts| - 1 then 0 else k;
    assert WaitsFor(r[i], ts[n], ts[n + 1]);
    if n + 1 == |ts| - 1 {
      assert WaitsFor(r[i], ts[0], ts[1]);
    } else {
      assert WaitsFor(r[i], ts[n + 1], ts[n + 2]);
    }
  }

  // ----- the manager object

  datatype Outcome = Entered | Refused | MustWait

  /** The variables of the manager. */
  datatype Vars = Vars(owner: Option<Tid>, count: int, busy: set<Ctx>, signals: seq<Queue>)

  /** What trying to enter comes to: the outcome, and the variables before and after. */
  ghost predicate Tried(f: Flags, t: Tid, c: Ctx, v: Vars, o: Outcome, v2: Vars) {
    if f.concurrent then o == Entered && v2 == v
    else if f.singleInstance && v.owner.Some? && v.owner != Some(t) then o == MustWait && v2 == v
    else if c !in v.busy then
      o == Entered && v2 == (if f.singleInstance then Vars(Some(t), v.count + 1, v.busy + {c}, v.signals) else v.(busy := v.busy + {c}))
    else if f.singleInstance || v.owner == Some(t) then
      o == Refused && v2 == v.(signals := v.signals + if f.singleInstance && v.owner == None then [LockCv] else [])
    else o == MustWait && v2 == v
  }

  /** What leaving does to them. */
  ghost predicate Left(f: Flags, t: Tid, c: Ctx, v: Vars, v2: Vars) {
    if f.concurrent then v2 == v
    else if !f.singleInstance then v2 == v.(busy := v.busy - {c}, signals := v.signals + [BusyCv(c)])
    else if v.count == 1 then v2 == Vars(None, 0, v.busy - {c}, v.signals + [BusyCv(c), LockCv])
    else v2 == Vars(Some(t), v.count - 1, v.busy - {c}, v.signals + [BusyCv(c)])
  }

  /**
   The global variables of the manager and the signals it has given; sys is the
   state machine's view of them.
   */
  class Manager {
    const flags: Ctx -> Flags
    var owner: Option<Tid>
    var count: int
    var busy: set<Ctx>
    var signals: seq<Queue>
    ghost var sys: Sys

    ghost function Now(): Vars
      reads this
    {
      Vars(owner, count, busy, signals)
    }

    ghost predicate Mirrored()
      reads this
    {
      owner == sys.owner && count == sys.count && busy == sys.busy
    }

    ghost predicate Valid()
      reads this
    {
      Mirrored() && Inv(flags, sys)
    }

    constructor (f: Ctx -> Flags)
      ensures Valid() && flags == f && sys == START && signals == []
    {
      flags, owner, count, busy, signals, sys := f, None, 0, {}, [], START;
    }

    method LockSingleInstance(t: Tid) returns (taken: bool)
      requires owner == None ==> count == 0
      modifies `owner, `count
      ensures taken <==> old(owner) == None || old(owner) == Some(t)
      ensures if taken then owner == Some(t) && count == old(count) + 1 else unchanged(this)
    {
      if owner != Some(t) {
        if owner != None {
          return false;
        }
        owner := Some(t);
        assert count == 0;
      }
      count := count + 1;
      return true;
    }

    method UnlockSingleInstance(t: Tid)
      requires owner == Some(t) && count > 0
      modifies `owner, `count, `signals
      ensures count == old(count) - 1 && owner == if count == 0 then None else Some(t)
      ensures signals == old(signals) + if count == 0 then [LockCv] else []
    {
      assert owner == Some(t) && count > 0;
      count := count - 1;
      if count == 0 {
        owner := None;
        signals := signals + [LockCv];
      }
    }

    /** After the lock: take the context, give up, or wait for it. */
    method Take(t: Tid, c: Ctx, ghost k: Option<Tid>) returns (o: Outcome)
      requires Mirrored() && (flags(c).singleInstance ==> owner == Some(t) && count > 0)
      modifies this
      ensures Mirrored() && sys == TakeContext(flags, old(sys), t, c, k)
      ensures o == if c !in old(busy) then Entered else if old(owner) == Some(t) then Refused else MustWait
      ensures signals == old(signals) + if owner == None && old(owner).Some? then [LockCv] else []
      ensures if o == Entered then Now() == old(Now()).(busy := old(busy) + {c})
              else if o == MustWait || !flags(c).singleInstance then Now() == old(Now())
              else if old(count) == 1 then Now() == Vars(None, 0, old(busy), old(signals) + [LockCv])
              else Now() == old(Now()).(count := old(count) - 1)
    {
      sys := TakeContext(flags, sys, t, c, k);
      if owner == Some(t) {
        if c in busy {
          if flags(c).singleInstance {
            UnlockSingleInstance(t);
          }
          busy := busy + {c};
          return Refused;
        }
      } else if c in busy {
        return MustWait;
      }
      busy := busy + {c};
      return Entered;
    }

    /** tee_ta_try_set_busy, up to where it returns or waits. */
    method TrySetBusy(t: Tid, c: Ctx, ghost k: Option<Tid>) returns (o: Outcome)
      requires Valid() && Enabled(flags, sys, Call(t, c, k))
      modifies this
      ensures Valid() && sys == Step(flags, old(sys), Call(t, c, k))
      ensures Tried(flags(c), t, c, old(Now()), o, Now())
      ensures o == MustWait ==> t in sys.waits && sys.waits[t] == if flags(c).singleInstance then OnLock(c) else OnBusy(c)
      ensures o == Entered && !flags(c).concurrent ==> (t, c) in sys.inside && c !in old(busy)
      ensures o == Refused ==> c in old(busy) && owner == old(owner) && t !in sys.waits
      ensures o == MustWait ==> t in sys.waits && owner != Some(t)
    {
      if flags(c).concurrent {
        return Entered;
      }
      TryEnterKeeps(flags, sys, t, c, k);
      o := EnterFrom(t, c, k);
    }

    /** From the single-instance lock on. */
    method EnterFrom(t: Tid, c: Ctx, ghost k: Option<Tid>) returns (o: Outcome)
      requires Mirrored() && !flags(c).concurrent && (owner == None ==> count == 0) && (owner == Some(t) ==> count > 0)
      requires t !in sys.waits
      modifies this
      ensures Mirrored() && sys == TryEnter(flags, old(sys), t, c, k)
      ensures Tried(flags(c), t, c, old(Now()), o, Now())
      ensures o == MustWait ==> t in sys.waits && sys.waits[t] == if flags(c).singleInstance then OnLock(c) else OnBusy(c)
      ensures o == Entered ==> (t, c) in sys.inside && c !in old(busy)
      ensures o == Refused ==> c in old(busy) && owner == old(owner) && t !in sys.waits
      ensures o == MustWait ==> t in sys.waits && owner != Some(t)
    {
      if flags(c).singleInstance {
        var taken := LockSingleInstance(t);
        if !taken {
          sys := Sleep(sys, t, OnLock(c));
          return MustWait;
        }
        sys := Lock(sys, t);
      }
      o := Take(t, c, k);
    }

    /** A wake-up on the lock's condition variable. */
    method WakeLock(t: Tid, c: Ctx, ghost k: Option<Tid>) returns (o: Outcome)
      requires Valid() && Enabled(flags, sys, Wake(t, k)) && sys.waits[t] == OnLock(c)
      modifies this
      ensures Valid() && sys == Step(flags, old(sys), Wake(t, k))
      ensures Tried(flags(c), t, c, old(Now()), o, Now())
      ensures o == Entered ==> (t, c) in sys.inside && c !in old(busy)
      ensures o == MustWait <==> old(owner) != None
    {
      StepKeeps(flags, sys, Wake(t, k));
      assert owner != Some(t);
      sys := Resume(sys, t);
      o := EnterFrom(t, c, k);
    }

    /** A wake-up on the condition variable of the context. */
    method WakeBusy(t: Tid, c: Ctx, ghost k: Option<Tid>) returns (o: Outcome)
      requires Valid() && Enabled(flags, sys, Wake(t, k)) && sys.waits[t] == OnBusy(c)
      modifies this
      ensures Valid() && sys == Step(flags, old(sys), Wake(t, k))
      ensures Tried(flags(c), t, c, old(Now()), o, Now()) && (o == Entered ==> (t, c) in sys.inside)
      ensures o == if c in old(busy) then MustWait else Entered
    {
      StepKeeps(flags, sys, Wake(t, k));
      sys := Step(flags, sys, Wake(t, k));
      if c in busy {
        return MustWait;
      }
      busy := busy + {c};
      return Entered;
    }

    method ClearBusy(t: Tid, c: Ctx, ghost kb: Option<Tid>, ghost kl: Option<Tid>)
      requires Valid() && Enabled(flags, sys, Return(t, c, kb, kl))
      modifies this
      ensures Valid() && sys == Step(flags, old(sys), Return(t, c, kb, kl))
      ensures Left(flags(c), t, c, old(Now()), Now()) && (t, c) !in sys.inside
      ensures signals == old(signals) + (if flags(c).concurrent then [] else [BusyCv(c)])
                       + (if old(owner).Some? && owner == None then [LockCv] else [])
    {
      if flags(c).concurrent {
        return;
      }
      LeaveKeeps(flags, sys, t, c, kb, kl);
      assert c in busy;
      busy := busy - {c};
      signals := signals + [BusyCv(c)];
      sys := Leave(flags, sys, t, c, kb, kl);
      if flags(c).singleInstance {
        UnlockSingleInstance(t);
      }
    }
  }
}
