/**
 The registry of shared files (core/mm/file.c) with its lock-free reference counts
 (core/kernel/refcount.c), as atomic steps of threads: every load and every
 compare-and-swap is a step of its own; the registry mutex covers a lookup from
 start to end and the removal from the list.
 */
module FileRegistry {
  import opened Common

  type Tid = nat
  type Fid = nat
  type TagBytes = seq<bv8>

  /** A thread between the load and the compare-and-swap of refcount_dec or of refcount_inc in file_get. */
  datatype Cas = Dec(was: nat) | Inc(was: nat)

  /**
   A file object: tag and counter, whether it is in the list, and beside these the
   references callers have, the threads changing the counter and the thread that
   took it to zero.
   */
  datatype File = File(tag: TagBytes, refc: nat, linked: bool, refs: nat, active: map<Tid, Cas>, doom: Option<Tid>)

  /** file_get_by_tag under way: the mutex holder, and the file found with the counter value loaded. */
  datatype Lookup = Lookup(t: Tid, tag: TagBytes, found: Option<(Fid, nat)>)

  datatype World = World(files: map<Fid, File>, list: seq<Fid>, lookup: Option<Lookup>, freed: set<Fid>)

  const START := World(map[], [], None, {})

  const UINT: nat := 0x1_0000_0000

  // ----- the list

  predicate Listed(w: World) {
    forall i :: 0 <= i < |w.list| ==> w.list[i] in w.files
  }

  /** Position of the first file with the tag, or the end of the list. */
  function Find(w: World, tag: TagBytes, k: nat): (r: nat)
    requires Listed(w) && k <= |w.list|
    ensures k <= r <= |w.list| && (r < |w.list| ==> w.files[w.list[r]].tag == tag)
    ensures forall i :: k <= i < r ==> w.files[w.list[i]].tag != tag
    decreases |w.list| - k
  {
    if k == |w.list| || w.files[w.list[k]].tag == tag then k else Find(w, tag, k + 1)
  }

  // ----- one file

  /** A new file, referenced by the caller of the lookup. */
  function Fresh(tag: TagBytes): File {
    File(tag, 1, true, 1, map[], None)
  }

  function Gained(x: File): File {
    x.(refc := (x.refc + 1) % UINT, refs := x.refs + 1)
  }

  /** The caller's reference goes into the operation. */
  function Begin(x: File, t: Tid, c: Cas): File
    requires x.refs > 0
  {
    x.(refs := x.refs - 1, active := x.active[t := c])
  }

  /** One compare-and-swap; on failure the expected value becomes the current one. */
  function Swap(x: File, t: Tid): File
    requires t in x.active
  {
    match x.active[t]
    case Dec(v) =>
      if x.refc == v && v > 0 then
        x.(refc := v - 1, active := x.active - {t}, doom := if v == 1 then Some(t) else x.doom)
      else x.(active := x.active[t := Dec(x.refc)])
    case Inc(v) =>
      if x.refc == v then x.(refc := (v + 1) % UINT, refs := x.refs + 2, active := x.active - {t})
      else x.(active := x.active[t := Inc(x.refc)])
  }

  // ----- the registry

  function Update(w: World, f: Fid, x: File): World {
    w.(files := w.files[f := x])
  }

  function Create(w: World, f: Fid, tag: TagBytes): World {
    w.(files := w.files[f := Fresh(tag)], list := [f] + w.list, lookup := None)
  }

  datatype Event =
    | Lock(t: Tid, tag: TagBytes)
    | Search(t: Tid, nf: Fid)
    | TryInc(t: Tid, nf: Fid)
    | Put(t: Tid, f: Fid)
    | Get(t: Tid, f: Fid)
    | Retry(t: Tid, f: Fid)
    | Remove(t: Tid, f: Fid)
    | Free(t: Tid, f: Fid)

  predicate Unused(w: World, f: Fid) {
    f !in w.files && f !in w.freed
  }

  predicate Holds(w: World, t: Tid, found: bool) {
    w.lookup.Some? && w.lookup.value.t == t && w.lookup.value.found.Some? == found
  }

  /**
   Callers put and get only files they have a reference to, and there are fewer
   references to a file than its counter can hold.
   */
  predicate Enabled(w: World, e: Event) {
    Listed(w) && match e
    case Lock(t, tag) => w.lookup == None
    case Search(t, nf) => Holds(w, t, false) && Unused(w, nf)
    case TryInc(t, nf) =>
      && Holds(w, t, true) && Unused(w, nf)
      && var f := w.lookup.value.found.value.0; f in w.files && w.files[f].refc < UINT - 1
    case Put(t, f) => f in w.files && w.files[f].refs > 0 && t !in w.files[f].active
    case Get(t, f) => f in w.files && w.files[f].refs > 0 && t !in w.files[f].active
    case Retry(t, f) => f in w.files && t in w.files[f].active && w.files[f].refc < UINT - 1
    case Remove(t, f) => f in w.files && w.files[f].doom == Some(t) && w.files[f].linked && w.lookup == None
    case Free(t, f) => f in w.files && w.files[f].doom == Some(t) && !w.files[f].linked
  }

  function Step(w: World, e: Event): World
    requires Enabled(w, e)
  {
    match e
    case Lock(t, tag) => w.(lookup := Some(Lookup(t, tag, None)))
    case Search(t, nf) =>
      var l := w.lookup.value;
      var k := Find(w, l.tag, 0);
      if k == |w.list| then Create(w, nf, l.tag)
      else w.(lookup := Some(l.(found := Some((w.list[k], w.files[w.list[k]].refc)))))
    case TryInc(t, nf) =>
      var l := w.lookup.value;
      var (f, v) := l.found.value;
      if v == 0 then Create(w, nf, l.tag)
      else if w.files[f].refc == v then Update(w, f, Gained(w.files[f])).(lookup := None)
      else w.(lookup := Some(l.(found := Some((f, w.files[f].refc)))))
    case Put(t, f) => Update(w, f, Begin(w.files[f], t, Dec(w.files[f].refc)))
    case Get(t, f) => Update(w, f, Begin(w.files[f], t, Inc(w.files[f].refc)))
    case Retry(t, f) => Update(w, f, Swap(w.files[f], t))
    case Remove(t, f) => Update(w, f, w.files[f].(linked := false)).(list := Without(w.list, f))
    case Free(t, f) => w.(files := w.files - {f}, freed := w.freed + {f})
  }

  // ----- the invariant

  /**
   The counter is the number of references, held or inside an operation; no thread
   works with a loaded 0; exactly the thread that reached zero frees the file.
   */
  ghost predicate FileInv(x: File) {
    && x.refc == x.refs + |x.active.Keys|
    && (forall t :: t in x.active ==> x.active[t].was > 0)
    && (x.refc == 0 <==> x.doom.Some?)
    && (!x.linked ==> x.refc == 0)
  }

  /** Of two files with the same tag the later one in the list is dying. */
  ghost predicate Shadowed(w: World)
    requires Listed(w)
  {
    forall i, j {:trigger w.list[i], w.list[j]} :: 0 <= i < j < |w.list| ==>
      w.list[i] != w.list[j] && (w.files[w.list[i]].tag == w.files[w.list[j]].tag ==> w.files[w.list[j]].refc == 0)
  }

  /** What the mutex holder has found is still the first file with its tag, and a loaded 0 is still 0. */
  ghost predicate LookupInv(w: World)
    requires Listed(w)
  {
    w.lookup.Some? && w.lookup.value.found.Some? ==>
      var (f, v) := w.lookup.value.found.value;
      var k := Find(w, w.lookup.value.tag, 0);
      k < |w.list| && w.list[k] == f && (v == 0 ==> w.files[f].refc == 0)
  }

  ghost predicate Inv(w: World) {
    && Listed(w) && Shadowed(w) && LookupInv(w)
    && (forall f :: f in w.files ==> FileInv(w.files[f]) && (w.files[f].linked <==> f in w.list) && f !in w.freed)
  }

  // ----- every step keeps it

  lemma BeginKeeps(x: File, t: Tid, c: Cas)
    requires FileInv(x) && x.refs > 0 && t !in x.active && c.was == x.refc
    ensures FileInv(Begin(x, t, c))
  {
    assert x.active[t := c].Keys == x.active.Keys + {t};
  }

  lemma SwapKeeps(x: File, t: Tid)
    requires FileInv(x) && t in x.active && x.refc < UINT - 1
    ensures FileInv(Swap(x, t)) && x.refc > 0
  {
    assert x.active.Keys == (x.active.Keys - {t}) + {t};
    assert (x.active - {t}).Keys == x.active.Keys - {t};
    assert x.active[t := Dec(x.refc)].Keys == x.active.Keys;
    assert x.active[t := Inc(x.refc)].Keys == x.active.Keys;
  }

  /** Same list and tags, so the same search results. */
  lemma {:induction false} FindSame(w: World, w2: World, tag: TagBytes, k: nat)
    requires Listed(w) && Listed(w2) && w2.list == w.list && k <= |w.list|
    requires forall i :: 0 <= i < |w.list| ==> w2.files[w.list[i]].tag == w.files[w.list[i]].tag
    ensures Find(w2, tag, k) == Find(w, tag, k)
    decreases |w.list| - k
  {
    if k < |w.list| && w.files[w.list[k]].tag != tag { FindSame(w, w2, tag, k + 1); }
  }

  /** A change of counters that lets no dead file rise. */
  lemma UpdateKeeps(w: World, f: Fid, x: File)
    requires Inv(w) && f in w.files && FileInv(x) && x.tag == w.files[f].tag && x.linked == w.files[f].linked
    requires w.files[f].refc == 0 ==> x.refc == 0
    ensures Inv(Update(w, f, x))
  {
    var w2 := Update(w, f, x);
    if w.lookup.Some? {
      FindSame(w, w2, w.lookup.value.tag, 0);
    }
  }

  lemma CreateKeeps(w: World, f: Fid, tag: TagBytes)
    requires Inv(w) && Unused(w, f)
    requires forall i :: 0 <= i < |w.list| && w.files[w.list[i]].tag == tag ==> w.files[w.list[i]].refc == 0
    ensures Inv(Create(w, f, tag))
  {
    var w2 := Create(w, f, tag);
    assert forall i :: 0 < i < |w2.list| ==> w2.list[i] == w.list[i - 1];
    assert |Fresh(tag).active.Keys| == 0;
    forall g | g in w2.files ensures w2.files[g].linked <==> g in w2.list {
      assert g in w2.list <==> g == f || g in w.list;
    }
  }

  /** Taking a file out of a list of distinct files keeps the others in order. */
  lemma RemovedList(list: seq<Fid>, f: Fid, k: nat, r: seq<Fid>)
    requires Distinct(list) && k < |list| && list[k] == f
    requires r == Without(list, f)
    ensures |r| == |list| - 1 && forall i :: 0 <= i < |r| ==> r[i] == list[if i < k then i else i + 1]
    ensures forall g :: g in r <==> g in list && g != f
  {
    WithoutIs(list, f, k);
    assert forall i :: 0 <= i < |r| ==> r[i] == list[if i < k then i else i + 1];
  }

  lemma RemoveKeeps(w: World, t: Tid, f: Fid)
    requires Inv(w) && Enabled(w, Remove(t, f))
    ensures Inv(Step(w, Remove(t, f)))
  {
    assert f in w.list;
    var k :| 0 <= k < |w.list| && w.list[k] == f;
    var w2 := Step(w, Remove(t, f));
    assert Distinct(w.list);
    RemovedList(w.list, f, k, w2.list);
    RemovedInv(w, w2, f, k);
  }

  lemma RemovedInv(w: World, w2: World, f: Fid, k: nat)
    requires Inv(w) && w.lookup == None && f in w.files && w.files[f].refc == 0 && k < |w.list|
    requires w2 == Update(w, f, w.files[f].(linked := false)).(list := w2.list)
    requires |w2.list| == |w.list| - 1 && forall i :: 0 <= i < |w2.list| ==> w2.list[i] == w.list[if i < k then i else i + 1]
    requires forall g :: g in w2.list <==> g in w.list && g != f
    ensures Inv(w2)
  {
    assert Listed(w2);
    assert Shadowed(w2) by { RemovedShadowed(w, w2, k); }
    forall g | g in w2.files
      ensures FileInv(w2.files[g]) && (w2.files[g].linked <==> g in w2.list) && g !in w2.freed
    {
      assert g in w.files;
    }
  }

  lemma RemovedShadowed(w: World, w2: World, k: nat)
    requires Listed(w) && Shadowed(w) && Listed(w2) && k < |w.list|
    requires |w2.list| == |w.list| - 1 && forall i :: 0 <= i < |w2.list| ==> w2.list[i] == w.list[if i < k then i else i + 1]
    requires forall f :: f in w2.files ==> f in w.files && w2.files[f].tag == w.files[f].tag && w2.files[f].refc == w.files[f].refc
    ensures Shadowed(w2)
  {
    forall i, j | 0 <= i < j < |w2.list|
      ensures w2.list[i] != w2.list[j]
      ensures w2.files[w2.list[i]].tag == w2.files[w2.list[j]].tag ==> w2.files[w2.list[j]].refc == 0
    {
      var i2, j2 := if i < k then i else i + 1, if j < k then j else j + 1;
      assert w2.list[i] == w.list[i2] && w2.list[j] == w.list[j2];
    }
  }

  lemma SearchKeeps(w: World, t: Tid, nf: Fid)
    requires Inv(w) && Enabled(w, Search(t, nf))
    ensures Inv(Step(w, Search(t, nf)))
  {
    var l := w.lookup.value;
    if Find(w, l.tag, 0) == |w.list| {
      CreateKeeps(w, nf, l.tag);
    } else {
      LookupOnly(w, Step(w, Search(t, nf)));
    }
  }

  /** A step of the mutex holder that changes nothing else. */
  lemma LookupOnly(w: World, w2: World)
    requires Inv(w) && w2 == w.(lookup := w2.lookup) && w2.lookup.Some? && w2.lookup.value.found.Some?
    requires var (f, v) := w2.lookup.value.found.value;
      var k := Find(w, w2.lookup.value.tag, 0);
      k < |w.list| && w.list[k] == f && v == w.files[f].refc
    ensures Inv(w2)
  {
    FindSame(w, w2, w2.lookup.value.tag, 0);
  }

  lemma TryIncKeeps(w: World, t: Tid, nf: Fid)
    requires Inv(w) && Enabled(w, TryInc(t, nf))
    ensures Inv(Step(w, TryInc(t, nf)))
  {
    var l := w.lookup.value;
    var (f, v) := l.found.value;
    if v == 0 {
      CreateKeeps(w, nf, l.tag);
    } else if w.files[f].refc == v {
      UpdateKeeps(w, f, Gained(w.files[f]));
    } else {
      LookupOnly(w, Step(w, TryInc(t, nf)));
    }
  }

  lemma CasKeeps(w: World, e: Event)
    requires Inv(w) && Enabled(w, e) && (e.Put? || e.Get? || e.Retry?)
    ensures Inv(Step(w, e))
  {
    var x := w.files[e.f];
    match e
    case Put(t, f) =>
      BeginKeeps(x, t, Dec(x.refc));
      UpdateKeeps(w, f, Begin(x, t, Dec(x.refc)));
    case Get(t, f) =>
      BeginKeeps(x, t, Inc(x.refc));
      UpdateKeeps(w, f, Begin(x, t, Inc(x.refc)));
    case Retry(t, f) =>
      SwapKeeps(x, t);
      UpdateKeeps(w, f, Swap(x, t));
  }

  lemma FreeKeeps(w: World, t: Tid, f: Fid)
    requires Inv(w) && Enabled(w, Free(t, f))
    ensures Inv(Step(w, Free(t, f)))
  {
    var w2 := Step(w, Free(t, f));
    assert Listed(w2) by {
      forall i | 0 <= i < |w.list| ensures w.list[i] != f {
        assert w.list[i] in w.list;
      }
    }
    if w.lookup.Some? {
      FindSame(w, w2, w.lookup.value.tag, 0);
    }
  }

  lemma StepKeeps(w: World, e: Event)
    requires Inv(w) && Enabled(w, e)
    ensures Inv(Step(w, e))
  {
    if e.Search? {
      SearchKeeps(w, e.t, e.nf);
    } else if e.TryInc? {
      TryIncKeeps(w, e.t, e.nf);
    } else if e.Put? || e.Get? || e.Retry? {
      CasKeeps(w, e);
    } else if e.Remove? {
      RemoveKeeps(w, e.t, e.f);
    } else if e.Free? {
      FreeKeeps(w, e.t, e.f);
    }
  }

  // ----- whole runs

  ghost predicate Steps(w: World, w2: World) {
    exists e :: Enabled(w, e) && w2 == Step(w, e)
  }

  ghost predicate IsRun(r: seq<World>) {
    && |r| > 0 && r[0] == START
    && forall i :: 0 <= i < |r| - 1 ==> Steps(r[i], r[i + 1])
  }

  lemma {:induction false} RunKeeps(r: seq<World>, i: nat)
    requires IsRun(r) && i < |r|
    ensures Inv(r[i])
  {
    if i > 0 {
      RunKeeps(r, i - 1);
      assert Steps(r[i - 1], r[i]);
      var e :| Enabled(r[i - 1], e) && r[i] == Step(r[i - 1], e);
      StepKeeps(r[i - 1], e);
    }
  }

  /** At most one file per tag is alive, and a lookup meets it before any dying one. */
  lemma OneLivePerTag(r: seq<World>, i: nat, f: Fid, g: Fid)
    requires IsRun(r) && i < |r| && f in r[i].files && g in r[i].files && f != g
    requires r[i].files[f].tag == r[i].files[g].tag && r[i].files[f].refc > 0
    ensures r[i].files[g].refc == 0
    ensures forall k, l :: 0 <= k < |r[i].list| && 0 <= l < |r[i].list| && r[i].list[k] == f && r[i].list[l] == g ==> k < l
  {
    RunKeeps(r, i);
    var w := r[i];
    assert f in w.list;
    var k :| 0 <= k < |w.list| && w.list[k] == f;
    if g in w.list {
      var l :| 0 <= l < |w.list| && w.list[l] == g;
      assert k < l || l < k;
    }
  }

  /** A lookup finds the live file of its tag whenever there is one. */
  lemma LookupFindsLive(r: seq<World>, i: nat, f: Fid)
    requires IsRun(r) && i < |r| && f in r[i].files && r[i].files[f].refc > 0
    ensures Listed(r[i])
    ensures var k := Find(r[i], r[i].files[f].tag, 0); k < |r[i].list| && r[i].list[k] == f
  {
    RunKeeps(r, i);
    var w := r[i];
    assert f in w.list;
    var l :| 0 <= l < |w.list| && w.list[l] == f;
    assert Find(w, w.files[f].tag, 0) <= l;
  }

  lemma NoneActive(x: File)
    requires FileInv(x) && x.refc == 0
    ensures x.active == map[] && x.refs == 0
  {
    assert |x.active.Keys| == 0;
  }

  /** The counter of f has reached 0 and thread d frees it, or has. */
  ghost predicate Dead(w: World, f: Fid, d: Option<Tid>) {
    if f in w.files then w.files[f].refc == 0 && w.files[f].doom == d && f !in w.freed else f in w.freed
  }

  lemma DeadStep(w: World, e: Event, f: Fid, d: Option<Tid>)
    requires Inv(w) && Enabled(w, e) && Dead(w, f, d)
    ensures Dead(Step(w, e), f, d)
  {
    if f in w.files {
      NoneActive(w.files[f]);
    }
  }

  lemma RunDead(r: seq<World>, j: nat, f: Fid, d: Option<Tid>)
    requires IsRun(r) && j + 1 < |r| && Dead(r[j], f, d)
    ensures Dead(r[j + 1], f, d)
  {
    RunKeeps(r, j);
    assert Steps(r[j], r[j + 1]);
    var e :| Enabled(r[j], e) && r[j + 1] == Step(r[j], e);
    DeadStep(r[j], e, f, d);
  }

  lemma {:induction false} DeadForever(r: seq<World>, i: nat, j: nat, f: Fid, d: Option<Tid>)
    requires IsRun(r) && i <= j < |r| && Dead(r[i], f, d)
    ensures Dead(r[j], f, d)
    decreases j
  {
    if j > i {
      DeadForever(r, i, j - 1, f, d);
      RunDead(r, j - 1, f, d);
    }
  }

  /** A counter that has reached 0 never rises again. */
  lemma ZeroNeverRises(r: seq<World>, i: nat, j: nat, f: Fid)
    requires IsRun(r) && i <= j < |r| && f in r[i].files && r[i].files[f].refc == 0
    ensures f in r[j].files ==> r[j].files[f].refc == 0 && r[j].files[f].doom == r[i].files[f].doom
    ensures f !in r[j].files ==> f in r[j].freed
  {
    RunKeeps(r, i);
    DeadForever(r, i, j, f, r[i].files[f].doom);
  }

  /** Only a thread's own decrement from 1 to 0 binds it to free the file. */
  lemma DoomFromDecrement(w: World, e: Event, f: Fid, t: Tid)
    requires Inv(w) && Enabled(w, e) && f in Step(w, e).files && Step(w, e).files[f].doom == Some(t)
    requires f in w.files ==> w.files[f].doom != Some(t)
    ensures e == Retry(t, f) && f in w.files && w.files[f].refc == 1 && Step(w, e).files[f].refc == 0
  {
    if e.Retry? && e.f == f {
      SwapKeeps(w.files[f], e.t);
    }
  }

  /** A file is freed once: by the thread that took it to 0, when nobody refers to it, and never again. */
  lemma FreedOnce(r: seq<World>, i: nat, j: nat, t: Tid, f: Fid)
    requires IsRun(r) && i < j < |r| && Enabled(r[i], Free(t, f)) && r[i + 1] == Step(r[i], Free(t, f))
    ensures r[i].files[f].doom == Some(t) && r[i].files[f].refs == 0 && r[i].files[f].active == map[]
    ensures f in r[j].freed && forall u :: !Enabled(r[j], Free(u, f)) && !Enabled(r[j], Remove(u, f))
  {
    RunKeeps(r, i);
    NoneActive(r[i].files[f]);
    DeadForever(r, i + 1, j, f, None);
    DeadForever(r, i + 1, j, f, Some(t));
  }

  // ----- the registry object

  /** f is the first file in the list with the tag. */
  ghost predicate FirstWith(list: seq<Fid>, tags: map<Fid, TagBytes>, tag: TagBytes, f: Fid) {
    exists k :: FirstAt(list, tags, tag, k) && list[k] == f
  }

  ghost predicate FirstAt(list: seq<Fid>, tags: map<Fid, TagBytes>, tag: TagBytes, k: int) {
    && 0 <= k < |list| && list[k] in tags && tags[list[k]] == tag
    && forall i :: 0 <= i < k ==> list[i] in tags && tags[list[i]] != tag
  }

  /** What a step of an operation comes to. */
  datatype Progress = Done | Again | Last

  /** Tags, counters and the list; world is the state machine's view of them. */
  class Registry {
    var tags: map<Fid, TagBytes>
    var refc: map<Fid, nat>
    var list: seq<Fid>
    ghost var world: World

    ghost predicate Mirrored()
      reads this
    {
      && Listed(world) && list == world.list && tags.Keys == refc.Keys == world.files.Keys
      && forall f :: f in refc ==> refc[f] == world.files[f].refc && tags[f] == world.files[f].tag
    }

    ghost predicate Valid()
      reads this
    {
      Mirrored() && Inv(world)
    }

    constructor ()
      ensures Valid() && world == START
    {
      tags, refc, list, world := map[], map[], [], START;
    }

    /** file_find_tag_unlocked. */
    method FindTag(tag: TagBytes) returns (k: nat)
      requires Mirrored()
      ensures k == Find(world, tag, 0)
      ensures k <= |list| && forall i :: 0 <= i < k ==> tags[list[i]] != tag
      ensures k < |list| ==> FirstWith(list, tags, tag, list[k])
    {
      k := 0;
      while k < |list|
        invariant k <= |list| && Find(world, tag, 0) == Find(world, tag, k)
        invariant forall i :: 0 <= i < k ==> tags[list[i]] != tag
      {
        if tags[list[k]] == tag {
          assert FirstAt(list, tags, tag, k);
          return;
        }
        k := k + 1;
      }
    }

    /** A new file at the head of the list. */
    method Insert(f: Fid, tag: TagBytes)
      requires Mirrored() && Unused(world, f)
      modifies this
      ensures Mirrored() && world == Create(old(world), f, tag)
      ensures tags == old(tags)[f := tag] && refc == old(refc)[f := 1] && list == [f] + old(list)
    {
      world := Create(world, f, tag);
      tags := tags[f := tag];
      refc := refc[f := 1];
      list := [f] + list;
    }

    /** The search of file_get_by_tag, with the first load of the counter it finds. */
    method SearchTag(t: Tid, tag: TagBytes, nf: Fid) returns (f: Fid, seen: Option<nat>)
      requires Valid() && Enabled(world, Search(t, nf)) && tag == world.lookup.value.tag
      modifies this
      ensures Valid() && world == Step(old(world), Search(t, nf))
      ensures seen.None? <==> forall i :: 0 <= i < |old(list)| ==> old(tags)[old(list)[i]] != tag
      ensures seen.None? ==> f == nf && tags == old(tags)[f := tag] && refc == old(refc)[f := 1] && list == [f] + old(list)
      ensures seen.Some? ==> FirstWith(list, tags, tag, f) && seen == Some(refc[f])
      ensures seen.Some? ==> tags == old(tags) && refc == old(refc) && list == old(list)
      ensures seen.None? ==> f == nf && f in world.files && world.files[f].refs == 1
      ensures seen.Some? ==> world.lookup.Some? && world.lookup.value.found == Some((f, seen.value))
    {
      StepKeeps(world, Search(t, nf));
      var k := FindTag(tag);
      if k == |list| {
        Insert(nf, tag);
        return nf, None;
      }
      f, seen := list[k], Some(refc[list[k]]);
      world := Step(world, Search(t, nf));
    }

    /** One round of refcount_inc for a file found by tag. */
    method IncFound(t: Tid, tag: TagBytes, f: Fid, v: nat, nf: Fid) returns (r: Option<nat>)
      requires Valid() && Enabled(world, TryInc(t, nf))
      requires tag == world.lookup.value.tag && world.lookup.value.found == Some((f, v))
      modifies this
      ensures Valid() && world == Step(old(world), TryInc(t, nf))
      ensures r.Some? ==> world.lookup == Some(Lookup(t, tag, Some((f, r.value))))
      ensures r.None? ==> world.lookup == None && (if v == 0 then nf else f) in world.files
      ensures v == 0 ==> r == None && tags == old(tags)[nf := tag] && refc == old(refc)[nf := 1] && list == [nf] + old(list)
      ensures v > 0 ==> r == (if old(refc)[f] == v then None else Some(old(refc)[f])) && tags == old(tags) && list == old(list)
      ensures v > 0 ==> refc == if r.None? then old(refc)[f := v + 1] else old(refc)
      ensures v > 0 && r.None? ==> world.files[f].refs == old(world).files[f].refs + 1
    {
      StepKeeps(world, TryInc(t, nf));
      if v == 0 {
        Insert(nf, tag);
        return None;
      }
      r := IncPlain(t, f, v, nf);
    }

    method IncPlain(t: Tid, f: Fid, v: nat, nf: Fid) returns (r: Option<nat>)
      requires Mirrored() && Enabled(world, TryInc(t, nf)) && world.lookup.value.found == Some((f, v)) && v > 0
      modifies this
      ensures Mirrored() && world == Step(old(world), TryInc(t, nf))
      ensures r.Some? ==> world.lookup == Some(old(world).lookup.value.(found := Some((f, r.value))))
      ensures r.None? ==> world.lookup == None && f in world.files
      ensures r == (if old(refc)[f] == v then None else Some(old(refc)[f])) && tags == old(tags) && list == old(list)
      ensures refc == if r.None? then old(refc)[f := v + 1] else old(refc)
      ensures r.None? ==> world.files[f].refs == old(world).files[f].refs + 1
    {
      if refc[f] == v {
        StoreCount(f, (v + 1) % UINT, Gained(world.files[f]), None);
        return None;
      }
      world := Step(world, TryInc(t, nf));
      return Some(refc[f]);
    }

    /** The counter in memory, and what goes with it. */
    method StoreCount(f: Fid, v: nat, ghost x: File, ghost l: Option<Lookup>)
      requires Mirrored() && f in refc && x.refc == v && x.tag == tags[f]
      modifies `refc, `world
      ensures Mirrored() && refc == old(refc)[f := v] && world == Update(old(world), f, x).(lookup := l)
    {
      refc := refc[f := v];
      world := Update(world, f, x).(lookup := l);
    }

    /** The first load of refcount_dec in file_put. */
    method StartPut(t: Tid, f: Fid) returns (v: nat)
      requires Valid() && Enabled(world, Put(t, f))
      modifies `world
      ensures Valid() && world == Step(old(world), Put(t, f)) && v == refc[f] > 0
      ensures world.files[f].refs == old(world).files[f].refs - 1
      ensures world.files[f].active[t] == Dec(v)
    {
      StepKeeps(world, Put(t, f));
      assert FileInv(world.files[f]);
      v := Load(t, f, Dec(world.files[f].refc));
    }

    /** The first load of refcount_inc in file_get. */
    method StartGet(t: Tid, f: Fid) returns (v: nat)
      requires Valid() && Enabled(world, Get(t, f))
      modifies `world
      ensures Valid() && world == Step(old(world), Get(t, f)) && v == refc[f] > 0
      ensures world.files[f].refs == old(world).files[f].refs - 1
      ensures world.files[f].active[t] == Inc(v)
    {
      StepKeeps(world, Get(t, f));
      assert FileInv(world.files[f]);
      v := Load(t, f, Inc(world.files[f].refc));
    }

    method Load(t: Tid, f: Fid, ghost c: Cas) returns (v: nat)
      requires Mirrored() && f in refc && world.files[f].refs > 0 && c.was == world.files[f].refc
      modifies `world
      ensures Mirrored() && f in old(world).files && v == refc[f] == c.was
      ensures world == Update(old(world), f, Begin(old(world).files[f], t, c))
    {
      v := refc[f];
      world := Update(world, f, Begin(world.files[f], t, c));
    }

    /** One round of refcount_inc in file_get; it never sees the 0 that would make file_get panic. */
    method IncRound(t: Tid, f: Fid, v: nat) returns (p: Progress, now: nat)
      requires Valid() && Enabled(world, Retry(t, f)) && world.files[f].active[t] == Inc(v)
      modifies this
      ensures Valid() && world == Step(old(world), Retry(t, f)) && v > 0 && !p.Last?
      ensures p.Again? ==> t in world.files[f].active && world.files[f].active[t] == Inc(now)
      ensures p.Done? ==> world.files[f].refs == old(world).files[f].refs + 2
      ensures (p.Done? <==> old(refc)[f] == v) && (p.Again? ==> now == old(refc)[f]) && tags == old(tags) && list == old(list)
      ensures refc == if p.Done? then old(refc)[f := v + 1] else old(refc)
    {
      StepKeeps(world, Retry(t, f));
      SwapKeeps(world.files[f], t);
      p, now := IncCas(t, f, v);
    }

    method IncCas(t: Tid, f: Fid, v: nat) returns (p: Progress, now: nat)
      requires Mirrored() && Enabled(world, Retry(t, f)) && world.files[f].active[t] == Inc(v)
      modifies this
      ensures Mirrored() && world == Step(old(world), Retry(t, f)) && !p.Last?
      ensures p.Again? ==> t in world.files[f].active && world.files[f].active[t] == Inc(now)
      ensures p.Done? ==> world.files[f].refs == old(world).files[f].refs + 2
      ensures (p.Done? <==> old(refc)[f] == v) && (p.Again? ==> now == old(refc)[f]) && tags == old(tags) && list == old(list)
      ensures refc == if p.Done? then old(refc)[f := v + 1] else old(refc)
    {
      now := refc[f];
      if now != v {
        world := Step(world, Retry(t, f));
        return Again, now;
      }
      StoreCount(f, (v + 1) % UINT, Swap(world.files[f], t), world.lookup);
      return Done, v;
    }

    /** One round of refcount_dec; the last reference leaves the caller with the file to free. */
    method DecRound(t: Tid, f: Fid, v: nat) returns (p: Progress, now: nat)
      requires Valid() && Enabled(world, Retry(t, f)) && world.files[f].active[t] == Dec(v)
      modifies this
      ensures Valid() && world == Step(old(world), Retry(t, f))
      ensures p.Last? <==> world.files[f].doom == Some(t)
      ensures p.Again? ==> t in world.files[f].active && world.files[f].active[t] == Dec(now)
      ensures p == (if old(refc)[f] != v then Again else if v == 1 then Last else Done) && tags == old(tags) && list == old(list)
      ensures refc == (if p.Again? then old(refc) else old(refc)[f := v - 1]) && now == refc[f]
    {
      StepKeeps(world, Retry(t, f));
      SwapKeeps(world.files[f], t);
      assert v > 0;
      p, now := DecPlain(t, f, v);
    }

    method DecPlain(t: Tid, f: Fid, v: nat) returns (p: Progress, now: nat)
      requires Mirrored() && Enabled(world, Retry(t, f)) && world.files[f].active[t] == Dec(v) && v > 0
      requires world.files[f].doom == None
      modifies this
      ensures Mirrored() && world == Step(old(world), Retry(t, f))
      ensures p.Last? <==> world.files[f].doom == Some(t)
      ensures p.Again? ==> t in world.files[f].active && world.files[f].active[t] == Dec(now)
      ensures p == (if old(refc)[f] != v then Again else if v == 1 then Last else Done) && tags == old(tags) && list == old(list)
      ensures refc == (if p.Again? then old(refc) else old(refc)[f := v - 1]) && now == refc[f]
    {
      now := refc[f];
      if now != v {
        world := Step(world, Retry(t, f));
        return Again, now;
      }
      StoreCount(f, v - 1, Swap(world.files[f], t), world.lookup);
      return if v - 1 == 0 then Last else Done, v - 1;
    }

    /** TAILQ_REMOVE under the mutex. */
    method RemoveFile(t: Tid, f: Fid)
      requires Valid() && Enabled(world, Remove(t, f))
      modifies this
      ensures Valid() && world == Step(old(world), Remove(t, f)) && Enabled(world, Free(t, f))
      ensures tags == old(tags) && refc == old(refc) && exists k: nat :: TakenOut(old(list), f, k, list)
    {
      StepKeeps(world, Remove(t, f));
      assert Distinct(list) && f in list;
      WithoutTakesOut(list, f);
      RemovePlain(t, f);
    }

    method RemovePlain(t: Tid, f: Fid)
      requires Mirrored() && Enabled(world, Remove(t, f)) && Listed(Step(world, Remove(t, f)))
      modifies this
      ensures Mirrored() && world == Step(old(world), Remove(t, f))
      ensures tags == old(tags) && refc == old(refc) && list == Without(old(list), f)
    {
      world := Step(world, Remove(t, f));
      list := Without(list, f);
    }

    /** file_free. */
    method FreeFile(t: Tid, f: Fid)
      requires Valid() && Enabled(world, Free(t, f))
      modifies this
      ensures Valid() && world == Step(old(world), Free(t, f))
      ensures tags == old(tags) - {f} && refc == old(refc) - {f} && list == old(list)
    {
      StepKeeps(world, Free(t, f));
      FreePlain(t, f);
    }

    method FreePlain(t: Tid, f: Fid)
      requires Mirrored() && Enabled(world, Free(t, f)) && Listed(Step(world, Free(t, f)))
      modifies this
      ensures Mirrored() && world == Step(old(world), Free(t, f))
      ensures tags == old(tags) - {f} && refc == old(refc) - {f} && list == old(list)
    {
      world := Step(world, Free(t, f));
      tags := tags - {f};
      refc := refc - {f};
    }
  }
}
