/**
 The two demands the commit protocol makes of its caller are exact: a header
 counter that wraps loses the sync, and a write past the end of the file leaves
 a tree that cannot be reopened.
 */
module HTreeLimits {
  import opened Common
  import opened HTreeModel
  import opened HTreeSync
  import opened HTreeCommit
  import opened HTreeAuth

  lemma ShowsUnique(c: Crypto, d: Disk, t: Tree, f: File, g: File)
    requires Shows(c, d, t, f) && Shows(c, d, t, g)
    ensures f == g
  {
    forall n: nat
      ensures n in f.blocks <==> n in g.blocks
      ensures n in f.blocks ==> f.blocks[n] == g.blocks[n]
    {}
    assert f.blocks == g.blocks;
  }

  lemma WrapFacts()
    ensures NextCounter(COUNTER_LIMIT - 1) == 0 && Odd(COUNTER_LIMIT - 1) && !Odd(0)
  {}

  /** At the counter limit the new header is older than the one it should replace. */
  lemma WrappedSyncKeepsOld(c: Crypto, s: System, spec: Spec, k: Commit, iv: Iv)
    requires InvFor(c, s, spec, k) && s.tree.dirty && s.tree.head.counter == COUNTER_LIMIT - 1
    ensures Persistent(c, ApplyAll(s.disk, SyncTree(c, s.tree, iv).1), k, spec.committed)
  {
    var p := SyncPass(c, s.tree);
    var h := SyncTree(c, s.tree, iv).0.head;
    WrapFacts();
    assert h.counter == 0;
    SyncPrefixKeeps(c, s, spec, k, |p.writes|);
    assert p.writes[..|p.writes|] == p.writes;
    ApplyLast(s.disk, p.writes, WriteHead(Odd(h.counter), h));
    AvoidKeeps(c, ApplyAll(s.disk, p.writes), k, spec.committed, WriteHead(Odd(h.counter), h));
  }

  /** A sync of new content takes effect exactly when the counter does not wrap. */
  lemma SyncEffectiveIff(c: Crypto, s: System, spec: Spec, iv: Iv)
    requires Lawful(c) && Inv(c, s, spec) && spec.working != spec.committed
    requires s.tree.head.counter < COUNTER_LIMIT
    ensures var d := ApplyAll(s.disk, SyncTree(c, s.tree, iv).1);
            && Open(c, d).Ok?
            && (Shows(c, d, Open(c, d).value, spec.working) <==> s.tree.head.counter != COUNTER_LIMIT - 1)
            && (Shows(c, d, Open(c, d).value, spec.committed) <==> s.tree.head.counter == COUNTER_LIMIT - 1)
  {
    var k :| InvFor(c, s, spec, k);
    var d := ApplyAll(s.disk, SyncTree(c, s.tree, iv).1);
    var k', f := k, spec.committed;
    if s.tree.head.counter == COUNTER_LIMIT - 1 {
      WrappedSyncKeepsOld(c, s, spec, k, iv);
    } else {
      SyncCommits(c, s, spec, k, iv);
      k', f := NewCommit(SyncTree(c, s.tree, iv).0), spec.working;
    }
    OpenFindsCommit(c, d, k', f);
    var t := Reopened(c, k');
    LiveShows(c, d, t, f);
    if Shows(c, d, t, spec.working) && Shows(c, d, t, spec.committed) {
      ShowsUnique(c, d, t, spec.working, spec.committed);
    }
  }

  // ----- gaps

  lemma {:induction false} MissingNodeFails(d: Disk, nodes: seq<Node>, maxNodeId: nat, j: nat)
    requires 1 <= |nodes| < j <= maxNodeId && (j, false) !in d.nodes && (j, true) !in d.nodes
    ensures LoadNodes(d, nodes, maxNodeId).Err?
    decreases maxNodeId - |nodes|
  {
    var id := |nodes| + 1;
    var r := ReadNode(d, id, Image(nodes, id/2).flags.Child(Odd(id)));
    if r.Ok? {
      MissingNodeFails(d, nodes + [CleanNode(r.value)], maxNodeId, j);
    }
  }

  /** A fresh file: nothing on disk beyond the nodes of the tree. */
  ghost predicate NoLeftovers(s: System) {
    forall id: nat, v: bool :: id > |s.tree.nodes| ==> (id, v) !in s.disk.nodes
  }

  /** The tree after a write that skips over node num. */
  ghost predicate Gapped(t: Tree, num: nat) {
    && Shaped(t) && 1 < num && |t.nodes| == num + 1 && t.imeta.maxNodeId == num + 1
    && t.dirty && t.nodes[num].dirty && !t.nodes[num-1].dirty && BlocksDirty(t.nodes)
  }

  lemma GappedWrites(c: Crypto, t: Tree, num: nat)
    requires Gapped(t, num)
    ensures var p := SyncPass(c, t);
            && (forall i :: 0 <= i < |p.writes| ==>
                  && p.writes[i].WriteNode? && p.writes[i].id != num
                  && (p.writes[i].id == 1 ==> p.writes[i].nodeVers == !Odd(t.head.counter) && p.writes[i].image == Image(p.nodes, 1)))
            && Wrote(p.writes, 1)
  {
    var p := SyncPass(c, t);
    var e := SyncEnv(c, t.imeta.meta, t.head.counter);
    SyncFromEffect(e, t.nodes, 1);
    UnderRoot(num + 1);
    DirtyMeansPending(t.nodes, num + 1, 1);
    assert !Pending(t.nodes, num);
    forall i | 0 <= i < |p.writes|
      ensures p.writes[i].WriteNode? && p.writes[i].id != num
      ensures p.writes[i].id == 1 ==> p.writes[i].nodeVers == !Odd(t.head.counter) && p.writes[i].image == Image(p.nodes, 1)
    {
      assert GoodWrite(e, t.nodes, p.nodes, 1, p.writes[i]);
    }
    assert Under(1, 1) && Wrote(p.writes, 1);
  }

  lemma GappedDisk(c: Crypto, d: Disk, t: Tree, num: nat)
    requires Gapped(t, num)
    ensures var p := SyncPass(c, t);
            var d1 := ApplyAll(d, p.writes);
            && ((num, false) in d1.nodes <==> (num, false) in d.nodes) && ((num, true) in d1.nodes <==> (num, true) in d.nodes)
            && (1, !Odd(t.head.counter)) in d1.nodes && d1.nodes[(1, !Odd(t.head.counter))] == Image(p.nodes, 1)
            && d1.heads == d.heads
  {
    var p := SyncPass(c, t);
    GappedWrites(c, t, num);
    NodeWritesOnly(d, p.writes);
    OtherCells(d, p.writes, (num, false));
    OtherCells(d, p.writes, (num, true));
    var i :| 0 <= i < |p.writes| && p.writes[i].WriteNode? && p.writes[i].id == 1;
    assert WritesCell(p.writes[i], (1, !Odd(t.head.counter)));
    WrittenCell(d, p.writes, (1, !Odd(t.head.counter)), Image(p.nodes, 1));
  }

  /** The header of the sync is found and opens; what follows is loading the nodes. */
  lemma GappedStart(c: Crypto, s: System, k: Commit, num: nat, iv: Iv)
    requires Lawful(c) && Gapped(s.tree, num) && HeadsSelect(s.disk, k.head)
    requires s.tree.head == k.head && s.tree.fek == c.unwrap(k.head.encFek)
    requires s.tree.head.counter + 1 < COUNTER_LIMIT
    ensures var p := SyncPass(c, s.tree);
            var d := ApplyAll(s.disk, SyncTree(c, s.tree, iv).1);
            var start := Start(SyncTree(c, s.tree, iv).0.head, Image(p.nodes, 1));
            && Open(c, d) == OpenFrom(c, d, start) && VerifyRoot(c, start) == Ok(s.tree.imeta)
            && ((num, false) in d.nodes <==> (num, false) in s.disk.nodes)
            && ((num, true) in d.nodes <==> (num, true) in s.disk.nodes)
  {
    var t, p := s.tree, SyncPass(c, s.tree);
    var h := SyncTree(c, t, iv).0.head;
    GappedDisk(c, s.disk, t, num);
    ApplyLast(s.disk, p.writes, WriteHead(Odd(h.counter), h));
    var d := Apply(ApplyAll(s.disk, p.writes), WriteHead(Odd(h.counter), h));
    assert HeadsSelect(d, h);
    assert InitHead(d) == Ok(Start(h, Image(p.nodes, 1)));
    NewHeadOpens(c, t.(nodes := p.nodes), iv);
  }

  lemma GappedSyncFails(c: Crypto, s: System, k: Commit, num: nat, iv: Iv)
    requires Lawful(c) && Gapped(s.tree, num) && HeadsSelect(s.disk, k.head)
    requires s.tree.head == k.head && s.tree.fek == c.unwrap(k.head.encFek)
    requires s.tree.head.counter + 1 < COUNTER_LIMIT
    requires (num, false) !in s.disk.nodes && (num, true) !in s.disk.nodes
    ensures Open(c, ApplyAll(s.disk, SyncTree(c, s.tree, iv).1)).Err?
  {
    GappedStart(c, s, k, num, iv);
    var d := ApplyAll(s.disk, SyncTree(c, s.tree, iv).1);
    MissingNodeFails(d, [CleanNode(Image(SyncPass(c, s.tree).nodes, 1))], s.tree.imeta.maxNodeId, num);
  }

  // ----- gaps and the hashes

  /** A clean node of a gapped tree is the committed one, or has never been hashed. */
  ghost predicate GapTree(c: Crypto, t: Tree, k: Commit, num: nat) {
    && Gapped(t, num) && |k.nodes| < num && HashesMatch(c, k.nodes, k.imeta.meta)
    && forall i {:trigger t.nodes[i]} :: 0 <= i < num && !t.nodes[i].dirty ==>
      if i < |k.nodes| then t.nodes[i].image == k.nodes[i].image else t.nodes[i].image.hash == FRESH_NODE.image.hash
  }

  /** Nodes r that check and have the root hash of the synced tree. */
  ghost predicate Passes(c: Crypto, t: Tree, p: Synced, r: seq<Node>) {
    && WholePass(SyncEnv(c, t.imeta.meta, t.head.counter), t.nodes, p)
    && |r| == |t.nodes| >= 1 && HashesMatch(c, r, t.imeta.meta) && Image(r, 1).hash == Image(p.nodes, 1).hash
  }

  /** Below a rehashed node the loaded hashes are those of the pass. */
  lemma ChildOfPending(c: Crypto, t: Tree, p: Synced, r: seq<Node>, q: nat, id: nat)
    requires GoodHash(c) && Passes(c, t, p, r) && Has(t.nodes, q) && Pending(t.nodes, q)
    requires (id == 2*q || id == 2*q+1) && Has(t.nodes, id) && Image(r, q).hash == Image(p.nodes, q).hash
    ensures Image(r, id).hash == Image(p.nodes, id).hash
  {
    var m := t.imeta.meta;
    assert Settled(SyncEnv(c, m, t.head.counter), t.nodes, p.nodes, q);
    assert Image(p.nodes, q).hash == NodeHash(c, p.nodes, q, m) == c.hash(InputOf(p.nodes, q, m));
    assert Image(r, q).hash == NodeHash(c, r, q, m) == c.hash(InputOf(r, q, m));
    assert HashAt(r, id) == HashAt(p.nodes, id);
  }

  /** Below a node that was not touched they are the committed ones, and there is no child beyond the commit. */
  lemma ChildOfQuiet(c: Crypto, t: Tree, k: Commit, num: nat, p: Synced, r: seq<Node>, q: nat, id: nat)
    requires GoodHash(c) && Passes(c, t, p, r) && GapTree(c, t, k, num) && 1 <= q < id <= num && !Pending(t.nodes, q)
    requires (id == 2*q || id == 2*q+1) && Image(r, q).hash == Image(p.nodes, q).hash
    ensures Image(r, id).hash == Image(p.nodes, id).hash
  {
    var m, e := t.imeta.meta, SyncEnv(c, t.imeta.meta, t.head.counter);
    assert Settled(e, t.nodes, p.nodes, q) && Settled(e, t.nodes, p.nodes, id);
    assert !t.nodes[q-1].dirty && !Pending(t.nodes, id) && !t.nodes[id-1].dirty;
    assert Image(r, q).hash == NodeHash(c, r, q, m) == c.hash(InputOf(r, q, m));
    assert q <= |k.nodes|;
    assert Image(k.nodes, q).hash == NodeHash(c, k.nodes, q, k.imeta.meta) == c.hash(InputOf(k.nodes, q, k.imeta.meta));
    assert HashAt(r, id) == HashAt(k.nodes, id);
    assert t.nodes[id-1].image == k.nodes[id-1].image;
  }

  lemma {:induction false} PathHash(c: Crypto, t: Tree, k: Commit, num: nat, p: Synced, r: seq<Node>, id: nat)
    requires GoodHash(c) && Passes(c, t, p, r) && GapTree(c, t, k, num) && 1 <= id <= num && Under(num, id)
    ensures Image(r, id).hash == Image(p.nodes, id).hash
    decreases id
  {
    if id > 1 {
      var q := id / 2;
      UnderTransOne(num, id, q);
      PathHash(c, t, k, num, p, r, q);
      if Pending(t.nodes, q) {
        ChildOfPending(c, t, p, r, q, id);
      } else {
        ChildOfQuiet(c, t, k, num, p, r, q, id);
      }
    }
  }

  /** The gap node itself was never hashed, so nothing loaded from storage can pass for the synced tree. */
  lemma GapHashesFail(c: Crypto, t: Tree, k: Commit, num: nat, r: seq<Node>)
    requires GoodHash(c) && GapTree(c, t, k, num) && |r| == |t.nodes|
    requires Image(r, 1).hash == Image(SyncPass(c, t).nodes, 1).hash
    ensures !HashesMatch(c, r, t.imeta.meta)
  {
    var m, p, e := t.imeta.meta, SyncPass(c, t), SyncEnv(c, t.imeta.meta, t.head.counter);
    EffectIsWhole(e, t.nodes);
    assert Settled(e, t.nodes, p.nodes, num) && !Pending(t.nodes, num);
    assert t.nodes[num-1].image.hash == FRESH_NODE.image.hash == Image(p.nodes, num).hash;
    assert NodeHash(c, r, num, m) == c.hash(InputOf(r, num, m));
    if HashesMatch(c, r, m) {
      PathHash(c, t, k, num, p, r, num);
    }
  }

  lemma GapSyncFails(c: Crypto, s: System, k: Commit, num: nat, iv: Iv)
    requires Lawful(c) && GoodHash(c) && GapTree(c, s.tree, k, num) && HeadsSelect(s.disk, k.head)
    requires s.tree.head == k.head && s.tree.fek == c.unwrap(k.head.encFek)
    requires s.tree.head.counter + 1 < COUNTER_LIMIT
    ensures Open(c, ApplyAll(s.disk, SyncTree(c, s.tree, iv).1)).Err?
  {
    GappedStart(c, s, k, num, iv);
    var d := ApplyAll(s.disk, SyncTree(c, s.tree, iv).1);
    var root := CleanNode(Image(SyncPass(c, s.tree).nodes, 1));
    var load := LoadNodes(d, [root], s.tree.imeta.maxNodeId);
    if load.Ok? {
      assert load.value[0] == [root][0];
      GapHashesFail(c, s.tree, k, num, load.value);
    }
  }

  /** A write beyond the next free node, seen as a gapped tree. */
  lemma WriteLeavesGap(c: Crypto, s: System, spec: Spec, k: Commit, num: nat, data: Data, iv: Iv)
    requires InvFor(c, s, spec, k) && num > |s.tree.nodes| >= 1
    ensures var w := WriteBlockTo(c, s.tree, num, data, iv);
      GapTree(c, w.0, k, num) && w.0.head == s.tree.head && w.0.fek == s.tree.fek
      && ApplyAll(s.disk, w.1) == s.disk.(blocks := ApplyAll(s.disk, w.1).blocks)
  {
    var w := WriteBlockTo(c, s.tree, num, data, iv);
    assert w.1 == [] + w.1;
    ApplyLast(s.disk, [], w.1[0]);
    forall i | 0 <= i < num && !w.0.nodes[i].dirty
      ensures if i < |k.nodes| then w.0.nodes[i].image == k.nodes[i].image else w.0.nodes[i].image.hash == FRESH_NODE.image.hash
    {
      if i < |s.tree.nodes| { assert w.0.nodes[i] == s.tree.nodes[i]; }
    }
  }

  /** Write then sync survives a reopen exactly when the write left no gap, whatever the storage held before. */
  lemma WriteReopensIff(c: Crypto, s: System, spec: Spec, num: nat, data: Data, iv0: Iv, iv1: Iv)
    requires Lawful(c) && GoodHash(c) && Inv(c, s, spec) && |s.tree.nodes| >= 1
    requires s.tree.head.counter + 1 < COUNTER_LIMIT
    ensures var w := WriteBlockTo(c, s.tree, num, data, iv0);
            Open(c, ApplyAll(ApplyAll(s.disk, w.1), SyncTree(c, w.0, iv1).1)).Ok? <==> num <= |s.tree.nodes|
  {
    var k :| InvFor(c, s, spec, k);
    var op := WriteOp(num, data, iv0);
    var w := WriteBlockTo(c, s.tree, num, data, iv0);
    var s1 := System(ApplyAll(s.disk, w.1), w.0);
    if num <= |s.tree.nodes| {
      WriteStep(c, s, spec, k, op);
      SyncCommits(c, s1, SpecOp(spec, op), k, iv1);
      OpenFindsCommit(c, ApplyAll(s1.disk, SyncTree(c, w.0, iv1).1), NewCommit(SyncTree(c, w.0, iv1).0), SpecOp(spec, op).working);
    } else {
      WriteLeavesGap(c, s, spec, k, num, data, iv0);
      GapSyncFails(c, s1, k, num, iv1);
    }
  }

  /** For any hash at all, on a file without leftovers: write then sync survives a reopen exactly when the write left no gap. */
  lemma FreshWriteReopensIff(c: Crypto, s: System, spec: Spec, num: nat, data: Data, iv0: Iv, iv1: Iv)
    requires Lawful(c) && Inv(c, s, spec) && |s.tree.nodes| >= 1 && NoLeftovers(s)
    requires s.tree.head.counter + 1 < COUNTER_LIMIT
    ensures var w := WriteBlockTo(c, s.tree, num, data, iv0);
            Open(c, ApplyAll(ApplyAll(s.disk, w.1), SyncTree(c, w.0, iv1).1)).Ok? <==> num <= |s.tree.nodes|
  {
    var k :| InvFor(c, s, spec, k);
    var op := WriteOp(num, data, iv0);
    var w := WriteBlockTo(c, s.tree, num, data, iv0);
    var s1 := System(ApplyAll(s.disk, w.1), w.0);
    if num <= |s.tree.nodes| {
      WriteStep(c, s, spec, k, op);
      SyncCommits(c, s1, SpecOp(spec, op), k, iv1);
      OpenFindsCommit(c, ApplyAll(s1.disk, SyncTree(c, w.0, iv1).1), NewCommit(SyncTree(c, w.0, iv1).0), SpecOp(spec, op).working);
    } else {
      assert w.1 == [] + w.1;
      ApplyLast(s.disk, [], w.1[0]);
      GappedSyncFails(c, s1, k, num, iv1);
    }
  }

  // ----- the failing cases are reached

  /** A run of a new file, its last state and what it has promised. */
  ghost predicate Reaches(c: Crypto, s0: System, evs: seq<Event>, s: System, spec: Spec) {
    && |s0.tree.nodes| >= 1 && |s.tree.nodes| >= 1 && AllowedRun(c, s0, evs) && Run(c, s0, evs) == Ok(s)
    && spec == SpecRun(c, s0, Spec(EMPTY_FILE, EMPTY_FILE), evs) && Inv(c, s, spec)
  }

  lemma ReachesMore(c: Crypto, s0: System, evs: seq<Event>, s: System, spec: Spec, op: Op) returns (s2: System)
    requires Lawful(c) && Reaches(c, s0, evs, s, spec) && Allowed(s.tree, op)
    ensures var r := TreeOp(c, s.tree, op); s2 == System(ApplyAll(s.disk, r.1), r.0)
    ensures Reaches(c, s0, evs + [Complete(op)], s2, SpecOp(spec, op))
  {
    RunMore(c, s0, Spec(EMPTY_FILE, EMPTY_FILE), evs, op);
    CompleteStep(c, s, spec, op);
    s2 := Step(c, s, Complete(op)).value;
  }

  lemma NewFileReaches(c: Crypto, fek: Key, iv: Iv)
    requires Lawful(c)
    ensures Reaches(c, Created(c, fek, iv), [], Created(c, fek, iv), Spec(EMPTY_FILE, EMPTY_FILE))
    ensures Created(c, fek, iv).tree.head.counter == 1 && |Created(c, fek, iv).tree.nodes| == 1
  {
    CreateEstablishes(c, fek, iv);
  }

  /** Touching the metadata and syncing moves the counter by one. */
  lemma OneMoreSync(c: Crypto, s0: System, evs: seq<Event>, s: System, f: File, iv: Iv)
    returns (evs2: seq<Event>, s2: System)
    requires Lawful(c) && Reaches(c, s0, evs, s, Spec(f, f)) && s.tree.head.counter + 1 < COUNTER_LIMIT
    ensures Reaches(c, s0, evs2, s2, Spec(f, f)) && s2.tree.head.counter == s.tree.head.counter + 1
  {
    var s1 := ReachesMore(c, s0, evs, s, Spec(f, f), MetaOp(f.meta));
    var evs1 := evs + [Complete(MetaOp(f.meta))];
    assert SpecOp(Spec(f, f), MetaOp(f.meta)) == Spec(f, f);
    s2 := ReachesMore(c, s0, evs1, s1, Spec(f, f), SyncOp(iv));
    evs2 := evs1 + [Complete(SyncOp(iv))];
  }

  /** A run of metadata changes and syncs takes the counter to any value below the limit. */
  lemma {:induction false} CounterReaches(c: Crypto, fek: Key, iv: Iv, n: nat) returns (evs: seq<Event>, s: System, f: File)
    requires Lawful(c) && 1 <= n < COUNTER_LIMIT
    ensures Reaches(c, Created(c, fek, iv), evs, s, Spec(f, f)) && s.tree.head.counter == n
  {
    if n == 1 {
      NewFileReaches(c, fek, iv);
      evs, s, f := [], Created(c, fek, iv), EMPTY_FILE;
    } else {
      evs, s, f := CounterReaches(c, fek, iv, n - 1);
      evs, s := OneMoreSync(c, Created(c, fek, iv), evs, s, f, iv);
    }
  }

  /** A run ends with the counter at its limit and content to sync, and that sync is lost. */
  lemma WrapLosesSync(c: Crypto, fek: Key, iv: Iv) returns (evs: seq<Event>, s: System, spec: Spec)
    requires Lawful(c)
    ensures Reaches(c, Created(c, fek, iv), evs, s, spec) && spec.working != spec.committed
    ensures var d := ApplyAll(s.disk, SyncTree(c, s.tree, iv).1);
      Open(c, d).Ok? && !Shows(c, d, Open(c, d).value, spec.working) && Shows(c, d, Open(c, d).value, spec.committed)
  {
    var f;
    evs, s, f := CounterReaches(c, fek, iv, COUNTER_LIMIT - 1);
    var op := MetaOp(Meta(f.meta.length + 1));
    s := ReachesMore(c, Created(c, fek, iv), evs, s, Spec(f, f), op);
    evs, spec := evs + [Complete(op)], SpecOp(Spec(f, f), op);
    SyncEffectiveIff(c, s, spec, iv);
  }

  // ----- two root versions with one hash

  /** A tree of the root alone, with nothing to load when it is opened. */
  predicate RootOnly(t: Tree) {
    |t.nodes| == 1 && t.imeta.maxNodeId <= 1
  }

  /** The root of such a tree after a sync; its hash depends on its other fields and the metadata only. */
  function SyncedRoot(c: Crypto, im: NodeImage, meta: Meta): NodeImage {
    im.(hash := c.hash(HashInput(im.iv, im.tag, im.flags, Some(meta), None, None)))
  }

  lemma SyncRootOnly(c: Crypto, t: Tree, iv: Iv)
    requires RootOnly(t) && t.dirty && t.nodes[0].dirty
    ensures var root, r := SyncedRoot(c, t.nodes[0].image, t.imeta.meta), SyncTree(c, t, iv);
      && r.0 == t.(nodes := [CleanNode(root)], head := r.0.head, dirty := false)
      && r.0.head == NewHead(c, t.(nodes := [CleanNode(root)]), iv)
      && r.1 == [WriteNode(1, !Odd(t.head.counter), root), WriteHead(Odd(r.0.head.counter), r.0.head)]
  {
    var e := SyncEnv(c, t.imeta.meta, t.head.counter);
    var p := SyncNode(e, t.nodes, 1);
    assert p.nodes == [CleanNode(SyncedRoot(c, t.nodes[0].image, t.imeta.meta))];
    assert SyncFrom(e, t.nodes, 1) == Synced(p.nodes, [] + [] + p.writes);
  }

  /** The disk after such a sync. */
  lemma SyncRootDisk(c: Crypto, d: Disk, t: Tree, iv: Iv)
    requires RootOnly(t) && t.dirty && t.nodes[0].dirty
    ensures var root, r := SyncedRoot(c, t.nodes[0].image, t.imeta.meta), SyncTree(c, t, iv);
      ApplyAll(d, r.1) == Disk(d.heads[Odd(r.0.head.counter) := r.0.head], d.nodes[(1, !Odd(t.head.counter)) := root], d.blocks)
  {
    SyncRootOnly(c, t, iv);
    var ws := SyncTree(c, t, iv).1;
    assert ws[..1] == [ws[0]] && [ws[0]][..0] == [];
    assert ApplyAll(d, [ws[0]]) == Apply(ApplyAll(d, []), ws[0]);
  }

  /** Touching and syncing a tree of the root alone. */
  function TouchSync(c: Crypto, s: System, iv: Iv): System
    requires |s.tree.nodes| >= 1
  {
    var t := SetMeta(s.tree, s.tree.imeta.meta);
    var r := SyncTree(c, t, iv);
    System(ApplyAll(s.disk, r.1), r.0)
  }

  lemma TouchSyncIs(c: Crypto, s: System, iv: Iv)
    requires RootOnly(s.tree) && s.tree.head.counter + 1 < COUNTER_LIMIT
    ensures var u, v, root := TouchSync(c, s, iv), Odd(s.tree.head.counter + 1), SyncedRoot(c, s.tree.nodes[0].image, s.tree.imeta.meta);
      && RootOnly(u.tree) && u.tree.nodes == [CleanNode(root)] && u.tree.imeta == s.tree.imeta && u.tree.fek == s.tree.fek
      && u.tree.head.counter == s.tree.head.counter + 1 && u.tree.head.encFek == s.tree.head.encFek
      && u.tree.head == NewHead(c, s.tree.(nodes := [CleanNode(root)]), iv)
      && u.disk == Disk(s.disk.heads[v := u.tree.head], s.disk.nodes[(1, v) := root], s.disk.blocks)
  {
    var t := SetMeta(s.tree, s.tree.imeta.meta);
    SyncRootOnly(c, t, iv);
    SyncRootDisk(c, s.disk, t, iv);
  }

  /** Two such syncs from an odd counter: the hash of the last commit opens the header before it. */
  lemma SameHashOpensOlder(c: Crypto, s: System, iv: Iv)
    requires Lawful(c) && RootOnly(s.tree) && Odd(s.tree.head.counter) && s.tree.head.counter + 2 < COUNTER_LIMIT
    requires s.tree.fek == c.unwrap(s.tree.head.encFek)
    ensures var u := TouchSync(c, s, iv);
      && |u.tree.nodes| >= 1
      && var v := TouchSync(c, u, iv);
      && Has(v.tree.nodes, 1)
      && var r := OpenWith(c, v.disk, Image(v.tree.nodes, 1).hash);
      && r.Ok? && r.value.head == u.tree.head && r.value.head.counter + 1 == v.tree.head.counter
      && r.value.nodes == v.tree.nodes && r.value.imeta == v.tree.imeta
  {
    var u := TouchSync(c, s, iv);
    TouchSyncIs(c, s, iv);
    var v := TouchSync(c, u, iv);
    TouchSyncIs(c, u, iv);
    var root := SyncedRoot(c, s.tree.nodes[0].image, s.tree.imeta.meta);
    assert SyncedRoot(c, root, s.tree.imeta.meta) == root;
    assert v.disk.heads[false] == u.tree.head && v.disk.nodes[(1, false)] == root;
    assert InitHeadWith(v.disk, root.hash) == Ok(Start(u.tree.head, root));
    OpenRootOnly(c, v.disk, s.tree.(nodes := [CleanNode(root)]), iv);
  }

  /** Opening a header that was sealed over a verified root alone. */
  lemma OpenRootOnly(c: Crypto, d: Disk, t: Tree, iv: Iv)
    requires Lawful(c) && RootOnly(t) && t.nodes[0] == CleanNode(SyncedRoot(c, t.nodes[0].image, t.imeta.meta))
    requires t.fek == c.unwrap(t.head.encFek)
    ensures var h := NewHead(c, t, iv);
      OpenFrom(c, d, Start(h, t.nodes[0].image)) == Ok(Tree(t.nodes, h, t.fek, t.imeta, false))
  {
    var h := NewHead(c, t, iv);
    assert VerifyRoot(c, Start(h, t.nodes[0].image)) == Ok(t.imeta);
    assert t.nodes == [CleanNode(t.nodes[0].image)];
    assert HashesMatch(c, t.nodes, t.imeta.meta);
  }

  /** A new file, touched and synced twice, opened by its root hash: the header before the last. */
  lemma StaleHeaderOpens(c: Crypto, fek: Key, iv: Iv) returns (evs: seq<Event>, s: System)
    requires Lawful(c)
    ensures Reaches(c, Created(c, fek, iv), evs, s, Spec(EMPTY_FILE, EMPTY_FILE)) && Has(s.tree.nodes, 1)
    ensures var r := OpenWith(c, s.disk, Image(s.tree.nodes, 1).hash);
      r.Ok? && Open(c, s.disk).Ok? && r.value.head.counter == 2 && Open(c, s.disk).value.head.counter == 3
  {
    var s0 := Created(c, fek, iv);
    NewFileReaches(c, fek, iv);
    CreatedTree(c, fek, iv);
    var u;
    evs, u := OneMoreTouch(c, s0, [], s0, iv);
    TouchSyncIs(c, s0, iv);
    evs, s := OneMoreTouch(c, s0, evs, u, iv);
    TouchSyncIs(c, u, iv);
    SameHashOpensOlder(c, s0, iv);
    OpensOwnHead(c, s, Spec(EMPTY_FILE, EMPTY_FILE));
  }

  lemma CreatedTree(c: Crypto, fek: Key, iv: Iv)
    requires Lawful(c)
    ensures var t := Created(c, fek, iv).tree; RootOnly(t) && t.fek == c.unwrap(t.head.encFek) && t.imeta.meta == EMPTY_FILE.meta
  {
    SyncRootOnly(c, NewTree(c, fek), iv);
  }

  lemma OneMoreTouch(c: Crypto, s0: System, evs: seq<Event>, s: System, iv: Iv) returns (evs2: seq<Event>, s2: System)
    requires Lawful(c) && Reaches(c, s0, evs, s, Spec(EMPTY_FILE, EMPTY_FILE)) && s.tree.head.counter + 1 < COUNTER_LIMIT
    requires s.tree.imeta.meta == EMPTY_FILE.meta
    ensures s2 == TouchSync(c, s, iv) && Reaches(c, s0, evs2, s2, Spec(EMPTY_FILE, EMPTY_FILE))
  {
    var spec := Spec(EMPTY_FILE, EMPTY_FILE);
    var op := MetaOp(EMPTY_FILE.meta);
    var s1 := ReachesMore(c, s0, evs, s, spec, op);
    assert SpecOp(spec, op) == spec && ApplyAll(s.disk, []) == s.disk;
    s2 := ReachesMore(c, s0, evs + [Complete(op)], s1, spec, SyncOp(iv));
    evs2 := evs + [Complete(op)] + [Complete(SyncOp(iv))];
  }

  /** A clean file reopens under the header it has in memory. */
  lemma OpensOwnHead(c: Crypto, s: System, spec: Spec)
    requires Inv(c, s, spec)
    ensures Open(c, s.disk).Ok? && Open(c, s.disk).value.head == s.tree.head
  {
    var k :| InvFor(c, s, spec, k);
    OpenFindsCommit(c, s.disk, k, spec.committed);
  }

  /** On a new file, writing block 2 before block 1 and syncing leaves a file that does not open. */
  lemma GapLosesFile(c: Crypto, fek: Key, data: Data, iv: Iv)
    requires Lawful(c) && GoodHash(c)
    ensures var s := Created(c, fek, iv);
      && |s.tree.nodes| == 1
      && var w := WriteBlockTo(c, s.tree, 2, data, iv);
      Open(c, ApplyAll(ApplyAll(s.disk, w.1), SyncTree(c, w.0, iv).1)).Err?
  {
    var s := Created(c, fek, iv);
    CreateEstablishes(c, fek, iv);
    WriteReopensIff(c, s, Spec(EMPTY_FILE, EMPTY_FILE), 2, data, iv, iv);
  }
}
