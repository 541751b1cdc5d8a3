/**
 Crash atomicity of the hash tree.  The simple form is a file with a working
 and a committed content; the fast form is the tree on its two-version disk,
 where power may fail between any two element writes.  Every run of the second
 is a run of the first.
 */
module HTreeCommit {
  import opened Common
  import opened HTreeModel
  import opened HTreeSync

  // ----- the simple form

  datatype File = File(blocks: map<nat, Data>, meta: Meta)
  datatype Spec = Spec(working: File, committed: File)

  datatype Op =
    | WriteOp(num: nat, data: Data, iv: Iv)
    | MetaOp(meta: Meta)
    | SyncOp(iv: Iv)

  function SpecOp(s: Spec, op: Op): Spec {
    match op
    case WriteOp(num, data, _) => s.(working := s.working.(blocks := s.working.blocks[num := data]))
    case MetaOp(meta) => s.(working := s.working.(meta := meta))
    case SyncOp(_) => s.(committed := s.working)
  }

  // ----- the system

  datatype System = System(disk: Disk, tree: Tree)

  function TreeOp(c: Crypto, t: Tree, op: Op): (Tree, seq<Write>)
    requires |t.nodes| >= 1
  {
    match op
    case WriteOp(num, data, iv) => WriteBlockTo(c, t, num, data, iv)
    case MetaOp(meta) => (SetMeta(t, meta), [])
    case SyncOp(iv) => SyncTree(c, t, iv)
  }

  /** An operation either completes, or power fails after its first `done` writes and the file is reopened. */
  datatype Event = Complete(op: Op) | Crash(op: Op, done: nat)

  function Step(c: Crypto, s: System, ev: Event): Result<System>
    requires |s.tree.nodes| >= 1
  {
    var r := TreeOp(c, s.tree, ev.op);
    match ev
    case Complete(_) => Ok(System(ApplyAll(s.disk, r.1), r.0))
    case Crash(_, done) =>
      var d := ApplyAll(s.disk, r.1[..Min(done, |r.1|)]);
      match Open(c, d)
      case Ok(t) => Ok(System(d, t))
      case Err(e) => Err(e)
  }

  predicate HasHead(ws: seq<Write>) {
    exists k :: 0 <= k < |ws| && ws[k].WriteHead?
  }

  /** After a crash the working content is gone; the committed one is new exactly if the header got written. */
  function SpecStep(c: Crypto, s: System, spec: Spec, ev: Event): Spec
    requires |s.tree.nodes| >= 1
  {
    match ev
    case Complete(op) => SpecOp(spec, op)
    case Crash(op, done) =>
      var ws := TreeOp(c, s.tree, op).1;
      var kept := if HasHead(ws[..Min(done, |ws|)]) then SpecOp(spec, op).committed else spec.committed;
      Spec(kept, kept)
  }

  /** What the commit protocol asks of its caller: no gaps in the file, and a header counter that does not wrap. */
  predicate Allowed(t: Tree, op: Op) {
    && (op.WriteOp? ==> op.num <= |t.nodes|)
    && (op.SyncOp? ==> t.head.counter + 1 < COUNTER_LIMIT)
  }

  // ----- the invariant

  /** The last completed header write, with the tree it makes reachable. */
  datatype Commit = Commit(head: Head, imeta: Imeta, nodes: seq<Node>)

  function RootHashAad(c: Crypto, h: Head, root: NodeImage): Aad {
    HeadAad(c.trunc(root.hash), h.counter, h.encFek, h.iv)
  }

  ghost predicate HeadsSelect(d: Disk, h: Head) {
    var v := Odd(h.counter);
    && v in d.heads && d.heads[v] == h
    && !v in d.heads && Odd(d.heads[!v].counter) == !v && d.heads[!v].counter < h.counter
  }

  ghost predicate NodesOnDisk(d: Disk, nodes: seq<Node>, rootVers: bool) {
    forall id {:trigger NodeOnDisk(d, nodes, id, rootVers)} :: Has(nodes, id) ==> NodeOnDisk(d, nodes, id, rootVers)
  }

  ghost predicate NodeOnDisk(d: Disk, nodes: seq<Node>, id: nat, rootVers: bool)
    requires Has(nodes, id)
  {
    var cell := (id, Vers(nodes, id, rootVers));
    cell in d.nodes && d.nodes[cell] == Image(nodes, id)
  }

  ghost predicate BlockOnDisk(c: Crypto, d: Disk, im: NodeImage, encFek: Key, n: nat, blocks: map<nat, Data>) {
    var cell := (n, im.flags.block);
    if n in blocks then
      && cell in d.blocks
      && c.unsealData(c.unwrap(encFek), im.iv, NodeAad(encFek, im.iv), d.blocks[cell], im.tag) == Some(blocks[n])
    else cell !in d.blocks
  }

  ghost predicate BlocksOnDisk(c: Crypto, d: Disk, nodes: seq<Node>, encFek: Key, blocks: map<nat, Data>) {
    && (forall n :: n in blocks ==> n < |nodes|)
    && (forall n :: 0 <= n < |nodes| ==> BlockOnDisk(c, d, nodes[n].image, encFek, n, blocks))
  }

  ghost predicate CleanNodes(nodes: seq<Node>) {
    forall i :: 0 <= i < |nodes| ==> !nodes[i].dirty && !nodes[i].blockUpdated
  }

  /** The disk holds commit k, whose content is f, whatever else it holds. */
  ghost predicate Persistent(c: Crypto, d: Disk, k: Commit, f: File) {
    && |k.nodes| == Max(1, k.imeta.maxNodeId)
    && CleanNodes(k.nodes)
    && HeadsSelect(d, k.head)
    && c.unsealImeta(c.unwrap(k.head.encFek), k.head.iv, RootHashAad(c, k.head, Image(k.nodes, 1)), k.head.imeta, k.head.tag)
       == Some(k.imeta)
    && NodesOnDisk(d, k.nodes, Odd(k.head.counter))
    && HashesMatch(c, k.nodes, k.imeta.meta)
    && k.imeta.meta == f.meta
    && BlocksOnDisk(c, d, k.nodes, k.head.encFek, f.blocks)
  }

  /** A node in memory against its committed image: the same child versions, and another block version iff rewritten. */
  ghost predicate Tracks(im: NodeImage, n: Node) {
    && n.image.flags.child0 == im.flags.child0
    && n.image.flags.child1 == im.flags.child1
    && n.image.flags.block == (im.flags.block != n.blockUpdated)
    && (!n.dirty ==> n.image == im)
  }

  /** Nodes of the commit are tracked; nodes added since are dirty. */
  ghost predicate TracksAll(k: Commit, t: Tree) {
    && |k.nodes| <= |t.nodes|
    && (forall i :: 0 <= i < |t.nodes| ==>
          if i < |k.nodes| then Tracks(k.nodes[i].image, t.nodes[i]) else t.nodes[i].dirty)
  }

  ghost predicate Live(c: Crypto, d: Disk, t: Tree, k: Commit, f: File) {
    && Shaped(t) && TracksAll(k, t)
    && t.head == k.head && t.fek == c.unwrap(k.head.encFek)
    && t.imeta.meta == f.meta
    && BlocksDirty(t.nodes)
    && BlocksOnDisk(c, d, t.nodes, t.head.encFek, f.blocks)
    && (if t.dirty then exists i :: 0 <= i < |t.nodes| && t.nodes[i].dirty
        else CleanNodes(t.nodes) && t.imeta == k.imeta)
  }

  ghost predicate InvFor(c: Crypto, s: System, spec: Spec, k: Commit) {
    && Persistent(c, s.disk, k, spec.committed)
    && Live(c, s.disk, s.tree, k, spec.working)
    && (!s.tree.dirty ==> spec.working == spec.committed)
  }

  ghost predicate Inv(c: Crypto, s: System, spec: Spec) {
    exists k :: InvFor(c, s, spec, k)
  }

  // ----- writes that leave the commit alone

  ghost predicate Avoids(k: Commit, w: Write) {
    match w
    case WriteNode(id, v, _) => Has(k.nodes, id) ==> v != Vers(k.nodes, id, Odd(k.head.counter))
    case WriteBlock(n, v, _) => n < |k.nodes| ==> v != k.nodes[n].image.flags.block
    case WriteHead(v, h) => v != Odd(k.head.counter) && Odd(h.counter) == v && h.counter < k.head.counter
  }

  lemma AvoidKeeps(c: Crypto, d: Disk, k: Commit, f: File, w: Write)
    requires Persistent(c, d, k, f) && Avoids(k, w)
    ensures Persistent(c, Apply(d, w), k, f)
  {
    var d' := Apply(d, w);
    forall id: nat | Has(k.nodes, id)
      ensures NodeOnDisk(d', k.nodes, id, Odd(k.head.counter))
    {
      assert NodeOnDisk(d, k.nodes, id, Odd(k.head.counter));
    }
    forall n | 0 <= n < |k.nodes|
      ensures BlockOnDisk(c, d', k.nodes[n].image, k.head.encFek, n, f.blocks)
    {
      assert BlockOnDisk(c, d, k.nodes[n].image, k.head.encFek, n, f.blocks);
    }
  }

  lemma {:induction false} AvoidAllKeeps(c: Crypto, d: Disk, k: Commit, f: File, ws: seq<Write>)
    requires Persistent(c, d, k, f)
    requires forall i :: 0 <= i < |ws| ==> Avoids(k, ws[i])
    ensures Persistent(c, ApplyAll(d, ws), k, f)
    decreases |ws|
  {
    if ws != [] {
      AvoidAllKeeps(c, d, k, f, ws[..|ws|-1]);
      AvoidKeeps(c, ApplyAll(d, ws[..|ws|-1]), k, f, ws[|ws|-1]);
    }
  }

  // ----- reopening finds the commit

  lemma {:induction false} LoadFinds(d: Disk, nodes: seq<Node>, n: nat, maxNodeId: nat, rootVers: bool)
    requires 1 <= n <= |nodes| == Max(1, maxNodeId)
    requires CleanNodes(nodes) && NodesOnDisk(d, nodes, rootVers)
    ensures LoadNodes(d, nodes[..n], maxNodeId) == Ok(nodes)
    decreases |nodes| - n
  {
    if n == |nodes| {
      assert nodes[..n] == nodes;
    } else {
      assert NodeOnDisk(d, nodes, n + 1, rootVers);
      assert nodes[n] == CleanNode(nodes[n].image);
      assert nodes[..n] + [nodes[n]] == nodes[..n+1];
      LoadFinds(d, nodes, n + 1, maxNodeId, rootVers);
    }
  }

  function Reopened(c: Crypto, k: Commit): Tree {
    Tree(k.nodes, k.head, c.unwrap(k.head.encFek), k.imeta, false)
  }

  lemma OpenFindsCommit(c: Crypto, d: Disk, k: Commit, f: File)
    requires Persistent(c, d, k, f)
    ensures Open(c, d) == Ok(Reopened(c, k))
  {
    var v := Odd(k.head.counter);
    assert NodeOnDisk(d, k.nodes, 1, v);
    assert InitHead(d) == Ok(Start(k.head, Image(k.nodes, 1)));
    assert k.nodes[..1] == [CleanNode(Image(k.nodes, 1))];
    LoadFinds(d, k.nodes, 1, k.imeta.maxNodeId, v);
  }

  lemma ReopenedIsLive(c: Crypto, d: Disk, k: Commit, f: File)
    requires Persistent(c, d, k, f)
    ensures InvFor(c, System(d, Reopened(c, k)), Spec(f, f), k)
  {}

  // ----- what a sequence of writes does to one cell

  lemma ApplyLast(d: Disk, ws: seq<Write>, w: Write)
    ensures ApplyAll(d, ws + [w]) == Apply(ApplyAll(d, ws), w)
  {
    assert (ws + [w])[..|ws|] == ws;
  }

  ghost predicate WritesCell(w: Write, cell: (nat, bool)) {
    w.WriteNode? && (w.id, w.nodeVers) == cell
  }

  lemma {:induction false} OtherCells(d: Disk, ws: seq<Write>, cell: (nat, bool))
    requires forall i :: 0 <= i < |ws| ==> ws[i].WriteNode? && !WritesCell(ws[i], cell)
    ensures cell in ApplyAll(d, ws).nodes <==> cell in d.nodes
    ensures cell in d.nodes ==> ApplyAll(d, ws).nodes[cell] == d.nodes[cell]
    decreases |ws|
  {
    if ws != [] {
      var rest := ws[..|ws|-1];
      assert !WritesCell(ws[|ws|-1], cell);
      OtherCells(d, rest, cell);
    }
  }

  lemma {:induction false} WrittenCell(d: Disk, ws: seq<Write>, cell: (nat, bool), im: NodeImage)
    requires forall i :: 0 <= i < |ws| ==> ws[i].WriteNode? && (WritesCell(ws[i], cell) ==> ws[i].image == im)
    requires exists i :: 0 <= i < |ws| && WritesCell(ws[i], cell)
    ensures cell in ApplyAll(d, ws).nodes && ApplyAll(d, ws).nodes[cell] == im
    decreases |ws|
  {
    var rest, last := ws[..|ws|-1], ws[|ws|-1];
    assert WritesCell(last, cell) ==> last.image == im;
    if !WritesCell(last, cell) {
      var i :| 0 <= i < |ws| && WritesCell(ws[i], cell);
      assert rest[i] == ws[i];
      WrittenCell(d, rest, cell, im);
    }
  }

  lemma {:induction false} NodeWritesOnly(d: Disk, ws: seq<Write>)
    requires forall i :: 0 <= i < |ws| ==> ws[i].WriteNode?
    ensures ApplyAll(d, ws).heads == d.heads && ApplyAll(d, ws).blocks == d.blocks
    decreases |ws|
  {
    if ws != [] { NodeWritesOnly(d, ws[..|ws|-1]); }
  }

  // ----- one sync

  /** The state just before a sync that has something to write, and the pass over it. */
  ghost predicate Syncing(c: Crypto, d: Disk, t: Tree, k: Commit, e: SyncEnv, r: Synced) {
    && CleanNodes(k.nodes) && 1 <= |k.nodes| && TracksAll(k, t)
    && NodesOnDisk(d, k.nodes, Odd(k.head.counter))
    && HashesMatch(c, k.nodes, k.imeta.meta)
    && e == SyncEnv(c, t.imeta.meta, k.head.counter)
    && Pending(t.nodes, 1)
    && WholePass(e, t.nodes, r)
  }

  /** Effect at the root, where every node lies below. */
  ghost predicate WholePass(e: SyncEnv, nodes: seq<Node>, r: Synced) {
    && |r.nodes| == |nodes|
    && (forall id {:trigger Settled(e, nodes, r.nodes, id)} :: Has(nodes, id) ==> Settled(e, nodes, r.nodes, id))
    && (forall i {:trigger r.writes[i]} :: 0 <= i < |r.writes| ==> GoodWrite(e, nodes, r.nodes, 1, r.writes[i]))
    && (forall id {:trigger Wrote(r.writes, id)} :: Has(nodes, id) && Pending(nodes, id) ==> Wrote(r.writes, id))
  }

  lemma EffectIsWhole(e: SyncEnv, nodes: seq<Node>)
    requires |nodes| >= 1 && BlocksDirty(nodes)
    ensures WholePass(e, nodes, SyncFrom(e, nodes, 1))
  {
    var r := SyncFrom(e, nodes, 1);
    SyncFromEffect(e, nodes, 1);
    forall id: nat | Has(nodes, id)
      ensures Settled(e, nodes, r.nodes, id) && (Pending(nodes, id) ==> Wrote(r.writes, id))
    {
      UnderRoot(id);
    }
  }

  /** A node outside every dirty path is still the committed one, in place and in content. */
  lemma QuietNode(c: Crypto, d: Disk, t: Tree, k: Commit, e: SyncEnv, r: Synced, id: nat)
    requires Syncing(c, d, t, k, e, r) && Has(t.nodes, id) && !Pending(t.nodes, id)
    ensures 1 < id <= |k.nodes|
    ensures Image(r.nodes, id) == Image(k.nodes, id)
    ensures Vers(r.nodes, id, !Odd(k.head.counter)) == Vers(k.nodes, id, Odd(k.head.counter))
  {
    assert Settled(e, t.nodes, r.nodes, id);
    assert id > 1;
    VersionFollows(t, k, e, r, id);
  }

  /** The version bit of a node flips exactly when something below it is dirty. */
  lemma VersionFollows(t: Tree, k: Commit, e: SyncEnv, r: Synced, id: nat)
    requires |r.nodes| == |t.nodes| && 1 < id <= |k.nodes| <= |t.nodes|
    requires Settled(e, t.nodes, r.nodes, id/2)
    requires Tracks(k.nodes[id/2-1].image, t.nodes[id/2-1])
    ensures Vers(r.nodes, id, !Odd(k.head.counter)) == (Vers(k.nodes, id, Odd(k.head.counter)) != Pending(t.nodes, id))
  {
    var p := id/2;
    if Odd(id) { assert id == 2*p+1; } else { assert id == 2*p; }
  }

  lemma QuietHash(c: Crypto, d: Disk, t: Tree, k: Commit, e: SyncEnv, r: Synced, id: nat)
    requires Syncing(c, d, t, k, e, r) && Has(t.nodes, id) && !Pending(t.nodes, id)
    ensures Image(r.nodes, id).hash == NodeHash(c, r.nodes, id, t.imeta.meta)
  {
    QuietNode(c, d, t, k, e, r, id);
    assert !Pending(t.nodes, 2*id) && !Pending(t.nodes, 2*id+1);
    if Has(t.nodes, 2*id) { QuietNode(c, d, t, k, e, r, 2*id); }
    if Has(t.nodes, 2*id+1) { QuietNode(c, d, t, k, e, r, 2*id+1); }
    assert HashAt(r.nodes, 2*id) == HashAt(k.nodes, 2*id);
    assert HashAt(r.nodes, 2*id+1) == HashAt(k.nodes, 2*id+1);
    assert Image(k.nodes, id).hash == NodeHash(c, k.nodes, id, k.imeta.meta);
  }

  /** Incremental rehash refines full rehash. */
  lemma SyncRehashesAll(c: Crypto, d: Disk, t: Tree, k: Commit, e: SyncEnv, r: Synced)
    requires Syncing(c, d, t, k, e, r)
    ensures HashesMatch(c, r.nodes, t.imeta.meta)
    ensures CleanNodes(r.nodes)
  {
    forall id | 1 <= id <= |r.nodes|
      ensures Image(r.nodes, id).hash == NodeHash(c, r.nodes, id, t.imeta.meta)
    {
      assert Settled(e, t.nodes, r.nodes, id);
      if !Pending(t.nodes, id) { QuietHash(c, d, t, k, e, r, id); }
    }
    forall i | 0 <= i < |r.nodes|
      ensures !r.nodes[i].dirty && !r.nodes[i].blockUpdated
    {
      assert Settled(e, t.nodes, r.nodes, i + 1);
    }
  }

  lemma SyncWriteAvoids(c: Crypto, d: Disk, t: Tree, k: Commit, e: SyncEnv, r: Synced, w: Write)
    requires Syncing(c, d, t, k, e, r) && GoodWrite(e, t.nodes, r.nodes, 1, w)
    ensures Avoids(k, w)
  {
    if Has(k.nodes, w.id) && w.id > 1 {
      VersionFollows(t, k, e, r, w.id);
    }
  }

  lemma SyncedNodeOnDisk(c: Crypto, d: Disk, t: Tree, k: Commit, e: SyncEnv, r: Synced, id: nat)
    requires Syncing(c, d, t, k, e, r) && Has(t.nodes, id)
    ensures NodeOnDisk(ApplyAll(d, r.writes), r.nodes, id, !Odd(k.head.counter))
  {
    var cell := (id, Vers(r.nodes, id, !Odd(k.head.counter)));
    if Pending(t.nodes, id) {
      assert Wrote(r.writes, id);
      var i :| 0 <= i < |r.writes| && r.writes[i].WriteNode? && r.writes[i].id == id;
      assert GoodWrite(e, t.nodes, r.nodes, 1, r.writes[i]);
      assert WritesCell(r.writes[i], cell);
      WrittenCell(d, r.writes, cell, Image(r.nodes, id));
    } else {
      QuietNode(c, d, t, k, e, r, id);
      assert NodeOnDisk(d, k.nodes, id, Odd(k.head.counter));
      OtherCells(d, r.writes, cell);
    }
  }

  function SyncPass(c: Crypto, t: Tree): Synced
    requires |t.nodes| >= 1
  {
    SyncFrom(SyncEnv(c, t.imeta.meta, t.head.counter), t.nodes, 1)
  }

  lemma SyncStarts(c: Crypto, s: System, spec: Spec, k: Commit)
    requires InvFor(c, s, spec, k) && s.tree.dirty
    ensures Syncing(c, s.disk, s.tree, k, SyncEnv(c, s.tree.imeta.meta, k.head.counter), SyncPass(c, s.tree))
  {
    var t := s.tree;
    EffectIsWhole(SyncEnv(c, t.imeta.meta, t.head.counter), t.nodes);
    var i :| 0 <= i < |t.nodes| && t.nodes[i].dirty;
    UnderRoot(i + 1);
    DirtyMeansPending(t.nodes, i + 1, 1);
  }

  /** Until the header is written, the disk still holds the previous commit. */
  lemma SyncPrefixKeeps(c: Crypto, s: System, spec: Spec, k: Commit, n: nat)
    requires InvFor(c, s, spec, k) && s.tree.dirty && n <= |SyncPass(c, s.tree).writes|
    ensures Persistent(c, ApplyAll(s.disk, SyncPass(c, s.tree).writes[..n]), k, spec.committed)
    ensures !HasHead(SyncPass(c, s.tree).writes[..n])
  {
    var e, r := SyncEnv(c, s.tree.imeta.meta, k.head.counter), SyncPass(c, s.tree);
    SyncStarts(c, s, spec, k);
    forall i | 0 <= i < n
      ensures Avoids(k, r.writes[i]) && !r.writes[i].WriteHead?
    {
      assert GoodWrite(e, s.tree.nodes, r.nodes, 1, r.writes[i]);
      SyncWriteAvoids(c, s.disk, s.tree, k, e, r, r.writes[i]);
    }
    AvoidAllKeeps(c, s.disk, k, spec.committed, r.writes[..n]);
  }

  /** The blocks a sync commits are the ones the live tree names. */
  lemma BlocksSurvive(c: Crypto, d: Disk, d': Disk, e: SyncEnv, nodes: seq<Node>, r: Synced, encFek: Key, blocks: map<nat, Data>)
    requires BlocksOnDisk(c, d, nodes, encFek, blocks) && d'.blocks == d.blocks
    requires WholePass(e, nodes, r)
    ensures BlocksOnDisk(c, d', r.nodes, encFek, blocks)
  {
    forall n | 0 <= n < |r.nodes|
      ensures BlockOnDisk(c, d', r.nodes[n].image, encFek, n, blocks)
    {
      assert Settled(e, nodes, r.nodes, n + 1);
      assert BlockOnDisk(c, d, nodes[n].image, encFek, n, blocks);
    }
  }

  ghost function NewCommit(t': Tree): Commit {
    Commit(t'.head, t'.imeta, t'.nodes)
  }

  lemma NewHeadOpens(c: Crypto, t: Tree, iv: Iv)
    requires Lawful(c) && |t.nodes| >= 1 && t.fek == c.unwrap(t.head.encFek)
    ensures var h := NewHead(c, t, iv);
            c.unsealImeta(c.unwrap(h.encFek), h.iv, RootHashAad(c, h, Image(t.nodes, 1)), h.imeta, h.tag) == Some(t.imeta)
  {
    var aad := HeadAad(c.trunc(Image(t.nodes, 1).hash), NextCounter(t.head.counter), t.head.encFek, iv);
    var x := c.sealImeta(t.fek, iv, aad, t.imeta);
    assert c.unsealImeta(t.fek, iv, aad, x.0, x.1) == Some(t.imeta);
  }

  /** The disk after the node writes and the header write of a sync. */
  lemma SyncedDisk(c: Crypto, s: System, spec: Spec, k: Commit, iv: Iv)
    requires InvFor(c, s, spec, k) && s.tree.dirty
    requires s.tree.head.counter + 1 < COUNTER_LIMIT
    ensures var r := SyncTree(c, s.tree, iv);
            var d := ApplyAll(s.disk, r.1);
            && d.heads == s.disk.heads[Odd(r.0.head.counter) := r.0.head]
            && d.blocks == s.disk.blocks
            && NodesOnDisk(d, r.0.nodes, Odd(r.0.head.counter))
  {
    var t, e, p := s.tree, SyncEnv(c, s.tree.imeta.meta, k.head.counter), SyncPass(c, s.tree);
    var h := SyncTree(c, t, iv).0.head;
    SyncStarts(c, s, spec, k);
    forall i | 0 <= i < |p.writes| ensures p.writes[i].WriteNode? {
      assert GoodWrite(e, t.nodes, p.nodes, 1, p.writes[i]);
    }
    NodeWritesOnly(s.disk, p.writes);
    ApplyLast(s.disk, p.writes, WriteHead(Odd(h.counter), h));
    SyncedNodes(c, s, spec, k, h.counter);
    SameNodesOnDisk(ApplyAll(s.disk, p.writes), ApplyAll(s.disk, SyncTree(c, t, iv).1), p.nodes, Odd(h.counter));
  }

  lemma SameNodesOnDisk(d: Disk, d2: Disk, nodes: seq<Node>, v: bool)
    requires d.nodes == d2.nodes && NodesOnDisk(d, nodes, v)
    ensures NodesOnDisk(d2, nodes, v)
  {
    forall id: nat | Has(nodes, id) ensures NodeOnDisk(d2, nodes, id, v) {
      assert NodeOnDisk(d, nodes, id, v);
    }
  }

  lemma SyncedNodes(c: Crypto, s: System, spec: Spec, k: Commit, counter: nat)
    requires InvFor(c, s, spec, k) && s.tree.dirty && counter == k.head.counter + 1 < COUNTER_LIMIT
    ensures var p := SyncPass(c, s.tree); NodesOnDisk(ApplyAll(s.disk, p.writes), p.nodes, Odd(counter))
  {
    var t, e, p := s.tree, SyncEnv(c, s.tree.imeta.meta, k.head.counter), SyncPass(c, s.tree);
    SyncStarts(c, s, spec, k);
    forall id: nat | Has(p.nodes, id)
      ensures NodeOnDisk(ApplyAll(s.disk, p.writes), p.nodes, id, Odd(counter))
    {
      SyncedNodeOnDisk(c, s.disk, t, k, e, p, id);
    }
  }

  lemma SyncPersists(c: Crypto, s: System, spec: Spec, k: Commit, iv: Iv)
    requires Lawful(c) && InvFor(c, s, spec, k) && s.tree.dirty
    requires s.tree.head.counter + 1 < COUNTER_LIMIT
    ensures var r := SyncTree(c, s.tree, iv);
            Persistent(c, ApplyAll(s.disk, r.1), NewCommit(r.0), spec.working)
  {
    var t, e, p := s.tree, SyncEnv(c, s.tree.imeta.meta, k.head.counter), SyncPass(c, s.tree);
    var r := SyncTree(c, t, iv);
    var d := ApplyAll(s.disk, r.1);
    SyncStarts(c, s, spec, k);
    SyncRehashesAll(c, s.disk, t, k, e, p);
    SyncedDisk(c, s, spec, k, iv);
    NewHeadOpens(c, t.(nodes := p.nodes), iv);
    BlocksSurvive(c, s.disk, d, e, t.nodes, p, t.head.encFek, spec.working.blocks);
  }

  /** With the header written, the disk holds the working content. */
  lemma SyncCommits(c: Crypto, s: System, spec: Spec, k: Commit, iv: Iv)
    requires Lawful(c) && InvFor(c, s, spec, k) && s.tree.dirty
    requires s.tree.head.counter + 1 < COUNTER_LIMIT
    ensures var r := SyncTree(c, s.tree, iv);
            InvFor(c, System(ApplyAll(s.disk, r.1), r.0), Spec(spec.working, spec.working), NewCommit(r.0))
  {
    var r := SyncTree(c, s.tree, iv);
    SyncPersists(c, s, spec, k, iv);
    ReopenedIsLive(c, ApplyAll(s.disk, r.1), NewCommit(r.0), spec.working);
    assert r.0 == Reopened(c, NewCommit(r.0));
  }

  // ----- one write

  /** Only node num changes, and only its own block version. */
  lemma WriteTracks(c: Crypto, t: Tree, k: Commit, op: Op)
    requires op.WriteOp? && op.num <= |t.nodes| && 1 <= |t.nodes|
    requires TracksAll(k, t) && BlocksDirty(t.nodes) && Shaped(t)
    ensures var r := TreeOp(c, t, op);
            && TracksAll(k, r.0) && BlocksDirty(r.0.nodes) && Shaped(r.0)
            && r.0.nodes[op.num].dirty
            && |r.1| == 1 && r.1[0].WriteBlock? && Avoids(k, r.1[0])
  {
    var t' := TreeOp(c, t, op).0;
    if op.num < |k.nodes| {
      assert Tracks(k.nodes[op.num].image, t.nodes[op.num]);
      assert Tracks(k.nodes[op.num].image, t'.nodes[op.num]);
    }
    forall i | 0 <= i < |t'.nodes| && i != op.num
      ensures i < |t.nodes| && t'.nodes[i] == t.nodes[i]
    {}
  }

  lemma WriteKeepsBlocks(c: Crypto, d: Disk, t: Tree, blocks: map<nat, Data>, op: Op)
    requires Lawful(c) && op.WriteOp? && op.num <= |t.nodes| && 1 <= |t.nodes|
    requires t.fek == c.unwrap(t.head.encFek) && BlocksOnDisk(c, d, t.nodes, t.head.encFek, blocks)
    ensures var r := TreeOp(c, t, op);
            BlocksOnDisk(c, ApplyAll(d, r.1), r.0.nodes, t.head.encFek, blocks[op.num := op.data])
  {
    var r := TreeOp(c, t, op);
    var w := r.1[0];
    assert r.1 == [] + [w];
    ApplyLast(d, [], w);
    var x := c.sealData(t.fek, op.iv, NodeAad(t.head.encFek, op.iv), op.data);
    assert c.unsealData(t.fek, op.iv, NodeAad(t.head.encFek, op.iv), x.0, x.1) == Some(op.data);
    forall n | 0 <= n < |r.0.nodes|
      ensures BlockOnDisk(c, Apply(d, w), r.0.nodes[n].image, t.head.encFek, n, blocks[op.num := op.data])
    {
      if n != op.num {
        assert BlockOnDisk(c, d, t.nodes[n].image, t.head.encFek, n, blocks);
      }
    }
  }

  lemma WriteStep(c: Crypto, s: System, spec: Spec, k: Commit, op: Op)
    requires Lawful(c) && InvFor(c, s, spec, k) && op.WriteOp? && Allowed(s.tree, op)
    ensures var r := TreeOp(c, s.tree, op);
            && InvFor(c, System(ApplyAll(s.disk, r.1), r.0), SpecOp(spec, op), k)
            && |r.1| == 1 && Avoids(k, r.1[0]) && !r.1[0].WriteHead?
  {
    var r := TreeOp(c, s.tree, op);
    WriteTracks(c, s.tree, k, op);
    WriteKeepsBlocks(c, s.disk, s.tree, spec.working.blocks, op);
    AvoidAllKeeps(c, s.disk, k, spec.committed, r.1);
  }

  lemma MetaStep(c: Crypto, s: System, spec: Spec, k: Commit, op: Op)
    requires InvFor(c, s, spec, k) && op.MetaOp?
    ensures var r := TreeOp(c, s.tree, op);
            InvFor(c, System(ApplyAll(s.disk, r.1), r.0), SpecOp(spec, op), k)
  {
    var t' := SetMeta(s.tree, op.meta);
    assert t'.nodes[0].dirty;
    forall n | 0 <= n < |t'.nodes|
      ensures BlockOnDisk(c, s.disk, t'.nodes[n].image, t'.head.encFek, n, spec.working.blocks)
    {
      assert BlockOnDisk(c, s.disk, s.tree.nodes[n].image, s.tree.head.encFek, n, spec.working.blocks);
    }
  }

  // ----- every step, every run

  lemma CompleteStep(c: Crypto, s: System, spec: Spec, op: Op)
    requires Lawful(c) && Inv(c, s, spec) && |s.tree.nodes| >= 1 && Allowed(s.tree, op)
    ensures var r := TreeOp(c, s.tree, op);
            Inv(c, System(ApplyAll(s.disk, r.1), r.0), SpecOp(spec, op))
  {
    var k :| InvFor(c, s, spec, k);
    match op
    case WriteOp(_, _, _) => WriteStep(c, s, spec, k, op);
    case MetaOp(_) => MetaStep(c, s, spec, k, op);
    case SyncOp(iv) =>
      if s.tree.dirty {
        SyncCommits(c, s, spec, k, iv);
      } else {
        assert SpecOp(spec, op) == spec;
      }
  }

  /** Which commit the disk holds when power fails inside an operation. */
  lemma CrashDisk(c: Crypto, s: System, spec: Spec, ev: Event, k: Commit) returns (k': Commit)
    requires Lawful(c) && InvFor(c, s, spec, k) && ev.Crash? && Allowed(s.tree, ev.op)
    ensures var ws := TreeOp(c, s.tree, ev.op).1;
            Persistent(c, ApplyAll(s.disk, ws[..Min(ev.done, |ws|)]), k', SpecStep(c, s, spec, ev).committed)
  {
    var r := TreeOp(c, s.tree, ev.op);
    var done := Min(ev.done, |r.1|);
    k' := k;
    match ev.op {
      case WriteOp(_, _, _) =>
        WriteStep(c, s, spec, k, ev.op);
        AvoidAllKeeps(c, s.disk, k, spec.committed, r.1[..done]);
      case MetaOp(_) =>
      case SyncOp(iv) =>
        if s.tree.dirty {
          k' := CrashInSync(c, s, spec, k, iv, done);
        }
    }
  }

  lemma CrashInSync(c: Crypto, s: System, spec: Spec, k: Commit, iv: Iv, done: nat) returns (k': Commit)
    requires Lawful(c) && InvFor(c, s, spec, k) && s.tree.dirty && s.tree.head.counter + 1 < COUNTER_LIMIT
    requires done <= |SyncTree(c, s.tree, iv).1|
    ensures var ws := SyncTree(c, s.tree, iv).1[..done];
            Persistent(c, ApplyAll(s.disk, ws), k', if HasHead(ws) then spec.working else spec.committed)
  {
    var r := SyncTree(c, s.tree, iv);
    if done < |r.1| {
      SyncPrefixKeeps(c, s, spec, k, done);
      assert r.1[..done] == SyncPass(c, s.tree).writes[..done];
      k' := k;
    } else {
      SyncCommits(c, s, spec, k, iv);
      assert r.1[..done] == r.1;
      assert r.1[done-1].WriteHead?;
      k' := NewCommit(r.0);
    }
  }

  lemma CrashStep(c: Crypto, s: System, spec: Spec, ev: Event)
    requires Lawful(c) && Inv(c, s, spec) && |s.tree.nodes| >= 1 && ev.Crash? && Allowed(s.tree, ev.op)
    ensures Step(c, s, ev).Ok? && Inv(c, Step(c, s, ev).value, SpecStep(c, s, spec, ev))
  {
    var k :| InvFor(c, s, spec, k);
    var ws := TreeOp(c, s.tree, ev.op).1;
    var d, f := ApplyAll(s.disk, ws[..Min(ev.done, |ws|)]), SpecStep(c, s, spec, ev).committed;
    var k' := CrashDisk(c, s, spec, ev, k);
    OpenFindsCommit(c, d, k', f);
    ReopenedIsLive(c, d, k', f);
  }

  /** The refinement step: a completed or interrupted operation never loses the file and matches the simple form. */
  lemma StepRefines(c: Crypto, s: System, spec: Spec, ev: Event)
    requires Lawful(c) && Inv(c, s, spec) && |s.tree.nodes| >= 1 && Allowed(s.tree, ev.op)
    ensures Step(c, s, ev).Ok? && Inv(c, Step(c, s, ev).value, SpecStep(c, s, spec, ev))
  {
    match ev
    case Complete(op) => CompleteStep(c, s, spec, op);
    case Crash(_, _) => CrashStep(c, s, spec, ev);
  }

  function Run(c: Crypto, s: System, evs: seq<Event>): Result<System>
    requires |s.tree.nodes| >= 1
    decreases |evs|
  {
    if evs == [] then Ok(s)
    else
      match Step(c, s, evs[0])
      case Ok(s') => Run(c, s', evs[1..])
      case Err(e) => Err(e)
  }

  function SpecRun(c: Crypto, s: System, spec: Spec, evs: seq<Event>): Spec
    requires |s.tree.nodes| >= 1
    decreases |evs|
  {
    if evs == [] then spec
    else
      match Step(c, s, evs[0])
      case Ok(s') => SpecRun(c, s', SpecStep(c, s, spec, evs[0]), evs[1..])
      case Err(_) => spec
  }

  predicate AllowedRun(c: Crypto, s: System, evs: seq<Event>)
    requires |s.tree.nodes| >= 1
    decreases |evs|
  {
    evs == [] ||
    (Allowed(s.tree, evs[0].op) &&
     match Step(c, s, evs[0])
     case Ok(s') => AllowedRun(c, s', evs[1..])
     case Err(_) => true)
  }

  lemma {:induction false} RunRefines(c: Crypto, s: System, spec: Spec, evs: seq<Event>)
    requires Lawful(c) && Inv(c, s, spec) && |s.tree.nodes| >= 1 && AllowedRun(c, s, evs)
    ensures Run(c, s, evs).Ok? && Inv(c, Run(c, s, evs).value, SpecRun(c, s, spec, evs))
    decreases |evs|
  {
    if evs != [] {
      StepRefines(c, s, spec, evs[0]);
      RunRefines(c, Step(c, s, evs[0]).value, SpecStep(c, s, spec, evs[0]), evs[1..]);
    }
  }

  /** A run that goes on with one more completed operation. */
  lemma {:induction false} RunMore(c: Crypto, s: System, spec: Spec, evs: seq<Event>, op: Op)
    requires |s.tree.nodes| >= 1 && AllowedRun(c, s, evs) && Run(c, s, evs).Ok?
    requires |Run(c, s, evs).value.tree.nodes| >= 1 && Allowed(Run(c, s, evs).value.tree, op)
    ensures AllowedRun(c, s, evs + [Complete(op)])
    ensures Run(c, s, evs + [Complete(op)]) == Step(c, Run(c, s, evs).value, Complete(op))
    ensures SpecRun(c, s, spec, evs + [Complete(op)]) == SpecOp(SpecRun(c, s, spec, evs), op)
    decreases |evs|
  {
    var all := evs + [Complete(op)];
    if evs == [] {
      assert all[1..] == [];
    } else {
      assert all[0] == evs[0] && all[1..] == evs[1..] + [Complete(op)];
      RunMore(c, Step(c, s, evs[0]).value, SpecStep(c, s, spec, evs[0]), evs[1..], op);
    }
  }

  /** Everything a caller can observe through the tree: its metadata and each block. */
  ghost predicate Shows(c: Crypto, d: Disk, t: Tree, f: File) {
    && t.imeta.meta == f.meta
    && (forall n: nat :: n in f.blocks ==> ReadBlockFrom(c, t, d, n) == Ok(f.blocks[n]))
    && (forall n: nat :: n !in f.blocks ==> ReadBlockFrom(c, t, d, n).Err?)
  }

  lemma LiveShows(c: Crypto, d: Disk, t: Tree, f: File)
    requires t.imeta.meta == f.meta && t.fek == c.unwrap(t.head.encFek)
    requires BlocksOnDisk(c, d, t.nodes, t.head.encFek, f.blocks)
    ensures Shows(c, d, t, f)
  {
    forall n: nat
      ensures n in f.blocks ==> ReadBlockFrom(c, t, d, n) == Ok(f.blocks[n])
      ensures n !in f.blocks ==> ReadBlockFrom(c, t, d, n).Err?
    {
      if n < |t.nodes| { assert BlockOnDisk(c, d, t.nodes[n].image, t.head.encFek, n, f.blocks); }
    }
  }

  /** Reads see the last block written, and the disk as it stands reopens to the committed content. */
  lemma InvObserved(c: Crypto, s: System, spec: Spec)
    requires Inv(c, s, spec)
    ensures Shows(c, s.disk, s.tree, spec.working)
    ensures Open(c, s.disk).Ok? && Shows(c, s.disk, Open(c, s.disk).value, spec.committed)
  {
    var k :| InvFor(c, s, spec, k);
    LiveShows(c, s.disk, s.tree, spec.working);
    OpenFindsCommit(c, s.disk, k, spec.committed);
    LiveShows(c, s.disk, Reopened(c, k), spec.committed);
  }

  const EMPTY_FILE := File(map[], Meta(0))

  function Created(c: Crypto, fek: Key, iv: Iv): System {
    var r := Create(c, fek, iv);
    System(ApplyAll(EMPTY_DISK, r.1), r.0)
  }

  lemma CreateEstablishes(c: Crypto, fek: Key, iv: Iv)
    requires Lawful(c)
    ensures Inv(c, Created(c, fek, iv), Spec(EMPTY_FILE, EMPTY_FILE))
  {
    var t := NewTree(c, fek);
    var e := SyncEnv(c, Meta(0), 0);
    var p := SyncNode(e, t.nodes, 1);
    assert SyncFrom(e, t.nodes, 1) == Synced(p.nodes, [] + [] + p.writes);
    var r := SyncTree(c, t, iv);
    var w0, w1, w2 := p.writes[0], WriteHead(true, r.0.head), WriteHead(false, ZERO_HEAD);
    assert r.1 == [w0] + [w1];
    var ws := Create(c, fek, iv).1;
    ApplyLast(EMPTY_DISK, [], w0);
    ApplyLast(EMPTY_DISK, [w0], w1);
    ApplyLast(EMPTY_DISK, [w0] + [w1], w2);
    assert [] + [w0] == [w0];
    NewHeadOpens(c, t.(nodes := p.nodes), iv);
    var d := ApplyAll(EMPTY_DISK, ws);
    var k := NewCommit(r.0);
    assert NodeOnDisk(d, k.nodes, 1, true);
    assert Persistent(c, d, k, EMPTY_FILE);
    ReopenedIsLive(c, d, k, EMPTY_FILE);
    assert r.0 == Reopened(c, k);
  }

  /**
   Crash atomicity over whole runs: from creation, through any operations and
   any number of power failures at any write, the file is never lost, reads
   return what was last written, and reopening returns what the last completed
   header write committed.
   */
  lemma CrashAtomicity(c: Crypto, fek: Key, iv: Iv, evs: seq<Event>)
    requires Lawful(c) && AllowedRun(c, Created(c, fek, iv), evs)
    ensures Run(c, Created(c, fek, iv), evs).Ok?
    ensures var s := Run(c, Created(c, fek, iv), evs).value;
            var spec := SpecRun(c, Created(c, fek, iv), Spec(EMPTY_FILE, EMPTY_FILE), evs);
            && Shows(c, s.disk, s.tree, spec.working)
            && Open(c, s.disk).Ok? && Shows(c, s.disk, Open(c, s.disk).value, spec.committed)
  {
    CreateEstablishes(c, fek, iv);
    RunRefines(c, Created(c, fek, iv), Spec(EMPTY_FILE, EMPTY_FILE), evs);
    InvObserved(c, Run(c, Created(c, fek, iv), evs).value, SpecRun(c, Created(c, fek, iv), Spec(EMPTY_FILE, EMPTY_FILE), evs));
  }
}
