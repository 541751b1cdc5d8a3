/**
 What the hashes of the tree are for: with a hash that has no collisions, the root
 hash fixes every node image and the metadata, whatever the storage returns.
 */
module HTreeAuth {
  import opened Common
  import opened HTreeModel
  import opened HTreeSync
  import opened HTreeCommit

  /** No collisions, and never the zero digest of a node that has not been hashed yet. */
  ghost predicate GoodHash(c: Crypto) {
    && (forall x, y {:trigger c.hash(x), c.hash(y)} :: c.hash(x) == c.hash(y) ==> x == y)
    && (forall x :: c.hash(x) != FRESH_NODE.image.hash)
  }

  /** Two trees agree on node id, in whether they have it and in its image. */
  ghost predicate SameAt(a: seq<Node>, b: seq<Node>, id: nat) {
    && (Has(a, id) <==> Has(b, id))
    && (Has(a, id) ==> Image(a, id) == Image(b, id))
  }

  function InputOf(nodes: seq<Node>, id: nat, meta: Meta): HashInput
    requires Has(nodes, id)
  {
    var im := Image(nodes, id);
    HashInput(im.iv, im.tag, im.flags, if id == 1 then Some(meta) else None, HashAt(nodes, 2*id), HashAt(nodes, 2*id+1))
  }

  /** Equal stored hashes that both check mean equal inputs. */
  lemma SameInput(c: Crypto, a: seq<Node>, b: seq<Node>, ma: Meta, mb: Meta, id: nat)
    requires GoodHash(c) && HashesMatch(c, a, ma) && HashesMatch(c, b, mb)
    requires Has(a, id) && Has(b, id) && Image(a, id).hash == Image(b, id).hash
    ensures InputOf(a, id, ma) == InputOf(b, id, mb) && Image(a, id) == Image(b, id)
  {
    assert Image(a, id).hash == NodeHash(c, a, id, ma) == c.hash(InputOf(a, id, ma));
    assert Image(b, id).hash == NodeHash(c, b, id, mb) == c.hash(InputOf(b, id, mb));
  }

  lemma {:induction false} SameNode(c: Crypto, a: seq<Node>, b: seq<Node>, ma: Meta, mb: Meta, id: nat)
    requires GoodHash(c) && HashesMatch(c, a, ma) && HashesMatch(c, b, mb) && id >= 1
    requires Has(a, 1) && Has(b, 1) && Image(a, 1).hash == Image(b, 1).hash
    ensures SameAt(a, b, id)
  {
    if id == 1 {
      SameInput(c, a, b, ma, mb, 1);
    } else {
      var p := id / 2;
      SameNode(c, a, b, ma, mb, p);
      if Has(a, p) {
        SameInput(c, a, b, ma, mb, p);
        assert id == 2*p || id == 2*p+1;
        assert HashAt(a, id) == HashAt(b, id);
        if Has(a, id) { SameInput(c, a, b, ma, mb, id); }
      }
    }
  }

  /** The root hash fixes the shape of the tree, every image in it and the metadata. */
  lemma RootHashFixesTree(c: Crypto, a: seq<Node>, b: seq<Node>, ma: Meta, mb: Meta)
    requires GoodHash(c) && HashesMatch(c, a, ma) && HashesMatch(c, b, mb)
    requires Has(a, 1) && Has(b, 1) && Image(a, 1).hash == Image(b, 1).hash
    ensures |a| == |b| && ma == mb
    ensures forall i :: 0 <= i < |a| ==> a[i].image == b[i].image
  {
    SameInput(c, a, b, ma, mb, 1);
    SameNode(c, a, b, ma, mb, |a|);
    SameNode(c, a, b, ma, mb, |b|);
    forall i | 0 <= i < |a| ensures a[i].image == b[i].image {
      SameNode(c, a, b, ma, mb, i + 1);
      assert Image(a, i + 1) == Image(b, i + 1);
    }
  }

  lemma {:induction false} LoadedClean(d: Disk, nodes: seq<Node>, maxNodeId: nat)
    requires |nodes| >= 1 && CleanNodes(nodes) && LoadNodes(d, nodes, maxNodeId).Ok?
    ensures CleanNodes(LoadNodes(d, nodes, maxNodeId).value)
    decreases maxNodeId - |nodes|
  {
    var id := |nodes| + 1;
    if id <= maxNodeId {
      var im := ReadNode(d, id, Image(nodes, id/2).flags.Child(Odd(id))).value;
      LoadedClean(d, nodes + [CleanNode(im)], maxNodeId);
    }
  }

  lemma OpenedFrom(c: Crypto, d: Disk, s: Start)
    requires OpenFrom(c, d, s).Ok?
    ensures var t := OpenFrom(c, d, s).value;
      Has(t.nodes, 1) && Image(t.nodes, 1) == s.root && CleanNodes(t.nodes) && HashesMatch(c, t.nodes, t.imeta.meta)
  {
    var imeta := VerifyRoot(c, s).value;
    LoadedClean(d, [CleanNode(s.root)], imeta.maxNodeId);
    assert OpenFrom(c, d, s).value.nodes[0] == [CleanNode(s.root)][0];
  }

  // ----- what opening accepts

  /** Node id as its parent names it. */
  ghost predicate NodeRead(d: Disk, nodes: seq<Node>, id: nat)
    requires 2 <= id <= |nodes|
  {
    var cell := (id, nodes[id/2 - 1].image.flags.Child(Odd(id)));
    cell in d.nodes && nodes[id-1] == Node(false, false, d.nodes[cell])
  }

  lemma PrefixMore(nodes: seq<Node>, n: Node, v: seq<Node>)
    ensures nodes + [n] <= v <==> nodes <= v && |v| > |nodes| && v[|nodes|] == n
  {
    if nodes + [n] <= v {
      assert v[|nodes|] == (nodes + [n])[|nodes|];
    }
  }

  lemma {:induction false} LoadNodesIff(d: Disk, nodes: seq<Node>, maxNodeId: nat, v: seq<Node>)
    requires |nodes| >= 1
    ensures LoadNodes(d, nodes, maxNodeId) == Ok(v) <==>
      nodes <= v && |v| == Max(|nodes|, maxNodeId) && forall id :: |nodes| < id <= |v| ==> NodeRead(d, v, id)
    ensures LoadNodes(d, nodes, maxNodeId).Err? ==> LoadNodes(d, nodes, maxNodeId).error == CorruptObject
    decreases maxNodeId - |nodes|
  {
    var id := |nodes| + 1;
    if id > maxNodeId {
      assert nodes <= v && |v| == |nodes| ==> v == nodes;
    } else {
      var cell := (id, Image(nodes, id/2).flags.Child(Odd(id)));
      if nodes <= v && id <= |v| {
        assert v[id/2 - 1] == nodes[id/2 - 1];
      }
      if cell in d.nodes {
        var next := nodes + [CleanNode(d.nodes[cell])];
        LoadNodesIff(d, next, maxNodeId, v);
        PrefixMore(nodes, CleanNode(d.nodes[cell]), v);
        if nodes <= v && id <= |v| {
          assert NodeRead(d, v, id) <==> v[id-1] == CleanNode(d.nodes[cell]);
        }
      } else if nodes <= v && |v| == maxNodeId {
        assert !NodeRead(d, v, id);
      }
    }
  }

  /** The tree t is sealed in the header, read from the storage node by node, and all its hashes are right. */
  ghost predicate Verified(c: Crypto, d: Disk, s: Start, t: Tree) {
    && t.head == s.head && t.fek == c.unwrap(s.head.encFek) && !t.dirty
    && c.unsealImeta(t.fek, s.head.iv, HeadAad(c.trunc(s.root.hash), s.head.counter, s.head.encFek, s.head.iv),
                     s.head.imeta, s.head.tag) == Some(t.imeta)
    && |t.nodes| == Max(1, t.imeta.maxNodeId) && t.nodes[0] == Node(false, false, s.root)
    && (forall id :: 2 <= id <= |t.nodes| ==> NodeRead(d, t.nodes, id))
    && HashesMatch(c, t.nodes, t.imeta.meta)
  }

  /** From a header and a root node exactly such a tree opens; everything else is a corrupt object. */
  lemma OpenFromIff(c: Crypto, d: Disk, s: Start, t: Tree)
    ensures OpenFrom(c, d, s) == Ok(t) <==> Verified(c, d, s, t)
    ensures OpenFrom(c, d, s).Err? ==> OpenFrom(c, d, s).error == CorruptObject
  {
    LoadNodesIff(d, [CleanNode(s.root)], t.imeta.maxNodeId, t.nodes);
    assert [CleanNode(s.root)] <= t.nodes <==> |t.nodes| >= 1 && t.nodes[0] == CleanNode(s.root);
    if VerifyRoot(c, s).Ok? {
      LoadNodesIff(d, [CleanNode(s.root)], VerifyRoot(c, s).value.maxNodeId, t.nodes);
    }
  }

  /** Without a hash the tree is opened from the newer header that fits its place. */
  lemma OpenIff(c: Crypto, d: Disk, t: Tree)
    ensures Open(c, d) == Ok(t) <==>
      && false in d.heads && true in d.heads
      && exists v: bool ::
        && SelectHead(d.heads[false].counter, d.heads[true].counter) == Some(v)
        && (1, v) in d.nodes && Verified(c, d, Start(d.heads[v], d.nodes[(1, v)]), t)
  {
    if InitHead(d).Ok? {
      OpenFromIff(c, d, InitHead(d).value, t);
    }
  }

  /** With a hash that neither version of the root carries, nothing opens. */
  lemma UnknownHash(c: Crypto, d: Disk, hash: Digest)
    requires (1, false) in d.nodes && (1, true) in d.nodes
    requires d.nodes[(1, false)].hash != hash && d.nodes[(1, true)].hash != hash
    ensures OpenWith(c, d, hash) == Err(Security)
  {}

  /** Opened under one root hash, two storages show the same tree, whoever wrote them. */
  lemma OpenWithAuthentic(c: Crypto, d: Disk, e: Disk, hash: Digest)
    requires GoodHash(c) && OpenWith(c, d, hash).Ok? && OpenWith(c, e, hash).Ok?
    ensures var t, u := OpenWith(c, d, hash).value, OpenWith(c, e, hash).value;
      t.nodes == u.nodes && t.imeta.meta == u.imeta.meta
  {
    var s, r := InitHeadWith(d, hash).value, InitHeadWith(e, hash).value;
    var t, u := OpenFrom(c, d, s).value, OpenFrom(c, e, r).value;
    OpenedFrom(c, d, s);
    OpenedFrom(c, e, r);
    assert s.root.hash == hash == r.root.hash;
    RootHashFixesTree(c, t.nodes, u.nodes, t.imeta.meta, u.imeta.meta);
    assert forall i :: 0 <= i < |t.nodes| ==> t.nodes[i] == CleanNode(t.nodes[i].image) && u.nodes[i] == CleanNode(u.nodes[i].image);
  }

  /** Version 0 of the root, which is looked at first, is there and carries another hash. */
  predicate RootsDiffer(d: Disk, hash: Digest) {
    (1, false) in d.nodes && d.nodes[(1, false)].hash != hash
  }

  /** Opening a commit under its root hash finds it exactly when it uses version 0 or version 0 differs. */
  lemma OpenWithFindsCommit(c: Crypto, d: Disk, k: Commit, f: File)
    requires Persistent(c, d, k, f)
    ensures OpenWith(c, d, Image(k.nodes, 1).hash) == Ok(Reopened(c, k)) <==>
      !Odd(k.head.counter) || RootsDiffer(d, Image(k.nodes, 1).hash)
  {
    var hash := Image(k.nodes, 1).hash;
    OpenFindsCommit(c, d, k, f);
    assert NodeOnDisk(d, k.nodes, 1, Odd(k.head.counter));
    assert InitHead(d) == Ok(Start(k.head, Image(k.nodes, 1)));
    if !Odd(k.head.counter) || RootsDiffer(d, hash) {
      assert InitHeadWith(d, hash) == Ok(Start(k.head, Image(k.nodes, 1)));
    } else if OpenWith(c, d, hash).Ok? {
      assert OpenWith(c, d, hash).value.head == d.heads[false];
    }
  }

  /**
   What opens under the root hash of a commit, if anything does: the commit's own nodes
   and metadata; with version 0 carrying the same hash, under the older header.
   */
  lemma OpenWithShowsCommit(c: Crypto, d: Disk, k: Commit, f: File)
    requires GoodHash(c) && Persistent(c, d, k, f) && OpenWith(c, d, Image(k.nodes, 1).hash).Ok?
    ensures var t := OpenWith(c, d, Image(k.nodes, 1).hash).value;
      && t.nodes == k.nodes && t.imeta.meta == k.imeta.meta
      && t.head == (if Odd(k.head.counter) && !RootsDiffer(d, Image(k.nodes, 1).hash) then d.heads[false] else k.head)
      && (t.head.encFek == k.head.encFek ==> Shows(c, d, t, f))
  {
    var hash := Image(k.nodes, 1).hash;
    var s := InitHeadWith(d, hash).value;
    var t := OpenWith(c, d, hash).value;
    assert NodeOnDisk(d, k.nodes, 1, Odd(k.head.counter));
    OpenedFrom(c, d, s);
    RootHashFixesTree(c, t.nodes, k.nodes, t.imeta.meta, k.imeta.meta);
    assert forall i :: 0 <= i < |t.nodes| ==> t.nodes[i] == CleanNode(t.nodes[i].image) && k.nodes[i] == CleanNode(k.nodes[i].image);
    assert t.nodes == k.nodes;
    if t.head.encFek == k.head.encFek {
      LiveShows(c, d, t, f);
    }
  }

  /** After every run, the root hash of the last commit opens the committed file, an error, or a header under another key. */
  lemma CommittedHashOpens(c: Crypto, fek: Key, iv: Iv, evs: seq<Event>) returns (k: Commit)
    requires Lawful(c) && GoodHash(c) && AllowedRun(c, Created(c, fek, iv), evs)
    ensures Run(c, Created(c, fek, iv), evs).Ok?
    ensures var d := Run(c, Created(c, fek, iv), evs).value.disk;
      var spec := SpecRun(c, Created(c, fek, iv), Spec(EMPTY_FILE, EMPTY_FILE), evs);
      && Open(c, d) == Ok(Reopened(c, k)) && Has(k.nodes, 1)
      && var r := OpenWith(c, d, Image(k.nodes, 1).hash);
      && (r == Open(c, d) <==> !Odd(k.head.counter) || RootsDiffer(d, Image(k.nodes, 1).hash))
      && (r.Ok? && r.value.head.encFek == k.head.encFek ==> Shows(c, d, r.value, spec.committed))
  {
    var start := Spec(EMPTY_FILE, EMPTY_FILE);
    CreateEstablishes(c, fek, iv);
    RunRefines(c, Created(c, fek, iv), start, evs);
    var s, spec := Run(c, Created(c, fek, iv), evs).value, SpecRun(c, Created(c, fek, iv), start, evs);
    k :| InvFor(c, s, spec, k);
    OpenFindsCommit(c, s.disk, k, spec.committed);
    OpenWithFindsCommit(c, s.disk, k, spec.committed);
    if OpenWith(c, s.disk, Image(k.nodes, 1).hash).Ok? {
      OpenWithShowsCommit(c, s.disk, k, spec.committed);
    }
  }
}
