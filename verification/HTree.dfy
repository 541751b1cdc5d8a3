/**
 The hash tree of core/tee/fs_htree.c in the source's own form: linked nodes
 updated in place over a storage of two-version elements.  Each method is proved
 equal to the value-level operation of HTreeModel, so the results of HTreeCommit
 hold of it.
 */
module HTree {
  import opened Common
  import opened HTreeModel
  import opened HTreeSync

  // ----- ids

  /** node_id_to_level: the number of significant bits; the root has level 1. */
  function Level(id: nat): (r: nat)
    requires id >= 1
    ensures r >= 1 && Pow2(r - 1) <= id < Pow2(r)
  {
    if id == 1 then 1 else 1 + Level(id / 2)
  }

  lemma ShiftOne(id: nat, k: nat)
    ensures id / Pow2(k) / 2 == id / Pow2(k + 1)
    ensures id / Pow2(k) == 2 * (id / Pow2(k + 1)) + id / Pow2(k) % 2
  {
    var p := Pow2(k);
    var q, r := id / p, id % p;
    var h := q / 2;
    assert id == p * q + r;
    assert q == 2*h + q % 2;
    assert id == (2*p) * h + (p * (q % 2) + r) by {
      assert p * q == p * (2*h) + p * (q % 2);
    }
    assert 0 <= p * (q % 2) + r < 2*p;
    DivUnique(id, 2*p, h, p * (q % 2) + r);
  }

  lemma MulSmall(d: int, k: int)
    requires -d < d * k < d
    ensures k == 0
  {}

  lemma DivUnique(x: int, d: int, q: int, r: int)
    requires d > 0 && x == d * q + r && 0 <= r < d
    ensures x / d == q
  {
    assert d * (q - x / d) == d * q - d * (x / d) == x % d - r;
    MulSmall(d, q - x / d);
  }

  lemma TopBit(id: nat)
    requires id >= 1
    ensures id / Pow2(Level(id) - 1) == 1
  {
    var p := Pow2(Level(id) - 1);
    assert p <= id < 2*p;
    DivUnique(id, p, 1, id - p);
  }

  /** The id find_closest_node ends at in a tree of `count` nodes. */
  function Closest(count: nat, id: nat): (r: nat)
    requires count >= 1 && id >= 1
    ensures 1 <= r <= count
    ensures r == id <==> id <= count
  {
    if id <= count then id else Closest(count, id / 2)
  }

  /** It is an ancestor-or-self of id, it exists, and no deeper one does. */
  lemma {:induction false} ClosestIsDeepest(count: nat, id: nat, a: nat)
    requires count >= 1 && id >= 1
    ensures Under(id, Closest(count, id))
    ensures 1 <= a <= count && Under(id, a) ==> Under(Closest(count, id), a)
  {
    if id <= count {
    } else {
      ClosestIsDeepest(count, id / 2, a);
    }
  }

  lemma {:induction false} ClosestByShift(count: nat, id: nat, k: nat)
    requires count >= 1 && 1 <= id / Pow2(k + 1) <= count < id / Pow2(k)
    ensures Closest(count, id) == id / Pow2(k + 1)
    decreases k
  {
    ShiftOne(id, k);
    if k > 0 {
      HalveShift(id, k - 1);
      HalveShift(id, k);
      assert id / 2 / Pow2(k - 1) == id / Pow2(k);
      assert id / 2 / Pow2(k) == id / Pow2(k + 1);
      ShiftAtMost(id, k);
      assert id > count;
      ClosestByShift(count, id / 2, k - 1);
    }
  }

  lemma {:induction false} HalveShift(id: nat, k: nat)
    ensures id / 2 / Pow2(k) == id / Pow2(k + 1)
  {
    if k > 0 {
      HalveShift(id, k - 1);
      ShiftOne(id / 2, k - 1);
      ShiftOne(id, k);
    } else {
      ShiftOne(id, 0);
    }
  }

  lemma {:induction false} ShiftAtMost(id: nat, k: nat)
    ensures id / Pow2(k) <= id
  {
    if k > 0 {
      ShiftAtMost(id, k - 1);
      ShiftOne(id, k - 1);
    }
  }

  // ----- objects

  class NodeObj {
    var id: nat
    var dirty: bool
    var blockUpdated: bool
    var image: NodeImage
    var parent: NodeObj?
    var child0: NodeObj?
    var child1: NodeObj?

    constructor (id: nat, parent: NodeObj?)
      ensures this.id == id && this.parent == parent && child0 == null && child1 == null
      ensures Value() == FRESH_NODE
    {
      this.id, this.parent := id, parent;
      dirty, blockUpdated, image := false, false, FRESH_NODE.image;
      child0, child1 := null, null;
    }

    function Value(): Node
      reads this
    {
      Node(dirty, blockUpdated, image)
    }

    function Child(odd: bool): NodeObj?
      reads this
    {
      if odd then child1 else child0
    }
  }

  function Values(ns: seq<NodeObj>): (r: seq<Node>)
    reads ns
    ensures |r| == |ns|
    ensures forall i {:trigger r[i]} :: 0 <= i < |ns| ==> r[i] == ns[i].Value()
  {
    seq(|ns|, i requires 0 <= i < |ns| reads ns => ns[i].Value())
  }

  function At(ns: seq<NodeObj>, id: nat): NodeObj? {
    if 1 <= id <= |ns| then ns[id-1] else null
  }

  ghost predicate Linked(ns: seq<NodeObj>, i: nat)
    requires i < |ns|
    reads ns
  {
    && ns[i].id == i + 1
    && ns[i].parent == At(ns, (i + 1) / 2)
    && ns[i].child0 == At(ns, 2 * (i + 1))
    && ns[i].child1 == At(ns, 2 * (i + 1) + 1)
  }

  /** The nodes are the complete heap 1..|ns| with correct parent and child links. */
  ghost predicate Heap(ns: seq<NodeObj>)
    reads ns
  {
    |ns| >= 1 && forall i :: 0 <= i < |ns| ==> Linked(ns, i)
  }

  class Storage {
    var disk: Disk
    var log: seq<Write>

    constructor (d: Disk)
      ensures disk == d && log == []
    {
      disk, log := d, [];
    }

    /** One atomic element write. */
    method Put(w: Write)
      modifies this
      ensures disk == Apply(old(disk), w) && log == old(log) + [w]
    {
      disk := Apply(disk, w);
      log := log + [w];
    }
  }

  lemma {:induction false} ApplyAllJoin(d: Disk, a: seq<Write>, b: seq<Write>)
    ensures ApplyAll(d, a + b) == ApplyAll(ApplyAll(d, a), b)
    decreases |b|
  {
    if b == [] {
      assert a + b == a;
    } else {
      ApplyAllJoin(d, a, b[..|b|-1]);
      assert (a + b)[..|a + b|-1] == a + b[..|b|-1];
    }
  }

  lemma ApplyAllLast(d: Disk, a: seq<Write>, w: Write)
    ensures ApplyAll(d, a + [w]) == Apply(ApplyAll(d, a), w)
  {
    assert (a + [w])[..|a|] == a;
  }

  /** One pass after another. */
  function Then(a: Synced, b: Synced): Synced {
    Synced(b.nodes, a.writes + b.writes)
  }

  ghost function ChildrenSynced(e: SyncEnv, v: seq<Node>, id: nat): Synced
    requires Has(v, id)
  {
    var r0 := SyncFrom(e, v, 2*id);
    Then(r0, SyncFrom(e, r0.nodes, 2*id+1))
  }

  lemma SyncFromIsChildrenThenNode(e: SyncEnv, v: seq<Node>, id: nat)
    requires Has(v, id)
    ensures |ChildrenSynced(e, v, id).nodes| == |v|
    ensures SyncFrom(e, v, id) == Then(ChildrenSynced(e, v, id), SyncNode(e, ChildrenSynced(e, v, id).nodes, id))
  {}

  /** The assert of the sync callback holds at every node of the traversal. */
  lemma SyncFromKeepsBlocks(e: SyncEnv, v: seq<Node>, id: nat)
    requires id >= 1 && BlocksDirty(v)
    ensures BlocksDirty(SyncFrom(e, v, id).nodes)
  {
    SyncFromEffect(e, v, id);
    var r := SyncFrom(e, v, id);
    if id >= 2 {
      BlocksStayDirty(e, v, r, id);
    } else {
      forall i | 0 <= i < |v| ensures r.nodes[i].blockUpdated ==> r.nodes[i].dirty {
        UnderRoot(i + 1);
        assert Settled(e, v, r.nodes, i + 1);
      }
    }
  }

  ghost predicate HashesBelow(c: Crypto, v: seq<Node>, meta: Meta, id: nat)
    requires id >= 1
  {
    forall j {:trigger NodeHash(c, v, j, meta)} :: Has(v, j) && Under(j, id) ==> Image(v, j).hash == NodeHash(c, v, j, meta)
  }

  lemma NothingBelow(c: Crypto, v: seq<Node>, meta: Meta, id: nat)
    requires id > |v|
    ensures HashesBelow(c, v, meta, id)
  {
    forall j: nat ensures Under(j, id) ==> j >= id { UnderSplit(j, id); }
  }

  lemma HashesBelowSplit(c: Crypto, v: seq<Node>, meta: Meta, id: nat)
    requires Has(v, id)
    ensures HashesBelow(c, v, meta, id) <==>
              && HashesBelow(c, v, meta, 2*id) && HashesBelow(c, v, meta, 2*id+1)
              && Image(v, id).hash == NodeHash(c, v, id, meta)
  {
    forall j: nat ensures Under(j, id) <==> j == id || Under(j, 2*id) || Under(j, 2*id+1) { UnderSplit(j, id); }
  }

  lemma AllBelowRoot(c: Crypto, v: seq<Node>, meta: Meta)
    ensures HashesBelow(c, v, meta, 1) <==> HashesMatch(c, v, meta)
  {
    forall j: nat | j >= 1 ensures Under(j, 1) { UnderRoot(j); }
  }

  lemma GrowStep(v: seq<Node>, n: nat)
    requires n > |v|
    ensures Grow(v, n) == Grow(v, n - 1) + [FRESH_NODE]
  {}

  class HashTree {
    var root: NodeObj
    var head: Head
    var fek: Key
    var imeta: Imeta
    var dirty: bool
    const c: Crypto
    const stor: Storage
    ghost var nodes: seq<NodeObj>

    ghost predicate Links()
      reads this, nodes
    {
      Heap(nodes) && root == nodes[0]
    }

    /** Ids 1..max(1, max_node_id), linked as a heap. */
    ghost predicate Valid()
      reads this, nodes
    {
      Links() && |nodes| == Max(1, imeta.maxNodeId)
    }

    /** The nodes are the previous ones and freshly allocated ones after them. */
    twostate predicate Extends(before: seq<NodeObj>)
      reads this
    {
      before <= nodes && forall i :: |before| <= i < |nodes| ==> fresh(nodes[i])
    }

    ghost function Abs(): (t: Tree)
      reads this, nodes
    {
      Tree(Values(nodes), head, fek, imeta, dirty)
    }

    /** A zeroed tree that owns only its root. */
    constructor (c: Crypto, stor: Storage)
      ensures Valid() && fresh(nodes) && this.c == c && this.stor == stor
      ensures Abs() == Tree([FRESH_NODE], ZERO_HEAD, 0, Imeta(Meta(0), 0), false)
    {
      this.c, this.stor := c, stor;
      head, fek, imeta, dirty := ZERO_HEAD, 0, Imeta(Meta(0), 0), false;
      var r := new NodeObj(1, null);
      root, nodes := r, [r];
      new;
      assert Linked(nodes, 0);
    }

    // ----- find_closest_node and get_node

    method FindClosestNode(nodeId: nat) returns (node: NodeObj)
      requires Links() && nodeId >= 1
      ensures node == nodes[Closest(|nodes|, nodeId) - 1]
      ensures node.id == Closest(|nodes|, nodeId)
    {
      node := root;
      var level := Level(nodeId);
      TopBit(nodeId);
      var n := 1;
      ghost var at := 1;
      while n < level
        invariant 1 <= n <= level && at == nodeId / Pow2(level - n)
        invariant 1 <= at <= |nodes| && node == nodes[at - 1]
      {
        var bitIdx := level - n - 1;
        ShiftOne(nodeId, bitIdx);
        assert Linked(nodes, at - 1);
        var odd := nodeId / Pow2(bitIdx) % 2 == 1;
        var child := node.Child(odd);
        ghost var next := 2 * at + if odd then 1 else 0;
        assert next == nodeId / Pow2(bitIdx);
        if child == null {
          ClosestByShift(|nodes|, nodeId, bitIdx);
          return;
        }
        node, n, at := child, n + 1, next;
      }
      assert nodeId / Pow2(0) == nodeId;
      assert Linked(nodes, nodeId - 1);
    }

    /** The loop body of get_node: hang node n below its parent. */
    method AppendNode(node: NodeObj, n: nat) returns (nc: NodeObj)
      requires Links() && n == |nodes| + 1 && node.id == n / 2 && node == nodes[n / 2 - 1]
      modifies node, this`nodes
      ensures Links() && fresh(nc) && nc.id == n && nodes == old(nodes) + [nc]
      ensures Values(nodes) == old(Values(nodes)) + [FRESH_NODE]
    {
      var p := n / 2;
      assert Linked(nodes, p - 1);
      assert node.Child(n % 2 == 1) == null;
      nc := new NodeObj(n, node);
      if n % 2 == 1 { node.child1 := nc; } else { node.child0 := nc; }
      nodes := nodes + [nc];
      assert n == 2*p || n == 2*p + 1;
      forall i | 0 <= i < |nodes| ensures Linked(nodes, i) {
        if i < n - 1 {
          assert old(Linked(nodes, i));
          assert At(nodes, (i + 1) / 2) == At(old(nodes), (i + 1) / 2);
          assert At(nodes, 2 * (i + 1)) == if 2 * (i + 1) == n then nc else At(old(nodes), 2 * (i + 1));
          assert At(nodes, 2 * (i + 1) + 1) == if 2 * (i + 1) + 1 == n then nc else At(old(nodes), 2 * (i + 1) + 1);
          assert nodes[i] == node <==> i == p - 1;
        }
      }
    }

    /** The loop of get_node: ids up to nodeId that are missing are added in order. */
    method AddMissing(first: nat, nodeId: nat) returns (node: NodeObj)
      requires Links() && 1 < first <= |nodes| + 1 && |nodes| < nodeId
      modifies this`nodes, nodes
      ensures Links() && Extends(old(nodes)) && |nodes| == nodeId && node == nodes[nodeId - 1] && node.id == nodeId
      ensures Values(nodes) == Grow(old(Values(nodes)), nodeId)
    {
      node := root;
      var n := first;
      while n <= nodeId
        invariant Links() && Extends(old(nodes))
        invariant first <= n <= nodeId + 1 && |nodes| == Max(|old(nodes)|, n - 1)
        invariant Values(nodes) == Grow(old(Values(nodes)), n - 1)
        invariant n > |old(nodes)| + 1 ==> node == nodes[n - 2] && node.id == n - 1
      {
        node := FindClosestNode(n);
        if node.id != n {
          node := AppendNode(node, n);
          GrowStep(old(Values(nodes)), n);
        }
        n := n + 1;
      }
    }

    method GetNode(create: bool, nodeId: nat) returns (r: Result<NodeObj>)
      requires Links() && nodeId >= 1
      modifies this`nodes, this`imeta, nodes
      ensures Links() && Extends(old(nodes)) && (old(Valid()) ==> Valid())
      ensures r.Ok? <==> create || nodeId <= |old(nodes)|
      ensures r.Ok? ==> nodeId <= |nodes| && r.value == nodes[nodeId - 1] && Abs() == HTreeModel.GetNode(old(Abs()), nodeId)
      ensures r.Ok? ==> |nodes| == Max(|old(nodes)|, nodeId) && old(Values(nodes)) <= Values(nodes)
      ensures r.Ok? ==> forall i :: |old(nodes)| <= i < |nodes| ==> Values(nodes)[i] == FRESH_NODE
      ensures imeta == if nodeId <= |nodes| && nodeId > |old(nodes)| then old(imeta).(maxNodeId := Max(old(imeta).maxNodeId, nodeId))
                       else old(imeta)
      ensures r.Err? ==> r.error == Generic && Abs() == old(Abs()) && nodes == old(nodes)
    {
      var node := FindClosestNode(nodeId);
      if node.id == nodeId { return Ok(node); }
      if !create { return Err(Generic); }
      node := AddMissing(node.id + 1, nodeId);
      if node.id > imeta.maxNodeId {
        imeta := imeta.(maxNodeId := node.id);
      }
      return Ok(node);
    }

    /** Update the payload of one node; links and all other nodes stay. */
    method SetNode(ghost id: nat, node: NodeObj, v: Node)
      requires Links() && 1 <= id <= |nodes| && node == nodes[id - 1]
      modifies node`dirty, node`blockUpdated, node`image
      ensures Links() && Values(nodes) == old(Values(nodes))[id - 1 := v]
    {
      ghost var was := Values(nodes);
      node.dirty, node.blockUpdated, node.image := v.dirty, v.blockUpdated, v.image;
      forall i | 0 <= i < |nodes| ensures Linked(nodes, i) && nodes[i].Value() == was[id - 1 := v][i] {
        assert old(Linked(nodes, i)) && old(Linked(nodes, id - 1));
        assert i != id - 1 ==> nodes[i] != node;
      }
    }

    // ----- write_block, read_block, meta_set_dirty

    /** Encrypt a block into the version its node does not commit, and point the node at it. */
    method PutBlock(node: NodeObj, num: nat, data: Data, iv: Iv)
      requires Links() && num < |nodes| && node == nodes[num]
      modifies node`dirty, node`blockUpdated, node`image, stor
      ensures Links()
      ensures var r := WriteBlockNode(c, old(Abs()), old(node.Value()), data, iv);
              var w := HTreeModel.WriteBlock(num, r.0.image.flags.block, r.1);
              && Values(nodes) == old(Values(nodes))[num := r.0]
              && stor.log == old(stor.log) + [w] && stor.disk == Apply(old(stor.disk), w)
    {
      var flags := node.image.flags;
      if !node.blockUpdated { flags := flags.FlipBlock(); }
      var e := c.sealData(fek, iv, NodeAad(head.encFek, iv), data);
      stor.Put(HTreeModel.WriteBlock(num, flags.block, e.0));
      SetNode(num + 1, node, Node(true, true, node.image.(flags := flags, iv := iv, tag := e.1)));
    }

    method WriteBlock(num: nat, data: Data, iv: Iv)
      requires Valid()
      modifies this, nodes, stor
      ensures Valid() && Extends(old(nodes))
      ensures var r := WriteBlockTo(c, old(Abs()), num, data, iv);
              && Abs() == r.0
              && stor.log == old(stor.log) + r.1 && stor.disk == ApplyAll(old(stor.disk), r.1)
    {
      var r := GetNode(true, num + 1);
      PutBlock(r.value, num, data, iv);
      dirty := true;
      ghost var ws := WriteBlockTo(c, old(Abs()), num, data, iv).1;
      assert ws[..0] == [] && ApplyAll(old(stor.disk), ws) == Apply(old(stor.disk), ws[0]);
    }

    method ReadBlock(num: nat) returns (r: Result<Data>)
      requires Valid()
      modifies this`nodes, this`imeta, nodes
      ensures Valid() && nodes == old(nodes) && Abs() == old(Abs())
      ensures r == ReadBlockFrom(c, Abs(), stor.disk, num) && BlockReads(c, Abs(), stor.disk, num, r)
    {
      BlockReadsIs(c, Abs(), stor.disk, num);
      var g := GetNode(false, num + 1);
      assert |nodes| == |Abs().nodes|;
      if g.Err? { return Err(g.error); }
      var node := g.value;
      assert node.Value() == Abs().nodes[num];
      var cell := (num, node.image.flags.block);
      if cell !in stor.disk.blocks { return Err(CorruptObject); }
      var p := c.unsealData(fek, node.image.iv, NodeAad(head.encFek, node.image.iv), stor.disk.blocks[cell], node.image.tag);
      if p.None? { return Err(CorruptObject); }
      return Ok(p.value);
    }

    /** tee_fs_htree_read_block on the caller's handle, which an error closes. */
    static method ReadHandle(ht: HashTree?, num: nat) returns (r: Result<Data>, handle: HashTree?)
      requires ht != null ==> ht.Valid()
      modifies ht, if ht == null then [] else ht.nodes
      ensures ht == null ==> r == Err(CorruptObject)
      ensures ht != null ==> r == ReadBlockFrom(ht.c, old(ht.Abs()), ht.stor.disk, num)
      ensures ht != null ==> BlockReads(ht.c, old(ht.Abs()), ht.stor.disk, num, r)
      ensures handle == if r.Ok? then ht else null
      ensures handle != null ==> handle.Valid() && handle.Abs() == old(ht.Abs())
    {
      if ht == null {
        return Err(CorruptObject), null;
      }
      r := ht.ReadBlock(num);
      handle := if r.Ok? then ht else null;
    }

    /** The caller's change of the metadata, followed by tee_fs_htree_meta_set_dirty. */
    method MetaSetDirty(meta: Meta)
      requires Valid()
      modifies this, nodes
      ensures Valid() && nodes == old(nodes) && Abs() == SetMeta(old(Abs()), meta)
    {
      imeta := imeta.(meta := meta);
      dirty := true;
      SetNode(1, root, root.Value().(dirty := true));
    }

    // ----- sync_to_storage

    method CalcNodeHash(ghost id: nat, node: NodeObj, meta: Option<Meta>) returns (h: Digest)
      requires Links() && 1 <= id <= |nodes| && node == nodes[id - 1]
      requires meta == if id == 1 then Some(imeta.meta) else None
      ensures h == NodeHash(c, Values(nodes), id, imeta.meta)
    {
      assert Linked(nodes, id - 1);
      var h0 := if node.child0 != null then Some(node.child0.image.hash) else None;
      var h1 := if node.child1 != null then Some(node.child1.image.hash) else None;
      assert h0 == HashAt(Values(nodes), 2*id) && h1 == HashAt(Values(nodes), 2*id+1);
      h := c.hash(HashInput(node.image.iv, node.image.tag, node.image.flags, meta, h0, h1));
    }

    ghost function Env(): SyncEnv
      reads this
    {
      SyncEnv(c, imeta.meta, head.counter)
    }

    /** Mark the parent and flip its version bit for this node; the version to write follows. */
    method FlipVersion(ghost id: nat, node: NodeObj) returns (vers: bool, meta: Option<Meta>)
      requires Links() && 1 <= id <= |nodes| && node == nodes[id - 1]
      modifies nodes
      ensures Links() && Values(nodes) == TouchParent(old(Values(nodes)), id)
      ensures vers == Vers(Values(nodes), id, !Odd(head.counter))
      ensures meta == if id == 1 then Some(imeta.meta) else None
    {
      assert Linked(nodes, id - 1);
      var parent := node.parent;
      if parent == null {
        return !Odd(head.counter), Some(imeta.meta);
      }
      var odd := Odd(node.id);
      var pv := parent.Value().(dirty := true, image := parent.image.(flags := parent.image.flags.FlipChild(odd)));
      SetNode(id / 2, parent, pv);
      return pv.image.flags.Child(odd), None;
    }

    /** Rehash a node, mark it clean and write it. */
    method StoreNode(ghost id: nat, node: NodeObj, vers: bool, meta: Option<Meta>)
      requires Links() && 1 <= id <= |nodes| && node == nodes[id - 1]
      requires meta == if id == 1 then Some(imeta.meta) else None
      modifies node`dirty, node`blockUpdated, node`image, stor
      ensures Links()
      ensures var v := old(Values(nodes));
              var im := Image(v, id).(hash := NodeHash(c, v, id, imeta.meta));
              && Values(nodes) == v[id - 1 := Node(false, false, im)]
              && stor.log == old(stor.log) + [WriteNode(id, vers, im)]
              && stor.disk == Apply(old(stor.disk), WriteNode(id, vers, im))
    {
      assert Linked(nodes, id - 1);
      var h := CalcNodeHash(id, node, meta);
      var im := node.image.(hash := h);
      stor.Put(WriteNode(node.id, vers, im));
      SetNode(id, node, Node(false, false, im));
    }

    /** The tree holds the nodes of r and the storage received exactly its writes. */
    ghost predicate Did(r: Synced, disk0: Disk, log0: seq<Write>)
      reads this, nodes, stor
    {
      Values(nodes) == r.nodes && stor.log == log0 + r.writes && stor.disk == ApplyAll(disk0, r.writes)
    }

    /** htree_sync_node_to_storage. */
    method SyncOne(ghost id: nat, node: NodeObj)
      requires Links() && 1 <= id <= |nodes| && node == nodes[id - 1] && BlocksDirty(Values(nodes))
      modifies nodes, stor
      ensures Links() && Did(SyncNode(Env(), old(Values(nodes)), id), old(stor.disk), old(stor.log))
    {
      assert node.blockUpdated ==> node.dirty by { assert Values(nodes)[id - 1] == node.Value(); }
      if !node.dirty { return; }
      var vers, meta := FlipVersion(id, node);
      StoreNode(id, node, vers, meta);
      ghost var ws := SyncNode(Env(), old(Values(nodes)), id).writes;
      assert ws[..0] == [] && ApplyAll(old(stor.disk), ws) == Apply(old(stor.disk), ws[0]);
    }

    lemma DidThen(a: Synced, b: Synced, disk0: Disk, log0: seq<Write>, disk1: Disk, log1: seq<Write>)
      requires log1 == log0 + a.writes && disk1 == ApplyAll(disk0, a.writes)
      requires Did(b, disk1, log1)
      ensures Did(Then(a, b), disk0, log0)
    {
      ApplyAllJoin(disk0, a.writes, b.writes);
      assert log0 + a.writes + b.writes == log0 + (a.writes + b.writes);
    }

    method SyncChildren(ghost id: nat, node: NodeObj)
      requires Links() && 1 <= id <= |nodes| && node == nodes[id - 1] && BlocksDirty(Values(nodes))
      modifies nodes, stor
      ensures Links() && Did(ChildrenSynced(Env(), old(Values(nodes)), id), old(stor.disk), old(stor.log))
      ensures BlocksDirty(Values(nodes))
      decreases |nodes| + 1 - id, 0
    {
      ghost var v, e := Values(nodes), Env();
      assert Linked(nodes, id - 1);
      SyncSubtree(2*id, node.child0);
      ghost var r0 := SyncFrom(e, v, 2*id);
      ghost var disk1, log1 := stor.disk, stor.log;
      assert Linked(nodes, id - 1);
      SyncSubtree(2*id+1, node.child1);
      ghost var r1 := SyncFrom(e, r0.nodes, 2*id+1);
      DidThen(r0, r1, old(stor.disk), old(stor.log), disk1, log1);
      assert ChildrenSynced(e, v, id) == Then(r0, r1);
    }

    /** traverse_post_order with the sync callback. */
    method SyncSubtree(ghost id: nat, node: NodeObj?)
      requires Links() && id >= 1 && node == At(nodes, id) && BlocksDirty(Values(nodes))
      modifies nodes, stor
      ensures Links() && Did(SyncFrom(Env(), old(Values(nodes)), id), old(stor.disk), old(stor.log))
      ensures BlocksDirty(Values(nodes))
      decreases |nodes| + 1 - id, 1
    {
      ghost var v, e := Values(nodes), Env();
      SyncFromKeepsBlocks(e, v, id);
      if node == null { return; }
      SyncFromIsChildrenThenNode(e, v, id);
      SyncChildren(id, node);
      ghost var r1, disk1, log1 := ChildrenSynced(e, v, id), stor.disk, stor.log;
      SyncOne(id, node);
      DidThen(r1, SyncNode(e, r1.nodes, id), old(stor.disk), old(stor.log), disk1, log1);
    }

    /** update_root and the header write. */
    method UpdateRoot(iv: Iv)
      requires Links()
      modifies this`head, stor
      ensures head == NewHead(c, old(Abs()), iv)
      ensures var w := WriteHead(Odd(head.counter), head);
              stor.log == old(stor.log) + [w] && stor.disk == Apply(old(stor.disk), w)
    {
      var counter := NextCounter(head.counter);
      assert root.image == Image(Values(nodes), 1);
      var s := c.sealImeta(fek, iv, HeadAad(c.trunc(root.image.hash), counter, head.encFek, iv), imeta);
      head := Head(iv, s.1, head.encFek, s.0, counter);
      stor.Put(WriteHead(Odd(counter), head));
    }

    method Sync(iv: Iv)
      requires Valid() && BlocksDirty(Values(nodes))
      modifies this, nodes, stor
      ensures Valid() && nodes == old(nodes)
      ensures var r := SyncTree(c, old(Abs()), iv);
              && Abs() == r.0
              && stor.log == old(stor.log) + r.1 && stor.disk == ApplyAll(old(stor.disk), r.1)
    {
      if !dirty { return; }
      ghost var p := SyncFrom(Env(), Values(nodes), 1);
      SyncSubtree(1, root);
      FinishSync(iv, p, old(stor.disk), old(stor.log));
    }

    /** The header write that commits the synced nodes. */
    method FinishSync(iv: Iv, ghost p: Synced, ghost disk0: Disk, ghost log0: seq<Write>)
      requires Valid() && Did(p, disk0, log0)
      modifies this`head, this`dirty, stor
      ensures Valid() && !dirty && head == NewHead(c, old(Abs()), iv)
      ensures var ws := p.writes + [WriteHead(Odd(head.counter), head)];
              stor.log == log0 + ws && stor.disk == ApplyAll(disk0, ws)
    {
      UpdateRoot(iv);
      dirty := false;
      ApplyAllLast(disk0, p.writes, WriteHead(Odd(head.counter), head));
    }

    // ----- truncate

    method Truncate(blockNum: nat)
      requires Valid()
      modifies this, nodes
      ensures Valid() && nodes <= old(nodes)
      ensures Abs() == TruncateTo(old(Abs()), blockNum)
      ensures var cut := blockNum + 1 < old(imeta.maxNodeId);
        && nodes == (if cut then old(nodes)[..blockNum + 1] else old(nodes)) && Values(nodes) == old(Values(nodes))[..|nodes|]
        && imeta == (if cut then old(imeta).(maxNodeId := blockNum + 1) else old(imeta))
        && dirty == (old(dirty) || cut) && head == old(head) && fek == old(fek)
    {
      var nodeId := blockNum + 1;
      while nodeId < imeta.maxNodeId
        invariant Valid() && nodes <= old(nodes) && |nodes| >= 1
        invariant Values(nodes) == old(Values(nodes))[..|nodes|]
        invariant imeta.maxNodeId >= Min(old(imeta.maxNodeId), nodeId) && imeta == old(imeta).(maxNodeId := imeta.maxNodeId)
        invariant imeta.maxNodeId <= old(imeta.maxNodeId) && head == old(head) && fek == old(fek)
        invariant dirty == (old(dirty) || imeta.maxNodeId < old(imeta.maxNodeId))
        decreases imeta.maxNodeId
      {
        var node := FindClosestNode(imeta.maxNodeId);
        DropLast(node);
        imeta := imeta.(maxNodeId := imeta.maxNodeId - 1);
        dirty := true;
      }
    }

    /** Unlink the last node from its parent; the source's asserts on it hold. */
    method DropLast(node: NodeObj)
      requires Links() && |nodes| > 1 && node == nodes[|nodes| - 1]
      modifies this`nodes, nodes
      ensures Links() && nodes == old(nodes)[..|old(nodes)| - 1]
      ensures Values(nodes) == old(Values(nodes))[..|nodes|]
    {
      var n, p := |nodes|, |nodes| / 2;
      assert Linked(nodes, n - 1) && Linked(nodes, p - 1);
      assert node.id == n && node.child0 == null && node.child1 == null && node.parent != null;
      assert node.parent.Child(Odd(node.id)) == node;
      if Odd(node.id) { node.parent.child1 := null; } else { node.parent.child0 := null; }
      nodes := nodes[..n - 1];
      assert n == 2*p || n == 2*p + 1;
      forall i | 0 <= i < |nodes| ensures Linked(nodes, i) {
        assert old(Linked(nodes, i));
        assert At(nodes, (i + 1) / 2) == At(old(nodes), (i + 1) / 2);
        assert At(nodes, 2 * (i + 1)) == if 2 * (i + 1) == n then null else At(old(nodes), 2 * (i + 1));
        assert At(nodes, 2 * (i + 1) + 1) == if 2 * (i + 1) + 1 == n then null else At(old(nodes), 2 * (i + 1) + 1);
        assert nodes[i] == old(node.parent) <==> i == p - 1;
      }
    }

    // ----- open

    /** verify_node and its traversal: every stored hash below id is the recomputed one. */
    method VerifySubtree(ghost id: nat, node: NodeObj?) returns (ok: bool)
      requires Links() && id >= 1 && node == At(nodes, id)
      ensures ok <==> HashesBelow(c, Values(nodes), imeta.meta, id)
      decreases |nodes| + 1 - id
    {
      ghost var v := Values(nodes);
      if node == null {
        NothingBelow(c, v, imeta.meta, id);
        return true;
      }
      HashesBelowSplit(c, v, imeta.meta, id);
      assert Linked(nodes, id - 1);
      ok := VerifySubtree(2*id, node.child0);
      if !ok { return; }
      ok := VerifySubtree(2*id+1, node.child1);
      if !ok { return; }
      var h := CalcNodeHash(id, node, if node.parent == null then Some(imeta.meta) else None);
      assert node.image == Image(v, id);
      return h == node.image.hash;
    }

    /** init_tree_from_data. */
    method InitTree() returns (r: Result<()>)
      requires Links() && |nodes| == 1
      modifies this`nodes, this`imeta, nodes
      ensures Links() && Extends(old(nodes)) && imeta == old(imeta)
      ensures match LoadNodes(stor.disk, old(Values(nodes)), imeta.maxNodeId)
              case Err(e) => r == Err(e)
              case Ok(v) => r.Ok? && Values(nodes) == v
    {
      ghost var goal := LoadNodes(stor.disk, Values(nodes), imeta.maxNodeId);
      var nodeId := 2;
      while nodeId <= imeta.maxNodeId
        invariant Links() && Extends(old(nodes)) && imeta == old(imeta)
        invariant |nodes| == nodeId - 1
        invariant LoadNodes(stor.disk, Values(nodes), imeta.maxNodeId) == goal
        decreases imeta.maxNodeId + 1 - nodeId
      {
        var e := LoadNext(nodeId, goal);
        if e.Err? { return e; }
        nodeId := nodeId + 1;
      }
      return Ok(());
    }

    method LoadNext(nodeId: nat, ghost goal: Result<seq<Node>>) returns (r: Result<()>)
      requires Links() && nodeId == |nodes| + 1 <= imeta.maxNodeId
      requires LoadNodes(stor.disk, Values(nodes), imeta.maxNodeId) == goal
      modifies this`nodes, this`imeta, nodes
      ensures Links() && Extends(old(nodes)) && imeta == old(imeta)
      ensures r.Ok? ==> |nodes| == nodeId && LoadNodes(stor.disk, Values(nodes), imeta.maxNodeId) == goal
      ensures r.Err? ==> goal == Err(r.error)
    {
      ghost var v := Values(nodes);
      var im := ReadNext(nodeId);
      if im.Err? { return Err(im.error); }
      LoadOne(nodeId, im.value);
      assert Values(nodes) == v + [CleanNode(im.value)];
      return Ok(());
    }

    /** The node in the version its parent names. */
    method ReadNext(nodeId: nat) returns (r: Result<NodeImage>)
      requires Links() && nodeId == |nodes| + 1 && nodeId >= 2
      ensures r == ReadNode(stor.disk, nodeId, Image(Values(nodes), nodeId / 2).flags.Child(Odd(nodeId)))
    {
      var node := FindClosestNode(nodeId / 2);
      assert node.image == Image(Values(nodes), nodeId / 2);
      r := ReadNode(stor.disk, nodeId, node.image.flags.Child(Odd(nodeId)));
    }

    method LoadOne(nodeId: nat, im: NodeImage)
      requires Links() && nodeId == |nodes| + 1 <= imeta.maxNodeId
      modifies this`nodes, this`imeta, nodes
      ensures Links() && Extends(old(nodes)) && imeta == old(imeta) && |nodes| == nodeId
      ensures Values(nodes) == old(Values(nodes)) + [CleanNode(im)]
    {
      var nc := GetNode(true, nodeId);
      SetNode(nodeId, nc.value, CleanNode(im));
    }

    /** tee_fs_htree_open with create == false, with or without a root hash. */
    static method OpenTree(c: Crypto, stor: Storage, hash: Option<Digest>) returns (r: Result<HashTree>)
      ensures match if hash.Some? then OpenWith(c, stor.disk, hash.value) else Open(c, stor.disk)
              case Err(e) => r == Err(e)
              case Ok(t) =>
                && r.Ok? && fresh(r.value) && fresh(r.value.nodes)
                && r.value.c == c && r.value.stor == stor && r.value.Valid() && r.value.Abs() == t
    {
      var start := if hash.Some? then InitHeadWith(stor.disk, hash.value) else InitHead(stor.disk);
      if start.Err? { return Err(start.error); }
      r := OpenStart(c, stor, start.value);
    }

    /** verify_root, init_tree_from_data and verify_tree. */
    static method OpenStart(c: Crypto, stor: Storage, start: Start) returns (r: Result<HashTree>)
      ensures match OpenFrom(c, stor.disk, start)
              case Err(e) => r == Err(e)
              case Ok(t) =>
                && r.Ok? && fresh(r.value) && fresh(r.value.nodes)
                && r.value.c == c && r.value.stor == stor && r.value.Valid() && r.value.Abs() == t
    {
      var ht := Rooted(c, stor, start);
      var im := VerifyRoot(c, start);
      if im.Err? { return Err(im.error); }
      ht.imeta := im.value;
      var e := ht.LoadAndVerify(start.root);
      if e.Err? { return Err(e.error); }
      return Ok(ht);
    }

    /** An object with the root node and the header in place. */
    static method Rooted(c: Crypto, stor: Storage, start: Start) returns (ht: HashTree)
      ensures fresh(ht) && fresh(ht.nodes) && ht.c == c && ht.stor == stor && ht.Links() && !ht.dirty
      ensures ht.head == start.head && ht.fek == c.unwrap(start.head.encFek) && Values(ht.nodes) == [CleanNode(start.root)]
    {
      ht := new HashTree(c, stor);
      ht.head := start.head;
      ht.SetNode(1, ht.root, CleanNode(start.root));
      ht.fek := c.unwrap(ht.head.encFek);
      assert Values(ht.nodes) == [CleanNode(start.root)];
    }

    /** init_tree_from_data and verify_tree. */
    method LoadAndVerify(ghost image: NodeImage) returns (r: Result<()>)
      requires Links() && Values(nodes) == [CleanNode(image)]
      modifies this`nodes, this`imeta, nodes
      ensures Links() && Extends(old(nodes)) && imeta == old(imeta)
      ensures match LoadNodes(stor.disk, [CleanNode(image)], imeta.maxNodeId)
              case Err(e) => r == Err(e)
              case Ok(v) => Values(nodes) == v && r == if HashesMatch(c, v, imeta.meta) then Ok(()) else Err(CorruptObject)
    {
      var load := InitTree();
      if load.Err? { return load; }
      var ok := VerifySubtree(1, root);
      AllBelowRoot(c, Values(nodes), imeta.meta);
      return if ok then Ok(()) else Err(CorruptObject);
    }

    /** init_root_node on a zeroed tree with a fresh key. */
    method InitRootNode(fek: Key)
      requires Valid() && Abs() == Tree([FRESH_NODE], ZERO_HEAD, 0, Imeta(Meta(0), 0), false)
      modifies this`fek, this`head, this`dirty, nodes
      ensures Valid() && Abs() == NewTree(c, fek)
    {
      this.fek := fek;
      head := head.(encFek := c.wrap(fek));
      SetNode(1, root, FRESH_NODE.(dirty := true));
      assert Values(nodes) == [FRESH_NODE.(dirty := true)];
      var h := CalcNodeHash(1, root, Some(imeta.meta));
      SetNode(1, root, Node(true, false, FRESH_NODE.image.(hash := h)));
      dirty := true;
      assert Values(nodes) == NewTree(c, fek).nodes;
    }

    /** tee_fs_htree_open with create == true. */
    static method CreateTree(c: Crypto, stor: Storage, fek: Key, iv: Iv) returns (ht: HashTree)
      modifies stor
      ensures fresh(ht) && fresh(ht.nodes) && ht.c == c && ht.stor == stor && ht.Valid()
      ensures var r := Create(c, fek, iv);
              ht.Abs() == r.0 && stor.log == old(stor.log) + r.1 && stor.disk == ApplyAll(old(stor.disk), r.1)
    {
      ht := new HashTree(c, stor);
      ht.InitRootNode(fek);
      ht.Sync(iv);
      stor.Put(WriteHead(false, ZERO_HEAD));
      ApplyAllLast(old(stor.disk), SyncTree(c, NewTree(c, fek), iv).1, WriteHead(false, ZERO_HEAD));
    }
  }
}
