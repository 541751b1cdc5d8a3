/**
 The secure-storage hash tree of core/tee/fs_htree.c on values: what is on
 disk, what is in memory, and what each operation computes.

 Nodes are numbered as in the source: node 1 is the root and the children of
 node i are 2i and 2i+1.  Node i sits at index i-1 of a sequence, and block n
 belongs to node n+1.
 */
module HTreeModel {
  import opened Common

  type Digest = int
  type Tag = int
  type Iv = int
  type Key = int
  type Cipher = int
  type Data = seq<bv8>

  const COUNTER_LIMIT: nat := 0x1_0000_0000

  /** The flag bits of a node image: which version of its block and of its two children is committed. */
  datatype Flags = Flags(block: bool, child0: bool, child1: bool) {
    function Child(odd: bool): bool {
      if odd then child1 else child0
    }
    function FlipChild(odd: bool): Flags {
      if odd then this.(child1 := !child1) else this.(child0 := !child0)
    }
    function FlipBlock(): Flags {
      this.(block := !block)
    }
  }

  datatype NodeImage = NodeImage(hash: Digest, iv: Iv, tag: Tag, flags: Flags)
  datatype Meta = Meta(length: nat)
  datatype Imeta = Imeta(meta: Meta, maxNodeId: nat)
  datatype Head = Head(iv: Iv, tag: Tag, encFek: Key, imeta: Cipher, counter: nat)

  datatype HashInput = HashInput(iv: Iv, tag: Tag, flags: Flags, meta: Option<Meta>,
                                 child0: Option<Digest>, child1: Option<Digest>)
  datatype Aad =
    | NodeAad(encFek: Key, iv: Iv)
    | HeadAad(rootHash: Digest, counter: nat, encFek: Key, iv: Iv)

  /**
   The cryptography, as uninterpreted functions.  `trunc` is the part of the
   root hash that goes into the header's associated data: the source passes
   TEE_FS_HTREE_FEK_SIZE bytes of it (core/tee/fs_htree.c:473-474).
   */
  datatype Crypto = Crypto(
    hash: HashInput -> Digest,
    trunc: Digest -> Digest,
    sealData: (Key, Iv, Aad, Data) -> (Cipher, Tag),
    unsealData: (Key, Iv, Aad, Cipher, Tag) -> Option<Data>,
    sealImeta: (Key, Iv, Aad, Imeta) -> (Cipher, Tag),
    unsealImeta: (Key, Iv, Aad, Cipher, Tag) -> Option<Imeta>,
    wrap: Key -> Key,
    unwrap: Key -> Key)

  /** Decryption undoes encryption; nothing else is assumed of the cryptography. */
  ghost predicate Lawful(c: Crypto) {
    && (forall k, iv, a, p :: var e := c.sealData(k, iv, a, p); c.unsealData(k, iv, a, e.0, e.1) == Some(p))
    && (forall k, iv, a, p :: var e := c.sealImeta(k, iv, a, p); c.unsealImeta(k, iv, a, e.0, e.1) == Some(p))
    && (forall k :: c.unwrap(c.wrap(k)) == k)
  }

  // ----- storage

  /** Every element has two versions; the version is the boolean of each key. */
  datatype Disk = Disk(heads: map<bool, Head>, nodes: map<(nat, bool), NodeImage>, blocks: map<(nat, bool), Cipher>)

  datatype Write =
    | WriteHead(vers: bool, head: Head)
    | WriteNode(id: nat, nodeVers: bool, image: NodeImage)
    | WriteBlock(num: nat, blockVers: bool, cipher: Cipher)

  function Apply(d: Disk, w: Write): Disk {
    match w
    case WriteHead(v, h) => d.(heads := d.heads[v := h])
    case WriteNode(id, v, im) => d.(nodes := d.nodes[(id, v) := im])
    case WriteBlock(n, v, ct) => d.(blocks := d.blocks[(n, v) := ct])
  }

  function ApplyAll(d: Disk, ws: seq<Write>): Disk
    decreases |ws|
  {
    if ws == [] then d else Apply(ApplyAll(d, ws[..|ws|-1]), ws[|ws|-1])
  }

  function ReadHead(d: Disk, v: bool): Result<Head> {
    if v in d.heads then Ok(d.heads[v]) else Err(CorruptObject)
  }

  function ReadNode(d: Disk, id: nat, v: bool): Result<NodeImage> {
    if (id, v) in d.nodes then Ok(d.nodes[(id, v)]) else Err(CorruptObject)
  }

  // ----- memory

  datatype Node = Node(dirty: bool, blockUpdated: bool, image: NodeImage)

  const NO_FLAGS := Flags(false, false, false)
  const FRESH_NODE := Node(false, false, NodeImage(0, 0, 0, NO_FLAGS))

  datatype Tree = Tree(nodes: seq<Node>, head: Head, fek: Key, imeta: Imeta, dirty: bool)

  /** The in-memory tree is the complete heap of ids 1..max(1, max_node_id). */
  predicate Shaped(t: Tree) {
    |t.nodes| == Max(1, t.imeta.maxNodeId)
  }

  function Odd(n: nat): bool {
    n % 2 == 1
  }

  predicate Has(nodes: seq<Node>, id: nat) {
    1 <= id <= |nodes|
  }

  function Image(nodes: seq<Node>, id: nat): NodeImage
    requires Has(nodes, id)
  {
    nodes[id-1].image
  }

  function HashAt(nodes: seq<Node>, id: nat): Option<Digest> {
    if Has(nodes, id) then Some(Image(nodes, id).hash) else None
  }

  /** What calc_node_hash feeds to the digest for node id: everything but its own hash. */
  function NodeHash(c: Crypto, nodes: seq<Node>, id: nat, meta: Meta): Digest
    requires Has(nodes, id)
  {
    var im := Image(nodes, id);
    c.hash(HashInput(im.iv, im.tag, im.flags, if id == 1 then Some(meta) else None,
                     HashAt(nodes, 2*id), HashAt(nodes, 2*id+1)))
  }

  /** The version in which node id is stored, given whose flags decide: the parent's, or `rootVers` for the root. */
  function Vers(nodes: seq<Node>, id: nat, rootVers: bool): bool
    requires Has(nodes, id)
  {
    if id == 1 then rootVers else Image(nodes, id/2).flags.Child(Odd(id))
  }

  // ----- get_node and write_block

  function Grow(nodes: seq<Node>, id: nat): (r: seq<Node>)
    ensures |r| == Max(|nodes|, id)
    ensures forall i :: 0 <= i < |r| ==> r[i] == if i < |nodes| then nodes[i] else FRESH_NODE
    decreases id - |nodes|
  {
    if id <= |nodes| then nodes else Grow(nodes + [FRESH_NODE], id)
  }

  function GetNode(t: Tree, id: nat): Tree {
    if id <= |t.nodes| then t
    else t.(nodes := Grow(t.nodes, id), imeta := t.imeta.(maxNodeId := Max(t.imeta.maxNodeId, id)))
  }

  function WriteBlockNode(c: Crypto, t: Tree, node: Node, data: Data, iv: Iv): (Node, Cipher) {
    var flags := if node.blockUpdated then node.image.flags else node.image.flags.FlipBlock();
    var e := c.sealData(t.fek, iv, NodeAad(t.head.encFek, iv), data);
    (Node(true, true, node.image.(iv := iv, tag := e.1, flags := flags)), e.0)
  }

  function WriteBlockTo(c: Crypto, t: Tree, num: nat, data: Data, iv: Iv): (Tree, seq<Write>) {
    var t1 := GetNode(t, num + 1);
    assert |t1.nodes| >= num + 1;
    var r := WriteBlockNode(c, t1, t1.nodes[num], data, iv);
    (t1.(nodes := t1.nodes[num := r.0], dirty := true), [WriteBlock(num, r.0.image.flags.block, r.1)])
  }

  function ReadBlockFrom(c: Crypto, t: Tree, d: Disk, num: nat): Result<Data> {
    if num >= |t.nodes| then Err(Generic)
    else
      var im := t.nodes[num].image;
      if (num, im.flags.block) !in d.blocks then Err(CorruptObject)
      else
        match c.unsealData(t.fek, im.iv, NodeAad(t.head.encFek, im.iv), d.blocks[(num, im.flags.block)], im.tag)
        case Some(data) => Ok(data)
        case None => Err(CorruptObject)
  }

  /** What reading a block answers: its plaintext exactly when the node, the cell and the seal are good. */
  ghost predicate BlockReads(c: Crypto, t: Tree, d: Disk, num: nat, r: Result<Data>) {
    if num >= |t.nodes| then r == Err(Generic)
    else
      var im := t.nodes[num].image;
      var cell := (num, im.flags.block);
      if cell !in d.blocks then r == Err(CorruptObject)
      else
        && (forall p :: r == Ok(p) <==> c.unsealData(t.fek, im.iv, NodeAad(t.head.encFek, im.iv), d.blocks[cell], im.tag) == Some(p))
        && (r.Err? ==> r.error == CorruptObject)
  }

  lemma BlockReadsIs(c: Crypto, t: Tree, d: Disk, num: nat)
    ensures BlockReads(c, t, d, num, ReadBlockFrom(c, t, d, num))
  {}

  function SetMeta(t: Tree, meta: Meta): Tree
    requires |t.nodes| >= 1
  {
    t.(imeta := t.imeta.(meta := meta), dirty := true, nodes := t.nodes[0 := t.nodes[0].(dirty := true)])
  }

  // ----- sync_to_storage

  datatype SyncEnv = SyncEnv(c: Crypto, meta: Meta, counter: nat)
  datatype Synced = Synced(nodes: seq<Node>, writes: seq<Write>)

  /** The parent of a dirty node turns dirty and points at the other version. */
  function TouchParent(nodes: seq<Node>, id: nat): (r: seq<Node>)
    requires Has(nodes, id)
    ensures |r| == |nodes|
  {
    if id == 1 then nodes
    else
      var p := nodes[id/2 - 1];
      nodes[id/2 - 1 := p.(dirty := true, image := p.image.(flags := p.image.flags.FlipChild(Odd(id))))]
  }

  /** htree_sync_node_to_storage. */
  function SyncNode(e: SyncEnv, nodes: seq<Node>, id: nat): (r: Synced)
    requires Has(nodes, id)
    ensures |r.nodes| == |nodes|
  {
    if !nodes[id-1].dirty then Synced(nodes, [])
    else
      var n1 := TouchParent(nodes, id);
      var im := Image(n1, id).(hash := NodeHash(e.c, n1, id, e.meta));
      Synced(n1[id-1 := Node(false, false, im)], [WriteNode(id, Vers(n1, id, !Odd(e.counter)), im)])
  }

  /** traverse_post_order with the sync callback. */
  function SyncFrom(e: SyncEnv, nodes: seq<Node>, id: nat): (r: Synced)
    requires id >= 1
    ensures |r.nodes| == |nodes|
    decreases |nodes| + 1 - id
  {
    if id > |nodes| then Synced(nodes, [])
    else
      var r0 := SyncFrom(e, nodes, 2*id);
      var r1 := SyncFrom(e, r0.nodes, 2*id+1);
      var r2 := SyncNode(e, r1.nodes, id);
      Synced(r2.nodes, r0.writes + r1.writes + r2.writes)
  }

  function NextCounter(counter: nat): nat {
    (counter + 1) % COUNTER_LIMIT
  }

  /** update_root: a fresh header for the tree as it is in memory. */
  function NewHead(c: Crypto, t: Tree, iv: Iv): Head
    requires |t.nodes| >= 1
  {
    var counter := NextCounter(t.head.counter);
    var s := c.sealImeta(t.fek, iv, HeadAad(c.trunc(Image(t.nodes, 1).hash), counter, t.head.encFek, iv), t.imeta);
    Head(iv, s.1, t.head.encFek, s.0, counter)
  }

  function SyncTree(c: Crypto, t: Tree, iv: Iv): (Tree, seq<Write>)
    requires |t.nodes| >= 1
  {
    if !t.dirty then (t, [])
    else
      var r := SyncFrom(SyncEnv(c, t.imeta.meta, t.head.counter), t.nodes, 1);
      var h := NewHead(c, t.(nodes := r.nodes), iv);
      (t.(nodes := r.nodes, head := h, dirty := false), r.writes + [WriteHead(Odd(h.counter), h)])
  }

  // ----- truncate

  function TruncateTo(t: Tree, num: nat): Tree
    requires Shaped(t)
  {
    if t.imeta.maxNodeId <= num + 1 then t
    else t.(nodes := t.nodes[..num + 1], imeta := t.imeta.(maxNodeId := num + 1), dirty := true)
  }

  // ----- open

  /** get_idx_from_counter; None is the source's -1. */
  function SelectHead(counter0: nat, counter1: nat): Option<bool> {
    if !Odd(counter0) then
      if !Odd(counter1) then Some(false)
      else Some(counter0 <= counter1)
    else if Odd(counter1) then Some(true) else None
  }

  /** The header in place v has a counter of the parity of that place. */
  predicate InPlace(counter0: nat, counter1: nat, v: bool) {
    Odd(if v then counter1 else counter0) == v
  }

  /** The header chosen is one whose counter fits its place, the newer one if both do; none if neither does. */
  lemma SelectHeadNewest(counter0: nat, counter1: nat)
    ensures SelectHead(counter0, counter1).None? <==> !InPlace(counter0, counter1, false) && !InPlace(counter0, counter1, true)
    ensures forall v :: SelectHead(counter0, counter1) == Some(v) ==> InPlace(counter0, counter1, v)
    ensures InPlace(counter0, counter1, false) && InPlace(counter0, counter1, true) ==>
      SelectHead(counter0, counter1) == Some(counter1 > counter0)
  {}

  datatype Start = Start(head: Head, root: NodeImage)

  /** init_head_from_data without a hash. */
  function InitHead(d: Disk): Result<Start> {
    if ReadHead(d, false).Err? then Err(ReadHead(d, false).error)
    else if ReadHead(d, true).Err? then Err(ReadHead(d, true).error)
    else
      match SelectHead(d.heads[false].counter, d.heads[true].counter)
      case None => Err(Security)
      case Some(v) =>
        match ReadNode(d, 1, v)
        case Err(e) => Err(e)
        case Ok(im) => Ok(Start(d.heads[v], im))
  }

  /** verify_root: decrypt the inner metadata under the header's counter and the root hash. */
  function VerifyRoot(c: Crypto, s: Start): Result<Imeta> {
    match c.unsealImeta(c.unwrap(s.head.encFek), s.head.iv,
                        HeadAad(c.trunc(s.root.hash), s.head.counter, s.head.encFek, s.head.iv),
                        s.head.imeta, s.head.tag)
    case Some(im) => Ok(im)
    case None => Err(CorruptObject)
  }

  function CleanNode(im: NodeImage): Node {
    Node(false, false, im)
  }

  /** init_tree_from_data: each node is read in the version its parent's flags name. */
  function LoadNodes(d: Disk, nodes: seq<Node>, maxNodeId: nat): (r: Result<seq<Node>>)
    requires |nodes| >= 1
    ensures r.Ok? ==> |r.value| == Max(|nodes|, maxNodeId) && nodes <= r.value
    decreases maxNodeId - |nodes|
  {
    var id := |nodes| + 1;
    if id > maxNodeId then Ok(nodes)
    else
      match ReadNode(d, id, Image(nodes, id/2).flags.Child(Odd(id)))
      case Err(e) => Err(e)
      case Ok(im) => LoadNodes(d, nodes + [CleanNode(im)], maxNodeId)
  }

  /** verify_tree accepts exactly when every stored hash is the recomputed one. */
  predicate HashesMatch(c: Crypto, nodes: seq<Node>, meta: Meta) {
    forall id {:trigger NodeHash(c, nodes, id, meta)} :: 1 <= id <= |nodes| ==> Image(nodes, id).hash == NodeHash(c, nodes, id, meta)
  }

  /** init_head_from_data with a hash: the version whose root node carries it. */
  function InitHeadWith(d: Disk, hash: Digest): Result<Start> {
    match ReadNode(d, 1, false)
    case Err(e) => Err(e)
    case Ok(im) =>
      if im.hash == hash then StartAt(d, false, im)
      else
        match ReadNode(d, 1, true)
        case Err(e) => Err(e)
        case Ok(im1) => if im1.hash == hash then StartAt(d, true, im1) else Err(Security)
  }

  function StartAt(d: Disk, v: bool, root: NodeImage): Result<Start> {
    match ReadHead(d, v)
    case Err(e) => Err(e)
    case Ok(h) => Ok(Start(h, root))
  }

  /** The rest of opening: verify_root, init_tree_from_data, verify_tree. */
  function OpenFrom(c: Crypto, d: Disk, s: Start): Result<Tree> {
    match VerifyRoot(c, s)
    case Err(e) => Err(e)
    case Ok(imeta) =>
      match LoadNodes(d, [CleanNode(s.root)], imeta.maxNodeId)
      case Err(e) => Err(e)
      case Ok(nodes) =>
        if HashesMatch(c, nodes, imeta.meta)
        then Ok(Tree(nodes, s.head, c.unwrap(s.head.encFek), imeta, false))
        else Err(CorruptObject)
  }

  /** tee_fs_htree_open with create == false and no hash. */
  function Open(c: Crypto, d: Disk): Result<Tree> {
    match InitHead(d)
    case Err(e) => Err(e)
    case Ok(s) => OpenFrom(c, d, s)
  }

  /** And with a hash. */
  function OpenWith(c: Crypto, d: Disk, hash: Digest): Result<Tree> {
    match InitHeadWith(d, hash)
    case Err(e) => Err(e)
    case Ok(s) => OpenFrom(c, d, s)
  }

  // ----- create

  const ZERO_HEAD := Head(0, 0, 0, 0, 0)
  const EMPTY_DISK := Disk(map[], map[], map[])

  /** init_root_node on a zeroed tree. */
  function NewTree(c: Crypto, fek: Key): Tree {
    var n := [FRESH_NODE.(dirty := true)];
    var h := NodeHash(c, n, 1, Meta(0));
    Tree([Node(true, false, FRESH_NODE.image.(hash := h))], ZERO_HEAD.(encFek := c.wrap(fek)), fek,
         Imeta(Meta(0), 0), true)
  }

  /** tee_fs_htree_open with create == true: a first sync, then the dummy header of version 0. */
  function Create(c: Crypto, fek: Key, iv: Iv): (Tree, seq<Write>) {
    var r := SyncTree(c, NewTree(c, fek), iv);
    (r.0, r.1 + [WriteHead(false, ZERO_HEAD)])
  }
}
