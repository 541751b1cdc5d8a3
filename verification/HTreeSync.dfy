/**
 What one post-order sync pass does to the whole tree: the incremental pass,
 which touches only dirty nodes and their ancestors, leaves every stored hash
 equal to a full rehash and writes each changed node once its own subtree is final.
 */
module HTreeSync {
  import opened Common
  import opened HTreeModel

  /** Node j lies in the subtree of node r. */
  ghost predicate Under(j: nat, r: nat)
    requires r >= 1
  {
    j == r || (j > r && Under(j/2, r))
  }

  lemma {:induction false} UnderSplit(j: nat, r: nat)
    requires r >= 1
    ensures Under(j, r) <==> j == r || Under(j, 2*r) || Under(j, 2*r+1)
    ensures !(Under(j, 2*r) && Under(j, 2*r+1))
    ensures Under(j, r) ==> j >= r
  {
    if j > r {
      UnderSplit(j/2, r);
      if j/2 == r { assert j == 2*r || j == 2*r+1; }
    }
  }

  lemma UnderSplitAll(r: nat, c0: nat, c1: nat)
    requires r >= 1 && c0 == 2*r && c1 == 2*r+1
    ensures forall j: nat :: Under(j, r) <==> j == r || Under(j, c0) || Under(j, c1)
    ensures forall j: nat :: !(Under(j, c0) && Under(j, c1))
    ensures forall j: nat :: Under(j, r) ==> j >= r
    ensures forall j: nat :: Under(j, c0) ==> j >= c0
    ensures forall j: nat :: Under(j, c1) ==> j >= c1
  {
    forall j: nat
      ensures Under(j, r) <==> j == r || Under(j, c0) || Under(j, c1)
      ensures !(Under(j, c0) && Under(j, c1))
      ensures Under(j, r) ==> j >= r
      ensures Under(j, c0) ==> j >= c0
      ensures Under(j, c1) ==> j >= c1
    {
      UnderSplit(j, r);
      UnderSplit(j, c0);
      UnderSplit(j, c1);
    }
  }

  lemma {:induction false} UnderRoot(j: nat)
    requires j >= 1
    ensures Under(j, 1)
  {
    if j > 1 { UnderRoot(j/2); }
  }

  /** The parent of a node strictly inside a subtree is in that subtree. */
  lemma UnderParent(j: nat, r: nat)
    requires r >= 1 && Under(j, r) && j != r
    ensures j > r && Under(j/2, r)
  {}

  /** Some node in the subtree of id is dirty. */
  ghost predicate Pending(nodes: seq<Node>, id: nat)
    requires id >= 1
    decreases |nodes| + 1 - id
  {
    Has(nodes, id) && (nodes[id-1].dirty || Pending(nodes, 2*id) || Pending(nodes, 2*id+1))
  }

  lemma {:induction false} PendingLocal(a: seq<Node>, b: seq<Node>, id: nat)
    requires id >= 1 && |a| == |b|
    requires forall j {:trigger Under(j, id)} :: Has(a, j) && Under(j, id) ==> a[j-1].dirty == b[j-1].dirty
    ensures Pending(a, id) == Pending(b, id)
    decreases |a| + 1 - id
  {
    if id <= |a| {
      assert Under(id, id);
      UnderSplitAll(id, 2*id, 2*id+1);
      PendingLocal(a, b, 2*id);
      PendingLocal(a, b, 2*id+1);
    }
  }

  lemma {:induction false} DirtyMeansPending(nodes: seq<Node>, j: nat, id: nat)
    requires id >= 1 && Has(nodes, j) && Under(j, id) && nodes[j-1].dirty
    ensures Pending(nodes, id)
    decreases |nodes| + 1 - id
  {
    UnderSplit(j, id);
    if Under(j, 2*id) { UnderSplit(j, 2*id); DirtyMeansPending(nodes, j, 2*id); }
    else if Under(j, 2*id+1) { UnderSplit(j, 2*id+1); DirtyMeansPending(nodes, j, 2*id+1); }
  }

  /** The source's assert: an updated block has a dirty node. */
  ghost predicate BlocksDirty(nodes: seq<Node>) {
    forall i :: 0 <= i < |nodes| && nodes[i].blockUpdated ==> nodes[i].dirty
  }

  ghost function FinalFlags(nodes: seq<Node>, id: nat): Flags
    requires Has(nodes, id)
  {
    var f := Image(nodes, id).flags;
    Flags(f.block, f.child0 != Pending(nodes, 2*id), f.child1 != Pending(nodes, 2*id+1))
  }

  /** How node j ends up after a sync pass over a subtree that contains it. */
  ghost predicate Settled(e: SyncEnv, nodes: seq<Node>, after: seq<Node>, j: nat)
    requires |after| == |nodes| && Has(nodes, j)
  {
    var n, a := nodes[j-1], after[j-1];
    && !a.dirty && !a.blockUpdated
    && a.image.iv == n.image.iv && a.image.tag == n.image.tag
    && a.image.flags == FinalFlags(nodes, j)
    && a.image.hash == if Pending(nodes, j) then NodeHash(e.c, after, j, e.meta) else n.image.hash
  }

  ghost predicate Wrote(ws: seq<Write>, j: nat) {
    exists k :: 0 <= k < |ws| && ws[k].WriteNode? && ws[k].id == j
  }

  /** A write of the pass: a pending node's final image, in the version its parent's final flags name. */
  ghost predicate GoodWrite(e: SyncEnv, nodes: seq<Node>, after: seq<Node>, id: nat, w: Write)
    requires id >= 1 && |after| == |nodes|
  {
    && w.WriteNode? && Has(nodes, w.id) && Under(w.id, id) && Pending(nodes, w.id)
    && w.nodeVers == Vers(after, w.id, !Odd(e.counter))
    && w.image == Image(after, w.id)
  }

  ghost predicate Effect(e: SyncEnv, nodes: seq<Node>, r: Synced, id: nat)
    requires id >= 1
  {
    && |r.nodes| == |nodes|
    && (forall j {:trigger Under(j, id)} :: Has(nodes, j) && Under(j, id) ==> Settled(e, nodes, r.nodes, j))
    && (forall j {:trigger Under(j, id)} :: Has(nodes, j) && !Under(j, id) && j != id/2 ==> r.nodes[j-1] == nodes[j-1])
    && (1 < id && Has(nodes, id/2) ==>
          r.nodes[id/2-1] == if Pending(nodes, id) then TouchParent(nodes, id)[id/2-1] else nodes[id/2-1])
    && (forall k :: 0 <= k < |r.writes| ==> GoodWrite(e, nodes, r.nodes, id, r.writes[k]))
    && (forall j {:trigger Wrote(r.writes, j)} :: Has(nodes, j) && Under(j, id) && Pending(nodes, j) ==> Wrote(r.writes, j))
  }

  /** The two subtree passes, seen from the parent: everything below is settled, the parent's bits are final. */
  ghost predicate Below(e: SyncEnv, nodes: seq<Node>, mid: seq<Node>, id: nat)
    requires Has(nodes, id)
  {
    && |mid| == |nodes|
    && (forall j {:trigger Under(j, id)} :: Has(nodes, j) && Under(j, id) && j != id ==> Settled(e, nodes, mid, j))
    && (forall j {:trigger Under(j, id)} :: Has(nodes, j) && !Under(j, id) ==> mid[j-1] == nodes[j-1])
    && (var n, m := nodes[id-1], mid[id-1];
        m == n.(dirty := Pending(nodes, id), image := n.image.(flags := FinalFlags(nodes, id))))
  }

  /** A settled node stays settled while its subtree is left alone. */
  lemma SettledKept(e: SyncEnv, nodes: seq<Node>, a: seq<Node>, mid: seq<Node>, j: nat)
    requires |nodes| == |a| == |mid| && Has(nodes, j)
    requires Settled(e, nodes, a, j)
    requires forall i {:trigger Under(i, j)} :: Has(nodes, i) && Under(i, j) ==> mid[i-1] == a[i-1]
    ensures Settled(e, nodes, mid, j)
  {
    UnderSplit(2*j, j);
    UnderSplit(2*j+1, j);
    assert Under(j, j) && Under(2*j, j) && Under(2*j+1, j);
    assert NodeHash(e.c, a, j, e.meta) == NodeHash(e.c, mid, j, e.meta);
  }

  /** Settling from a tree that differs only elsewhere is settling from the original. */
  lemma SettledRebase(e: SyncEnv, nodes: seq<Node>, a: seq<Node>, mid: seq<Node>, j: nat)
    requires |nodes| == |a| == |mid| && Has(nodes, j)
    requires Settled(e, a, mid, j)
    requires forall i {:trigger Under(i, j)} :: Has(nodes, i) && Under(i, j) ==> a[i-1] == nodes[i-1]
    ensures Settled(e, nodes, mid, j) && Pending(a, j) == Pending(nodes, j)
  {
    UnderSplitAll(j, 2*j, 2*j+1);
    assert Under(j, j);
    PendingLocal(nodes, a, j);
    PendingLocal(nodes, a, 2*j);
    PendingLocal(nodes, a, 2*j+1);
  }

  lemma BelowChild(e: SyncEnv, nodes: seq<Node>, r0: Synced, r1: Synced, id: nat, c0: nat, c1: nat, j: nat)
    requires c0 == 2*id && c1 == 2*id+1 && Has(nodes, id) && Has(nodes, j) && Under(j, id) && j != id
    requires Effect(e, nodes, r0, c0) && Effect(e, r0.nodes, r1, c1)
    ensures Settled(e, nodes, r1.nodes, j)
    ensures Under(j, c0) ==> r1.nodes[j-1] == r0.nodes[j-1]
    ensures Under(j, c1) ==> Pending(r0.nodes, j) == Pending(nodes, j)
  {
    UnderSplitAll(id, c0, c1);
    if Under(j, c0) {
      UnderTrans(j, c0);
      SettledKept(e, nodes, r0.nodes, r1.nodes, j);
    } else {
      UnderTrans(j, c1);
      assert Settled(e, r0.nodes, r1.nodes, j);
      SettledRebase(e, nodes, r0.nodes, r1.nodes, j);
    }
  }

  lemma RightUntouched(e: SyncEnv, nodes: seq<Node>, r0: Synced, id: nat, c0: nat, c1: nat)
    requires c0 == 2*id && c1 == 2*id+1 && Has(nodes, id) && Effect(e, nodes, r0, c0)
    ensures forall j {:trigger Under(j, c1)} :: Has(nodes, j) && Under(j, c1) ==> r0.nodes[j-1] == nodes[j-1]
  {
    forall j: nat | Has(nodes, j) && Under(j, c1)
      ensures r0.nodes[j-1] == nodes[j-1]
    {
      UnderSplit(j, id);
      UnderSplit(j, c1);
    }
  }

  ghost function ParentAfter(nodes: seq<Node>, id: nat, c: nat): Node
    requires Has(nodes, id) && (c == 2*id || c == 2*id+1)
  {
    if Pending(nodes, c) then TouchParent(nodes, c)[id-1] else nodes[id-1]
  }

  lemma EffectOnParent(e: SyncEnv, nodes: seq<Node>, r: Synced, id: nat, c: nat)
    requires Has(nodes, id) && (c == 2*id || c == 2*id+1) && Effect(e, nodes, r, c)
    ensures r.nodes[id-1] == ParentAfter(nodes, id, c)
  {
    assert c/2 == id;
  }

  lemma ParentAfterBoth(nodes: seq<Node>, a: seq<Node>, mid: seq<Node>, id: nat)
    requires Has(nodes, id) && |a| == |mid| == |nodes|
    requires a[id-1] == ParentAfter(nodes, id, 2*id) && mid[id-1] == ParentAfter(a, id, 2*id+1)
    requires Pending(a, 2*id+1) == Pending(nodes, 2*id+1)
    ensures var n, m := nodes[id-1], mid[id-1];
            && a[id-1].image.flags.child0 == m.image.flags.child0
            && m == n.(dirty := Pending(nodes, id), image := n.image.(flags := FinalFlags(nodes, id)))
  {
    assert (2*id)/2 == id && (2*id+1)/2 == id;
  }

  lemma BelowParent(e: SyncEnv, nodes: seq<Node>, r0: Synced, r1: Synced, id: nat, c0: nat, c1: nat)
    requires c0 == 2*id && c1 == 2*id+1 && Has(nodes, id)
    requires Effect(e, nodes, r0, c0) && Effect(e, r0.nodes, r1, c1)
    ensures var n, m := nodes[id-1], r1.nodes[id-1];
            && r0.nodes[id-1].image.flags.child0 == m.image.flags.child0
            && m == n.(dirty := Pending(nodes, id), image := n.image.(flags := FinalFlags(nodes, id)))
  {
    EffectOnParent(e, nodes, r0, id, c0);
    EffectOnParent(e, r0.nodes, r1, id, c1);
    RightUntouched(e, nodes, r0, id, c0, c1);
    PendingLocal(nodes, r0.nodes, c1);
    ParentAfterBoth(nodes, r0.nodes, r1.nodes, id);
  }

  lemma SettledBelow(e: SyncEnv, nodes: seq<Node>, r0: Synced, r1: Synced, id: nat, c0: nat, c1: nat)
    requires c0 == 2*id && c1 == 2*id+1 && Has(nodes, id)
    requires Effect(e, nodes, r0, c0) && Effect(e, r0.nodes, r1, c1)
    ensures Below(e, nodes, r1.nodes, id)
    ensures forall j {:trigger Under(j, c0)} :: Has(nodes, j) && Under(j, c0) ==> r1.nodes[j-1] == r0.nodes[j-1]
    ensures forall j {:trigger Under(j, c1)} :: Has(nodes, j) && Under(j, c1) ==> Pending(r0.nodes, j) == Pending(nodes, j)
  {
    UnderSplitAll(id, c0, c1);
    BelowParent(e, nodes, r0, r1, id, c0, c1);
    forall j: nat | Has(nodes, j) && Under(j, id) && j != id
      ensures Settled(e, nodes, r1.nodes, j)
      ensures Under(j, c0) ==> r1.nodes[j-1] == r0.nodes[j-1]
      ensures Under(j, c1) ==> Pending(r0.nodes, j) == Pending(nodes, j)
    {
      BelowChild(e, nodes, r0, r1, id, c0, c1, j);
    }
  }

  lemma {:induction false} UnderTransOne(i: nat, j: nat, r: nat)
    requires r >= 1 && j >= 1 && Under(j, r) && Under(i, j)
    ensures Under(i, r)
    decreases i
  {
    UnderSplit(j, r);
    if i != j { UnderTransOne(i/2, j, r); }
  }

  lemma UnderTrans(j: nat, r: nat)
    requires r >= 1 && j >= 1 && Under(j, r)
    ensures forall i: nat :: Under(i, j) ==> Under(i, r)
  {
    forall i: nat | Under(i, j) ensures Under(i, r) { UnderTransOne(i, j, r); }
  }

  /** The callback on one node: that node, its parent, nothing else. */
  lemma SyncNodeFrame(e: SyncEnv, mid: seq<Node>, id: nat)
    requires Has(mid, id)
    ensures var r := SyncNode(e, mid, id);
            && |r.nodes| == |mid|
            && (forall j {:trigger r.nodes[j-1]} :: Has(mid, j) && j != id && j != id/2 ==> r.nodes[j-1] == mid[j-1])
            && (1 < id ==> r.nodes[id/2-1] == if mid[id-1].dirty then TouchParent(mid, id)[id/2-1] else mid[id/2-1])
            && (var a, m := r.nodes[id-1], mid[id-1];
                if m.dirty then
                  && a == Node(false, false, m.image.(hash := NodeHash(e.c, r.nodes, id, e.meta)))
                  && r.writes == [WriteNode(id, Vers(r.nodes, id, !Odd(e.counter)), Image(r.nodes, id))]
                else a == m && r.writes == [])
  {
    var r := SyncNode(e, mid, id);
    if mid[id-1].dirty {
      var n1 := TouchParent(mid, id);
      assert n1[id-1] == mid[id-1];
      assert HashAt(n1, 2*id) == HashAt(r.nodes, 2*id) && HashAt(n1, 2*id+1) == HashAt(r.nodes, 2*id+1);
      assert NodeHash(e.c, n1, id, e.meta) == NodeHash(e.c, r.nodes, id, e.meta);
    }
  }

  lemma SettledAbove(e: SyncEnv, nodes: seq<Node>, mid: seq<Node>, id: nat)
    requires Has(nodes, id) && BlocksDirty(nodes)
    requires Below(e, nodes, mid, id)
    ensures var r := SyncNode(e, mid, id);
            && |r.nodes| == |nodes|
            && (forall j {:trigger Under(j, id)} :: Has(nodes, j) && Under(j, id) ==> Settled(e, nodes, r.nodes, j))
            && (forall j {:trigger Under(j, id)} :: Has(nodes, j) && !Under(j, id) && j != id/2 ==> r.nodes[j-1] == nodes[j-1])
            && (1 < id ==> r.nodes[id/2-1] == if Pending(nodes, id) then TouchParent(nodes, id)[id/2-1] else nodes[id/2-1])
            && TopDone(e, nodes, mid, r, id)
  {
    var r := SyncNode(e, mid, id);
    SyncNodeFrame(e, mid, id);
    UnderSplit(id/2, id);
    assert !Under(id/2, id);
    forall j: nat | Has(nodes, j) && Under(j, id) && j != id
      ensures Settled(e, nodes, r.nodes, j) && r.nodes[j-1] == mid[j-1]
    {
      UnderTrans(j, id);
      UnderSplit(j, id);
      UnderSplit(id, j);
      forall i: nat | Has(nodes, i) && Under(i, j) ensures r.nodes[i-1] == mid[i-1] { UnderSplit(i, j); }
      SettledKept(e, nodes, mid, r.nodes, j);
    }
    assert Under(id, id);
  }

  lemma WritesStayGood(e: SyncEnv, nodes: seq<Node>, base: seq<Node>, before: seq<Node>, after: seq<Node>, sub: nat, id: nat, w: Write)
    requires id >= 1 && sub >= 1 && (sub == 2*id || sub == 2*id+1)
    requires |base| == |before| == |after| == |nodes| && Has(nodes, id)
    requires GoodWrite(e, base, before, sub, w)
    requires Under(w.id, sub) ==> Pending(base, w.id) == Pending(nodes, w.id)
    requires forall j {:trigger Under(j, sub)} :: Has(nodes, j) && Under(j, sub) ==> after[j-1] == before[j-1]
    requires after[id-1].image.flags.Child(Odd(sub)) == before[id-1].image.flags.Child(Odd(sub))
    ensures GoodWrite(e, nodes, after, id, w)
  {
    UnderSplit(w.id, id);
    UnderSplit(w.id, sub);
    if w.id != sub { UnderParent(w.id, sub); }
  }

  lemma BlocksStayDirty(e: SyncEnv, nodes: seq<Node>, r: Synced, id: nat)
    requires id >= 2 && BlocksDirty(nodes) && Effect(e, nodes, r, id)
    ensures BlocksDirty(r.nodes)
  {
    forall i | 0 <= i < |nodes| && r.nodes[i].blockUpdated
      ensures r.nodes[i].dirty
    {
      var j := i + 1;
      assert Has(nodes, j);
      assert !Under(j, id);
    }
  }

  ghost predicate TopDone(e: SyncEnv, nodes: seq<Node>, mid: seq<Node>, r2: Synced, id: nat)
    requires Has(nodes, id) && |mid| == |nodes|
  {
    && |r2.nodes| == |nodes|
    && (forall j {:trigger Under(j, id)} :: Has(nodes, j) && Under(j, id) && j != id ==> r2.nodes[j-1] == mid[j-1])
    && r2.nodes[id-1].image.flags == mid[id-1].image.flags
    && r2.writes == (if Pending(nodes, id)
                     then [WriteNode(id, Vers(r2.nodes, id, !Odd(e.counter)), Image(r2.nodes, id))] else [])
  }

  /** Writes good for one child's pass are good for the parent's pass. */
  lemma LiftWrites(e: SyncEnv, nodes: seq<Node>, base: seq<Node>, before: seq<Node>, after: seq<Node>,
                   sub: nat, id: nat, ws: seq<Write>)
    requires id >= 1 && (sub == 2*id || sub == 2*id+1)
    requires |base| == |before| == |after| == |nodes| && Has(nodes, id)
    requires forall k :: 0 <= k < |ws| ==> GoodWrite(e, base, before, sub, ws[k])
    requires forall j {:trigger Under(j, sub)} :: Has(nodes, j) && Under(j, sub) ==> Pending(base, j) == Pending(nodes, j)
    requires forall j {:trigger Under(j, sub)} :: Has(nodes, j) && Under(j, sub) ==> after[j-1] == before[j-1]
    requires after[id-1].image.flags.Child(Odd(sub)) == before[id-1].image.flags.Child(Odd(sub))
    ensures forall k :: 0 <= k < |ws| ==> GoodWrite(e, nodes, after, id, ws[k])
  {
    forall k | 0 <= k < |ws|
      ensures GoodWrite(e, nodes, after, id, ws[k])
    {
      WritesStayGood(e, nodes, base, before, after, sub, id, ws[k]);
    }
  }

  lemma JoinWrote(nodes: seq<Node>, w0: seq<Write>, w1: seq<Write>, w2: seq<Write>, id: nat, j: nat)
    requires Has(nodes, id) && Under(j, id)
    requires Under(j, 2*id) ==> Wrote(w0, j)
    requires Under(j, 2*id+1) ==> Wrote(w1, j)
    requires j == id ==> Wrote(w2, j)
    ensures Wrote(w0 + w1 + w2, j)
  {
    var ws := w0 + w1 + w2;
    UnderSplit(j, id);
    if Wrote(w0, j) {
      var k :| 0 <= k < |w0| && w0[k].WriteNode? && w0[k].id == j;
      assert ws[k] == w0[k];
    } else if Wrote(w1, j) {
      var k :| 0 <= k < |w1| && w1[k].WriteNode? && w1[k].id == j;
      assert ws[|w0| + k] == w1[k];
    } else {
      var k :| 0 <= k < |w2| && w2[k].WriteNode? && w2[k].id == j;
      assert ws[|w0| + |w1| + k] == w2[k];
    }
  }

  lemma JoinGood(e: SyncEnv, nodes: seq<Node>, r0: Synced, r1: Synced, r2: Synced, id: nat, c0: nat, c1: nat)
    requires c0 == 2*id && c1 == 2*id+1 && Has(nodes, id)
    requires Effect(e, nodes, r0, c0) && Effect(e, r0.nodes, r1, c1)
    requires forall j {:trigger Under(j, c0)} :: Has(nodes, j) && Under(j, c0) ==> r1.nodes[j-1] == r0.nodes[j-1]
    requires forall j {:trigger Under(j, c1)} :: Has(nodes, j) && Under(j, c1) ==> Pending(r0.nodes, j) == Pending(nodes, j)
    requires TopDone(e, nodes, r1.nodes, r2, id)
    ensures forall k :: 0 <= k < |r0.writes| ==> GoodWrite(e, nodes, r2.nodes, id, r0.writes[k])
    ensures forall k :: 0 <= k < |r1.writes| ==> GoodWrite(e, nodes, r2.nodes, id, r1.writes[k])
    ensures forall k :: 0 <= k < |r2.writes| ==> GoodWrite(e, nodes, r2.nodes, id, r2.writes[k])
  {
    BelowParent(e, nodes, r0, r1, id, c0, c1);
    UnderSplitAll(id, c0, c1);
    LiftWrites(e, nodes, nodes, r0.nodes, r2.nodes, c0, id, r0.writes);
    LiftWrites(e, nodes, r0.nodes, r1.nodes, r2.nodes, c1, id, r1.writes);
  }

  lemma JoinAllWrote(e: SyncEnv, nodes: seq<Node>, r0: Synced, r1: Synced, r2: Synced, id: nat, c0: nat, c1: nat, j: nat)
    requires c0 == 2*id && c1 == 2*id+1 && Has(nodes, id)
    requires Effect(e, nodes, r0, c0) && Effect(e, r0.nodes, r1, c1)
    requires Under(j, c1) ==> Pending(r0.nodes, j) == Pending(nodes, j)
    requires TopDone(e, nodes, r1.nodes, r2, id)
    requires Has(nodes, j) && Under(j, id) && Pending(nodes, j)
    ensures Wrote(r0.writes + r1.writes + r2.writes, j)
  {
    if j == id { assert r2.writes[0].WriteNode? && r2.writes[0].id == id; }
    JoinWrote(nodes, r0.writes, r1.writes, r2.writes, id, j);
  }

  /** The whole effect of a pass over the subtree of id. */
  lemma {:induction false} SyncFromEffect(e: SyncEnv, nodes: seq<Node>, id: nat)
    requires id >= 1 && BlocksDirty(nodes)
    ensures Effect(e, nodes, SyncFrom(e, nodes, id), id)
    decreases |nodes| + 1 - id
  {
    if id <= |nodes| {
      var c0, c1 := 2*id, 2*id+1;
      var r0 := SyncFrom(e, nodes, c0);
      SyncFromEffect(e, nodes, c0);
      BlocksStayDirty(e, nodes, r0, c0);
      var r1 := SyncFrom(e, r0.nodes, c1);
      SyncFromEffect(e, r0.nodes, c1);
      SettledBelow(e, nodes, r0, r1, id, c0, c1);
      SettledAbove(e, nodes, r1.nodes, id);
      var r2 := SyncNode(e, r1.nodes, id);
      JoinGood(e, nodes, r0, r1, r2, id, c0, c1);
      forall j: nat | Has(nodes, j) && Under(j, id) && Pending(nodes, j)
        ensures Wrote(r0.writes + r1.writes + r2.writes, j)
      {
        JoinAllWrote(e, nodes, r0, r1, r2, id, c0, c1, j);
      }
    } else {
      forall j: nat ensures Under(j, id) ==> j >= id { UnderSplit(j, id); }
    }
  }
}
