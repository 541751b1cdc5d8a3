/**
 The files behind the TA database (core/tee/tadb.c).  A replaced or deleted entry's
 number is released under the mutex and its file is removed later, outside it, so a
 removal can still be pending when the number is in use again.
 */
module TaDbFiles {
  import opened Common
  import opened TaDb

  /** made holds the installs whose file has been created and not discarded. */
  datatype Disk = Disk(db: Db, made: set<Install>, pending: multiset<nat>, present: set<nat>)

  const EMPTY := Disk(START, {}, multiset{}, {})

  datatype Act =
    | Table(e: Event)     // a critical section of the mutex
    | Make(n: Install)    // ta_operation_open with OPTEE_RPC_FS_CREATE
    | Discard(n: Install) // the removal in tee_tadb_ta_close_and_delete
    | Remove(file: nat)   // the removal after a commit or a delete

  predicate CanAct(s: Disk, a: Act) {
    match a
    case Table(e) =>
      Enabled(s.db, e) && (e.Commit? ==> e.n in s.made) && (e.Abandon? ==> e.n !in s.made)
    case Make(n) => n in s.db.installs && n !in s.made
    case Discard(n) => n in s.db.installs && n in s.made
    case Remove(f) => f in s.pending
  }

  /** The number of the entry with this UUID, to be removed. */
  function OldFile(d: Db, u: Uuid): multiset<nat> {
    var i := FindEnt(d.entries, u, 0);
    if i < |d.entries| then multiset{d.entries[i].file} else multiset{}
  }

  function Act1(s: Disk, a: Act): Disk
    requires CanAct(s, a)
  {
    match a
    case Table(e) =>
      var d := Step(s.db, e);
      (match e
       case Commit(n) => Disk(d, s.made - {n}, s.pending + OldFile(s.db, s.db.installs[n].uuid), s.present)
       case Delete(u) => s.(db := d, pending := s.pending + OldFile(s.db, u))
       case _ => s.(db := d))
    case Make(n) => s.(made := s.made + {n}, present := s.present + {s.db.installs[n].file})
    case Discard(n) => s.(made := s.made - {n}, present := s.present - {s.db.installs[n].file})
    case Remove(f) => s.(pending := s.pending - multiset{f}, present := s.present - {f})
  }

  // ----- what is kept

  ghost predicate Known(s: Disk) {
    Inv(s.db) && forall n :: n in s.made ==> n in s.db.installs
  }

  /** Those who need their file: live entries and installs that have made it. */
  predicate Needs(s: Disk, o: Owner) {
    Owns(s.db, o) && (o.Flying? ==> o.n in s.made)
  }

  ghost predicate Intact(s: Disk) {
    forall o :: Needs(s, o) ==> FileOf(s.db, o) in s.present
  }

  /** No owner has a number whose removal is pending. */
  ghost predicate Unthreatened(s: Disk) {
    forall o :: Owns(s.db, o) ==> FileOf(s.db, o) !in s.pending
  }

  lemma ActKnown(s: Disk, a: Act)
    requires Known(s) && CanAct(s, a)
    ensures Known(Act1(s, a))
  {
    if a.Table? {
      StepKeeps(s.db, a.e);
    }
  }

  /** Two owners with one number are one. */
  lemma OneOwner(d: Db, o: Owner, p: Owner)
    requires Inv(d) && Owns(d, o) && Owns(d, p) && FileOf(d, o) == FileOf(d, p)
    ensures o == p
  {
    if o.InTable? && p.InTable? {
      assert o.i < p.i || p.i <= o.i;
    }
  }

  // ----- where the owners of the next state come from

  /** An owner after a commit: the committed install, or an owner from before with another number than the old one. */
  lemma CommitOwners(d: Db, n: Install, o: Owner) returns (p: Owner)
    requires Inv(d) && n in d.installs && Owns(Step(d, Commit(n)), o)
    ensures Owns(d, p) && FileOf(d, p) == FileOf(Step(d, Commit(n)), o) && FileOf(d, p) !in OldFile(d, d.installs[n].uuid)
    ensures p.Flying? ==> p == Flying(n) || p == o
    ensures o.Flying? ==> p == o
  {
    var x := d.installs[n];
    PutEntryIs(d.entries, x);
    var at: nat :| PlacedAt(d.entries, x, PutEntry(d.entries, x), at);
    p := if o == InTable(at) then Flying(n) else o;
    OldApart(d, x.uuid, p);
  }

  /** The entry that is replaced or deleted has its number to itself. */
  lemma OldApart(d: Db, u: Uuid, p: Owner)
    requires Inv(d) && u != NULL_UUID && Owns(d, p) && (p.InTable? ==> d.entries[p.i].uuid != u)
    ensures FileOf(d, p) !in OldFile(d, u)
  {
    var i := FindEnt(d.entries, u, 0);
    if i < |d.entries| && FileOf(d, p) == d.entries[i].file {
      OneOwner(d, InTable(i), p);
    }
  }

  lemma DeleteOwners(d: Db, u: Uuid, o: Owner)
    requires Inv(d) && Enabled(d, Delete(u)) && Owns(Step(d, Delete(u)), o)
    ensures Owns(d, o) && FileOf(d, o) == FileOf(Step(d, Delete(u)), o) && FileOf(d, o) !in OldFile(d, u)
  {
    OldApart(d, u, o);
  }

  lemma CreateOwners(d: Db, n: Install, u: Uuid, o: Owner)
    requires Inv(d) && Enabled(d, Create(n, u)) && Owns(Step(d, Create(n, u)), o)
    ensures o == Flying(n) ==> FileOf(Step(d, Create(n, u)), o) == NewFile(d)
    ensures o != Flying(n) ==> Owns(d, o) && FileOf(d, o) == FileOf(Step(d, Create(n, u)), o)
  {
    PopulatedKeeps(d);
  }

  // ----- exactly when a file is lost, and when a removal becomes a danger

  /** Only the removal of a number that is needed loses a file. */
  lemma IntactIff(s: Disk, a: Act)
    requires Known(s) && CanAct(s, a) && Intact(s)
    ensures Intact(Act1(s, a)) <==> !(a.Remove? && exists o :: Needs(s, o) && FileOf(s.db, o) == a.file)
  {
    match a
    case Table(e) => TableIntact(s, e);
    case Make(n) => MakeIntact(s, n);
    case Discard(n) => DiscardIntact(s, n);
    case Remove(f) =>
      var t := Act1(s, a);
      if o :| Needs(s, o) && FileOf(s.db, o) == f {
        assert Needs(t, o);
      }
  }

  lemma TableIntact(s: Disk, e: Event)
    requires Known(s) && CanAct(s, Table(e)) && Intact(s)
    ensures Intact(Act1(s, Table(e)))
  {
    var t := Act1(s, Table(e));
    forall o | Needs(t, o) ensures FileOf(t.db, o) in t.present {
      match e
      case Commit(n) =>
        var p := CommitOwners(s.db, n, o);
        assert Needs(s, p);
      case Delete(u) =>
        DeleteOwners(s.db, u, o);
        assert Needs(s, o);
      case Create(n, u) =>
        CreateOwners(s.db, n, u, o);
        assert Needs(s, o);
      case _ =>
        assert Needs(s, o);
    }
  }

  lemma MakeIntact(s: Disk, n: Install)
    requires Known(s) && CanAct(s, Make(n)) && Intact(s)
    ensures Intact(Act1(s, Make(n)))
  {
    var t := Act1(s, Make(n));
    forall o | Needs(t, o) ensures FileOf(t.db, o) in t.present {
      assert o == Flying(n) || Needs(s, o);
    }
  }

  lemma DiscardIntact(s: Disk, n: Install)
    requires Known(s) && CanAct(s, Discard(n)) && Intact(s)
    ensures Intact(Act1(s, Discard(n)))
  {
    var t := Act1(s, Discard(n));
    forall o | Needs(t, o) ensures FileOf(t.db, o) in t.present {
      assert Needs(s, o);
      if FileOf(s.db, o) == FileOf(s.db, Flying(n)) {
        OneOwner(s.db, o, Flying(n));
      }
    }
  }

  /** A pending removal becomes a danger exactly when a new install takes its number. */
  lemma UnthreatenedIff(s: Disk, a: Act)
    requires Known(s) && CanAct(s, a) && Unthreatened(s)
    ensures Unthreatened(Act1(s, a)) <==> !(a.Table? && a.e.Create? && NewFile(s.db) in s.pending)
  {
    var t := Act1(s, a);
    if a.Table? && a.e.Create? {
      CreateThreat(s, a.e.n, a.e.uuid);
    } else {
      forall o | Owns(t.db, o) ensures FileOf(t.db, o) !in t.pending {
        OwnerThreat(s, a, o);
      }
    }
  }

  lemma CreateThreat(s: Disk, n: Install, u: Uuid)
    requires Known(s) && CanAct(s, Table(Create(n, u))) && Unthreatened(s)
    ensures Unthreatened(Act1(s, Table(Create(n, u)))) <==> NewFile(s.db) !in s.pending
  {
    var t := Act1(s, Table(Create(n, u)));
    assert Owns(t.db, Flying(n));
    CreateOwners(s.db, n, u, Flying(n));
    forall o | Owns(t.db, o) && o != Flying(n) ensures FileOf(t.db, o) !in t.pending {
      CreateOwners(s.db, n, u, o);
    }
  }

  lemma OwnerThreat(s: Disk, a: Act, o: Owner)
    requires Known(s) && CanAct(s, a) && Unthreatened(s) && !(a.Table? && a.e.Create?) && Owns(Act1(s, a).db, o)
    ensures FileOf(Act1(s, a).db, o) !in Act1(s, a).pending
  {
    if a.Table? && a.e.Commit? {
      var p := CommitOwners(s.db, a.e.n, o);
    } else if a.Table? && a.e.Delete? {
      DeleteOwners(s.db, a.e.uuid, o);
    } else {
      assert Owns(s.db, o);
    }
  }

  // ----- whole runs

  ghost predicate Acts(s: Disk, a: Act, t: Disk) {
    CanAct(s, a) && t == Act1(s, a)
  }

  ghost predicate IsHistory(r: seq<Disk>, acts: seq<Act>) {
    && |r| == |acts| + 1 && r[0] == EMPTY
    && forall i :: 0 <= i < |acts| ==> Acts(r[i], acts[i], r[i + 1])
  }

  /** No install takes a number whose old file is still to be removed. */
  ghost predicate NoReuse(r: seq<Disk>, acts: seq<Act>)
    requires |r| == |acts| + 1
  {
    forall i :: 0 <= i < |acts| && acts[i].Table? && acts[i].e.Create? ==> NewFile(r[i].db) !in r[i].pending
  }

  lemma {:induction false} HistoryKnown(r: seq<Disk>, acts: seq<Act>, i: nat)
    requires IsHistory(r, acts) && i < |r|
    ensures Known(r[i])
  {
    if i > 0 {
      var j: nat := i - 1;
      HistoryKnown(r, acts, j);
      assert Acts(r[j], acts[j], r[j + 1]);
      ActKnown(r[j], acts[j]);
    }
  }

  /** Without reuse every live entry, and every install under way, has its file. */
  lemma {:induction false} FilesSurvive(r: seq<Disk>, acts: seq<Act>, i: nat)
    requires IsHistory(r, acts) && NoReuse(r, acts) && i < |r|
    ensures Intact(r[i]) && Unthreatened(r[i])
  {
    if i > 0 {
      var j: nat := i - 1;
      FilesSurvive(r, acts, j);
      HistoryKnown(r, acts, j);
      assert Acts(r[j], acts[j], r[j + 1]);
      IntactIff(r[j], acts[j]);
      UnthreatenedIff(r[j], acts[j]);
      RemovesNothingNeeded(r[j], acts[j]);
    }
  }

  lemma RemovesNothingNeeded(s: Disk, a: Act)
    requires CanAct(s, a) && Unthreatened(s)
    ensures !(a.Remove? && exists o :: Needs(s, o) && FileOf(s.db, o) == a.file)
  {}

  /** With reuse the removal can come after the new file is made, and the commit then publishes an entry without one. */
  lemma ReuseLoses(s: Disk, n: Install, u: Uuid)
    requires Known(s) && CanAct(s, Table(Create(n, u))) && NewFile(s.db) in s.pending && n !in s.made
    ensures var a := Act1(s, Table(Create(n, u)));
      && CanAct(a, Make(n))
      && var b := Act1(a, Make(n));
      && CanAct(b, Remove(NewFile(s.db)))
      && var c := Act1(b, Remove(NewFile(s.db)));
      && CanAct(c, Table(Commit(n)))
      && !Intact(Act1(c, Table(Commit(n))))
  {
    var f := NewFile(s.db);
    var a := Act1(s, Table(Create(n, u)));
    var b := Act1(a, Make(n));
    var c := Act1(b, Remove(f));
    var d := Act1(c, Table(Commit(n)));
    StepKeeps(s.db, Create(n, u));
    CreateOwners(s.db, n, u, Flying(n));
    var x := c.db.installs[n];
    PutEntryIs(c.db.entries, x);
    var at: nat :| PlacedAt(c.db.entries, x, PutEntry(c.db.entries, x), at);
    assert Needs(d, InTable(at)) && FileOf(d.db, InTable(at)) == f;
  }

  /** It does happen: install, delete, and install again before the removal. */
  lemma ReuseHappens(u: Uuid, v: Uuid) returns (r: seq<Disk>, acts: seq<Act>)
    requires u != NULL_UUID && v != NULL_UUID
    ensures IsHistory(r, acts)
    ensures var s := r[|acts|]; CanAct(s, Table(Create(1, v))) && NewFile(s.db) in s.pending && 1 !in s.made
  {
    var s1 := Act1(EMPTY, Table(Open));
    var s2 := Act1(s1, Table(Create(0, u)));
    assert s2.db.installs[0] == Entry(u, 0) && s2.db.files == [true];
    var s3 := Act1(s2, Make(0));
    var s4 := Act1(s3, Table(Commit(0)));
    assert s4.db.entries == [Entry(u, 0)] && s4.db.files == [true];
    var s5 := Act1(s4, Table(Delete(u)));
    assert s5.db.files == [false] && s5.pending == multiset{0};
    acts := [Table(Open), Table(Create(0, u)), Make(0), Table(Commit(0)), Table(Delete(u))];
    r := [EMPTY, s1, s2, s3, s4, s5];
  }
}
