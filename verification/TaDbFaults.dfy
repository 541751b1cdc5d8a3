/**
 The TA database when a write of its table fails (core/tee/tadb.c).  A failed write in
 a commit abandons the install.  In a delete the number has been released by then, so a
 live entry is left whose number the bitmap does not show.
 */
module TaDbFaults {
  import opened Common
  import opened TaDb

  datatype Fault = Done(e: Event) | CommitFails(n: Install) | DeleteFails(uuid: Uuid)

  predicate CanHappen(d: Db, f: Fault) {
    match f
    case Done(e) => Enabled(d, e)
    case CommitFails(n) => Enabled(d, Abandon(n))
    case DeleteFails(u) => Enabled(d, Delete(u))
  }

  function After(d: Db, f: Fault): Db
    requires CanHappen(d, f)
  {
    match f
    case Done(e) => Step(d, e)
    case CommitFails(n) => Step(d, Abandon(n))
    case DeleteFails(u) => Unwritten(d, u)
  }

  /** A new install takes the number of a live entry. */
  ghost predicate Collides(d: Db, f: Fault) {
    f.Done? && f.e.Create? && Used(d.entries, NewFile(d))
  }

  /** Whatever fails, numbers stay apart exactly when no install takes the number of a live entry. */
  lemma ApartIff(d: Db, f: Fault)
    requires Apart(d) && CanHappen(d, f)
    ensures Apart(After(d, f)) <==> !Collides(d, f)
  {
    match f
    case Done(Open) =>
    case Done(Put) =>
    case Done(Create(n, u)) => CreateApartIff(d, n, u);
    case Done(Commit(n)) => CommitKeeps(d, n);
    case Done(Abandon(n)) => AbandonKeeps(d, n);
    case Done(Delete(u)) => DeleteKeeps(d, u);
    case CommitFails(n) => AbandonKeeps(d, n);
    case DeleteFails(u) => DeleteKeeps(d, u);
  }

  /** Only a failed delete of an entry takes a mark away that is needed. */
  lemma MarkedIff(d: Db, f: Fault)
    requires Inv(d) && CanHappen(d, f)
    ensures Inv(After(d, f)) <==> !(f.DeleteFails? && |d.files| > 0 && FindEnt(d.entries, f.uuid, 0) < |d.entries|)
  {
    match f
    case Done(e) => StepKeeps(d, e);
    case CommitFails(n) => StepKeeps(d, Abandon(n));
    case DeleteFails(u) =>
      DeleteKeeps(d, u);
      var i := FindEnt(d.entries, u, 0);
      if i < |d.entries| {
        assert Live(d.entries[i]) && !Test(Released(d, u), d.entries[i].file);
      }
  }

  /** The last user takes the bitmap with it, and the next one fills it from the table. */
  lemma CloseRepairs(d: Db)
    requires Apart(d) && Enabled(d, Put) && d.refc == 1
    ensures Inv(Step(d, Put))
  {}

  // ----- whole runs

  ghost predicate IsFaultyRun(r: seq<Db>, fs: seq<Fault>) {
    && |r| == |fs| + 1 && r[0] == START
    && forall i :: 0 <= i < |fs| ==> Happens(r[i], fs[i], r[i + 1])
  }

  ghost predicate Happens(d: Db, f: Fault, d2: Db) {
    CanHappen(d, f) && d2 == After(d, f)
  }

  /** Without a collision, numbers are apart in every state of every run with failing writes. */
  lemma {:induction false} NumbersStayApart(r: seq<Db>, fs: seq<Fault>, i: nat)
    requires IsFaultyRun(r, fs) && i < |r| && forall j :: 0 <= j < i ==> !Collides(r[j], fs[j])
    ensures Apart(r[i])
  {
    if i > 0 {
      var j: nat := i - 1;
      NumbersStayApart(r, fs, j);
      assert Happens(r[j], fs[j], r[j + 1]);
      ApartIff(r[j], fs[j]);
    }
  }

  /** Install, fail to delete, install again: the second install has the number of the first. */
  lemma FailedDeleteCollides(u: Uuid, v: Uuid) returns (r: seq<Db>, fs: seq<Fault>)
    requires u != NULL_UUID && v != NULL_UUID
    ensures IsFaultyRun(r, fs) && |fs| > 0 && !Apart(r[|fs|]) && Collides(r[|fs| - 1], fs[|fs| - 1])
  {
    var d1 := Step(START, Open);
    var d2 := Step(d1, Create(0, u));
    assert d2.installs[0] == Entry(u, 0) && d2.files == [true];
    var d3 := Step(d2, Commit(0));
    assert d3.entries == [Entry(u, 0)] && d3.files == [true];
    var d4 := Unwritten(d3, u);
    assert d4.files == [false];
    var d5 := Step(d4, Create(1, v));
    assert d5.installs[1] == Entry(v, 0) && Live(d5.entries[0]);
    assert UsedFrom(d4.entries, 0, 0);
    fs := [Done(Open), Done(Create(0, u)), Done(Commit(0)), DeleteFails(u), Done(Create(1, v))];
    r := [START, d1, d2, d3, d4, d5];
  }
}
