/**
 Slot allocation in the TA database (core/tee/tadb.c): a table of entries in
 storage, a bitmap of file numbers in use that is filled on first need, and
 installs in flight.  Every step is one critical section of the database mutex.
 */
module TaDb {
  import opened Common

  type Uuid = nat

  /** The part of a table entry that matters for allocation; the all-zero UUID marks a free slot. */
  datatype Entry = Entry(uuid: Uuid, file: nat)

  const NULL_UUID: Uuid := 0

  const NULL_ENTRY := Entry(NULL_UUID, 0)

  predicate Live(e: Entry) {
    e.uuid != NULL_UUID
  }

  // ----- the bitmap; an empty one is one that has not been allocated

  type Bits = seq<bool>

  predicate Test(b: Bits, i: nat) {
    i < |b| && b[i]
  }

  function SetBit(b: Bits, i: nat): (r: Bits)
    ensures forall j: nat :: Test(r, j) <==> j == i || Test(b, j)
    ensures |r| > 0
  {
    if i < |b| then b[i := true] else b + seq(i - |b|, _ => false) + [true]
  }

  function ClearBit(b: Bits, i: nat): (r: Bits)
    ensures forall j: nat :: Test(r, j) <==> j != i && Test(b, j)
    ensures |r| == |b|
  {
    if i < |b| then b[i := false] else b
  }

  /** The first clear bit from k on, or the number of bits. */
  function FirstClear(b: Bits, k: nat): (i: nat)
    requires k <= |b|
    ensures k <= i <= |b| && !Test(b, i) && forall j :: k <= j < i ==> Test(b, j)
    decreases |b| - k
  {
    if k == |b| || !b[k] then k else FirstClear(b, k + 1)
  }

  /** Position of the first entry with the UUID, or the end of the table. */
  function FindEnt(es: seq<Entry>, u: Uuid, k: nat): (i: nat)
    requires k <= |es|
    ensures k <= i <= |es| && (i < |es| ==> es[i].uuid == u) && forall j :: k <= j < i ==> es[j].uuid != u
    decreases |es| - k
  {
    if k == |es| || es[k].uuid == u then k else FindEnt(es, u, k + 1)
  }

  /** Mark the file numbers of entries k.. and clear entries whose number is taken. */
  function Populate(es: seq<Entry>, b: Bits, k: nat): (r: (seq<Entry>, Bits))
    requires k <= |es|
    ensures |r.0| == |es|
    decreases |es| - k
  {
    if k == |es| then (es, b)
    else if !Live(es[k]) then Populate(es, b, k + 1)
    else if Test(b, es[k].file) then Populate(es[k := NULL_ENTRY], b, k + 1)
    else Populate(es, SetBit(b, es[k].file), k + 1)
  }

  // ----- the database

  type Install = nat

  /** refc counts the installs in flight and the other users of the open database. */
  datatype Db = Db(entries: seq<Entry>, files: Bits, installs: map<Install, Entry>, refc: nat, users: nat)

  const START := Db([], [], map[], 0, 0)

  datatype Event =
    | Open
    | Put
    | Create(n: Install, uuid: Uuid)
    | Commit(n: Install)
    | Abandon(n: Install)
    | Delete(uuid: Uuid)

  predicate Enabled(d: Db, e: Event) {
    match e
    case Open => true
    case Put => d.users > 0 && d.refc > 0
    case Create(n, u) => d.users > 0 && n !in d.installs && u != NULL_UUID
    case Commit(n) => n in d.installs
    case Abandon(n) => n in d.installs
    case Delete(u) => d.users > 0 && u != NULL_UUID
  }

  /** The table and bitmap as tee_tadb_ta_create looks at them. */
  function Populated(d: Db): Db {
    if |d.files| > 0 then d
    else var (es, b) := Populate(d.entries, [], 0); d.(entries := es, files := b)
  }

  function Reserve(d: Db, n: Install, u: Uuid): Db
    requires d.users > 0
  {
    var i := FirstClear(d.files, 0);
    d.(files := SetBit(d.files, i), installs := d.installs[n := Entry(u, i)], users := d.users - 1)
  }

  function PutEntry(es: seq<Entry>, e: Entry): (r: seq<Entry>) {
    var i := FindEnt(es, e.uuid, 0);
    if i < |es| then es[i := e]
    else
      var f := FindEnt(es, NULL_UUID, 0);
      if f < |es| then es[f := e] else es + [e]
  }

  /** The bitmap without the number of the entry with this UUID. */
  function Released(d: Db, u: Uuid): Bits {
    var i := FindEnt(d.entries, u, 0);
    if i < |d.entries| then ClearBit(d.files, d.entries[i].file) else d.files
  }

  function Step(d: Db, e: Event): Db
    requires Enabled(d, e)
  {
    match e
    case Open => d.(refc := d.refc + 1, users := d.users + 1)
    case Put => d.(refc := d.refc - 1, users := d.users - 1, files := if d.refc == 1 then [] else d.files)
    case Create(n, u) => Reserve(Populated(d), n, u)
    case Commit(n) =>
      var x := d.installs[n];
      d.(entries := PutEntry(d.entries, x), files := Released(d, x.uuid), installs := d.installs - {n}, users := d.users + 1)
    case Abandon(n) =>
      d.(files := ClearBit(d.files, d.installs[n].file), installs := d.installs - {n}, users := d.users + 1)
    case Delete(u) =>
      var i := FindEnt(d.entries, u, 0);
      if i < |d.entries| then d.(entries := d.entries[i := NULL_ENTRY], files := Released(d, u)) else d
  }

  // ----- the invariant

  /** Live entries differ in UUID and in file number. */
  ghost predicate Distinct(es: seq<Entry>) {
    forall i, j {:trigger es[i], es[j]} :: 0 <= i < j < |es| && Live(es[i]) && Live(es[j]) ==>
      es[i].uuid != es[j].uuid && es[i].file != es[j].file
  }

  /** Installs in flight differ in file number from each other and from the live entries, and are marked. */
  ghost predicate InFlight(d: Db) {
    && (forall n :: n in d.installs ==> Live(d.installs[n]) && Test(d.files, d.installs[n].file))
    && (forall m, n :: m in d.installs && n in d.installs && m != n ==> d.installs[m].file != d.installs[n].file)
    && (forall n, i :: n in d.installs && 0 <= i < |d.entries| && Live(d.entries[i]) ==>
          d.installs[n].file != d.entries[i].file)
  }

  ghost predicate Marked(es: seq<Entry>, b: Bits) {
    |b| > 0 ==> forall i :: 0 <= i < |es| && Live(es[i]) ==> Test(b, es[i].file)
  }

  ghost predicate Counted(d: Db) {
    d.refc == |d.installs.Keys| + d.users && (d.refc == 0 ==> d.files == [])
  }

  /** Nobody shares a file number, and the references are counted. */
  ghost predicate Apart(d: Db) {
    Distinct(d.entries) && InFlight(d) && Counted(d)
  }

  ghost predicate Inv(d: Db) {
    Apart(d) && Marked(d.entries, d.files)
  }

  // ----- filling the bitmap

  ghost predicate UsedFrom(es: seq<Entry>, k: nat, f: nat) {
    exists i :: k <= i < |es| && Live(es[i]) && es[i].file == f
  }

  /** One of the entries from k up to i is live and has the number. */
  ghost predicate UsedBefore(es: seq<Entry>, k: nat, i: nat, f: nat)
    requires i <= |es|
  {
    exists j :: k <= j < i && Live(es[j]) && es[j].file == f
  }

  /**
   After filling the bitmap the file numbers of live entries differ, whatever the table held:
   of several with one number the first is kept, unless the number was taken before.
   */
  ghost predicate Cleaned(es: seq<Entry>, b: Bits, k: nat, r: seq<Entry>, b2: Bits) {
    && |r| == |es| && (forall i :: 0 <= i < k <= |es| ==> r[i] == es[i])
    && (forall i :: 0 <= i < |r| ==> r[i] == es[i] || r[i] == NULL_ENTRY)
    && (forall i :: k <= i < |r| && Live(es[i]) ==> (Live(r[i]) <==> !Test(b, es[i].file) && !UsedBefore(es, k, i, es[i].file)))
    && (forall f: nat :: Test(b2, f) <==> Test(b, f) || UsedFrom(r, k, f))
    && (forall i, j {:trigger r[i], r[j]} :: k <= i < j < |r| && Live(r[i]) && Live(r[j]) ==> r[i].file != r[j].file)
    && (forall i :: k <= i < |r| && Live(r[i]) ==> !Test(b, r[i].file))
  }

  lemma {:induction false} PopulateCleans(es: seq<Entry>, b: Bits, k: nat)
    requires k <= |es|
    ensures Cleaned(es, b, k, Populate(es, b, k).0, Populate(es, b, k).1)
    decreases |es| - k
  {
    if k < |es| {
      var kept := Live(es[k]) && !Test(b, es[k].file);
      var es2 := if Live(es[k]) && !kept then es[k := NULL_ENTRY] else es;
      var b1 := if kept then SetBit(b, es[k].file) else b;
      PopulateCleans(es2, b1, k + 1);
      var (r, b2) := Populate(es2, b1, k + 1);
      assert r[k] == es2[k];
      forall f: nat ensures UsedFrom(r, k, f) <==> (kept && f == es[k].file) || UsedFrom(r, k + 1, f) {
        if kept && f == es[k].file { assert Live(r[k]); }
      }
      forall i | k < i < |r| && Live(es[i])
        ensures Live(r[i]) <==> !Test(b, es[i].file) && !UsedBefore(es, k, i, es[i].file)
      {
        UsedBeforeNext(es, es2, k, i, es[i].file);
      }
    }
  }

  lemma UsedBeforeNext(es: seq<Entry>, es2: seq<Entry>, k: nat, i: nat, f: nat)
    requires k < i < |es| == |es2| && forall j :: k < j < |es| ==> es2[j] == es[j]
    ensures UsedBefore(es, k, i, f) <==> (Live(es[k]) && es[k].file == f) || UsedBefore(es2, k + 1, i, f)
  {
    if UsedBefore(es2, k + 1, i, f) {
      var j :| k + 1 <= j < i && Live(es2[j]) && es2[j].file == f;
      assert es[j] == es2[j];
    }
    if UsedBefore(es, k, i, f) {
      var j :| k <= j < i && Live(es[j]) && es[j].file == f;
      if j > k { assert es2[j] == es[j]; }
    }
  }

  /** A table without duplicates is left as it is. */
  lemma {:induction false} PopulateKeeps(es: seq<Entry>, b: Bits, k: nat)
    requires k <= |es| && Distinct(es) && forall i :: k <= i < |es| && Live(es[i]) ==> !Test(b, es[i].file)
    ensures Populate(es, b, k).0 == es
    decreases |es| - k
  {
    if k < |es| {
      PopulateKeeps(es, if Live(es[k]) then SetBit(b, es[k].file) else b, k + 1);
    }
  }

  lemma PopulatedKeeps(d: Db)
    requires Apart(d)
    ensures Populated(d).entries == d.entries && Populated(d).installs == d.installs
    ensures Marked(d.entries, d.files) ==>
      forall i :: 0 <= i < |d.entries| && Live(d.entries[i]) ==> Test(Populated(d).files, d.entries[i].file)
    ensures forall n :: n in d.installs ==> Test(Populated(d).files, d.installs[n].file)
  {
    if d.files == [] {
      PopulateKeeps(d.entries, [], 0);
      PopulateCleans(d.entries, [], 0);
      var b := Populated(d).files;
      forall i | 0 <= i < |d.entries| && Live(d.entries[i]) ensures Test(b, d.entries[i].file) {
        assert UsedFrom(d.entries, 0, d.entries[i].file);
      }
    }
  }

  // ----- what every step keeps

  /** The number a new install takes. */
  function NewFile(d: Db): nat {
    FirstClear(Populated(d).files, 0)
  }

  /** A live entry has the number. */
  ghost predicate Used(es: seq<Entry>, f: nat) {
    UsedFrom(es, 0, f)
  }

  /** A new install keeps the numbers apart exactly when no live entry has the one it takes. */
  lemma CreateApartIff(d: Db, n: Install, u: Uuid)
    requires Apart(d) && Enabled(d, Create(n, u))
    ensures Apart(Step(d, Create(n, u))) <==> !Used(d.entries, NewFile(d))
  {
    PopulatedKeeps(d);
    var d2 := Step(d, Create(n, u));
    assert d2.installs.Keys == d.installs.Keys + {n};
    assert d2.installs[n].file == NewFile(d);
    if Used(d.entries, NewFile(d)) {
      var i :| 0 <= i < |d.entries| && Live(d.entries[i]) && d.entries[i].file == NewFile(d);
      assert d2.entries[i].file == d2.installs[n].file;
    } else {
      CreateApart(d, n, u);
    }
  }

  lemma CreateApart(d: Db, n: Install, u: Uuid)
    requires Apart(d) && Enabled(d, Create(n, u)) && !Used(d.entries, NewFile(d))
    ensures InFlight(Step(d, Create(n, u)))
  {
    PopulatedKeeps(d);
  }

  /** With the bitmap marking every live entry, that is so. */
  lemma CreateKeeps(d: Db, n: Install, u: Uuid)
    requires Inv(d) && Enabled(d, Create(n, u))
    ensures Inv(Step(d, Create(n, u)))
  {
    PopulatedKeeps(d);
    CreateApartIff(d, n, u);
  }

  lemma ReleasedBits(d: Db, u: Uuid)
    requires Apart(d) && u != NULL_UUID
    ensures |Released(d, u)| == |d.files|
    ensures forall i :: 0 <= i < |d.entries| && Live(d.entries[i]) && d.entries[i].uuid != u ==>
      (Test(Released(d, u), d.entries[i].file) <==> Test(d.files, d.entries[i].file))
    ensures forall n :: n in d.installs ==> Test(Released(d, u), d.installs[n].file)
  {}

  /** The place for a UUID: the first entry that has it, or else the first free one, or else the end. */
  ghost predicate PlaceFor(es: seq<Entry>, u: Uuid, p: nat) {
    && p <= |es| && (forall j :: 0 <= j < p ==> es[j].uuid != u)
    && ((p < |es| && es[p].uuid == u) ||
        ((forall j :: 0 <= j < |es| ==> es[j].uuid != u) && (forall j :: 0 <= j < p ==> Live(es[j])) && (p < |es| ==> !Live(es[p]))))
  }

  /** r is es with e written at its place; every other entry is where it was. */
  ghost predicate WrittenAt(es: seq<Entry>, e: Entry, r: seq<Entry>, p: nat) {
    PlaceFor(es, e.uuid, p) && r == if p < |es| then es[p := e] else es + [e]
  }

  lemma PutEntryWrites(es: seq<Entry>, e: Entry)
    ensures exists p: nat :: WrittenAt(es, e, PutEntry(es, e), p)
  {
    var i := FindEnt(es, e.uuid, 0);
    var f := FindEnt(es, NULL_UUID, 0);
    var p := if i < |es| then i else f;
    assert WrittenAt(es, e, PutEntry(es, e), p);
  }

  /** r is es with e at place p, and e's UUID nowhere else. */
  ghost predicate PlacedAt(es: seq<Entry>, e: Entry, r: seq<Entry>, p: nat) {
    && |es| <= |r| <= |es| + 1 && p < |r| && r[p] == e
    && forall i :: 0 <= i < |r| && i != p ==> i < |es| && r[i] == es[i] && (Live(es[i]) ==> es[i].uuid != e.uuid)
  }

  /** A committed entry takes the place of the one with its UUID, or a free place. */
  lemma PutEntryIs(es: seq<Entry>, e: Entry)
    requires Live(e) && Distinct(es)
    ensures exists p: nat :: PlacedAt(es, e, PutEntry(es, e), p)
  {
    var r := PutEntry(es, e);
    var i := FindEnt(es, e.uuid, 0);
    var f := FindEnt(es, NULL_UUID, 0);
    var p := if i < |es| then i else if f < |es| then f else |es|;
    forall j | 0 <= j < |r| && j != p ensures j < |es| && r[j] == es[j] && (Live(es[j]) ==> es[j].uuid != e.uuid) {
      if i < |es| && Live(es[j]) {
        assert es[i].uuid == e.uuid && (i < j || j < i);
      }
    }
    assert PlacedAt(es, e, r, p);
  }

  lemma CommitKeeps(d: Db, n: Install)
    requires Apart(d) && n in d.installs
    ensures Apart(Step(d, Commit(n)))
    ensures Marked(d.entries, d.files) ==> Marked(Step(d, Commit(n)).entries, Step(d, Commit(n)).files)
  {
    var x := d.installs[n];
    var d2 := Step(d, Commit(n));
    PutEntryIs(d.entries, x);
    ReleasedBits(d, x.uuid);
    assert d2.installs.Keys == d.installs.Keys - {n};
  }

  /** tee_tadb_ta_delete when the entry could not be written: only the number is released. */
  function Unwritten(d: Db, u: Uuid): Db {
    d.(files := Released(d, u))
  }

  lemma DeleteKeeps(d: Db, u: Uuid)
    requires Apart(d) && Enabled(d, Delete(u))
    ensures Apart(Step(d, Delete(u))) && Apart(Unwritten(d, u))
    ensures Marked(d.entries, d.files) ==> Marked(Step(d, Delete(u)).entries, Step(d, Delete(u)).files)
  {
    ReleasedBits(d, u);
  }

  lemma AbandonKeeps(d: Db, n: Install)
    requires Apart(d) && n in d.installs
    ensures Apart(Step(d, Abandon(n)))
    ensures Marked(d.entries, d.files) ==> Marked(Step(d, Abandon(n)).entries, Step(d, Abandon(n)).files)
  {
    var d2 := Step(d, Abandon(n));
    assert d2.installs.Keys == d.installs.Keys - {n};
  }

  lemma StepKeeps(d: Db, e: Event)
    requires Inv(d) && Enabled(d, e)
    ensures Inv(Step(d, e))
  {
    match e
    case Open =>
    case Put =>
    case Create(n, u) => CreateKeeps(d, n, u);
    case Commit(n) => CommitKeeps(d, n);
    case Abandon(n) => AbandonKeeps(d, n);
    case Delete(u) => DeleteKeeps(d, u);
  }

  // ----- whole runs

  ghost predicate Steps(d: Db, d2: Db) {
    exists e :: Enabled(d, e) && d2 == Step(d, e)
  }

  ghost predicate IsRun(r: seq<Db>) {
    && |r| > 0 && r[0] == START
    && forall i :: 0 <= i < |r| - 1 ==> Steps(r[i], r[i + 1])
  }

  lemma {:induction false} RunKeeps(r: seq<Db>, i: nat)
    requires IsRun(r) && i < |r|
    ensures Inv(r[i])
  {
    if i > 0 {
      RunKeeps(r, i - 1);
      assert Steps(r[i - 1], r[i]);
      var e :| Enabled(r[i - 1], e) && r[i] == Step(r[i - 1], e);
      StepKeeps(r[i - 1], e);
    }
  }

  /** All users of a file number: live table entries and installs in flight. */
  datatype Owner = InTable(i: nat) | Flying(n: Install)

  predicate Owns(d: Db, o: Owner) {
    match o
    case InTable(i) => i < |d.entries| && Live(d.entries[i])
    case Flying(n) => n in d.installs
  }

  function FileOf(d: Db, o: Owner): nat
    requires Owns(d, o)
  {
    match o
    case InTable(i) => d.entries[i].file
    case Flying(n) => d.installs[n].file
  }

  /** No two owners share a file number, and with the bitmap in memory each one's number is marked. */
  lemma FileNumbersDistinct(r: seq<Db>, i: nat, o: Owner, p: Owner)
    requires IsRun(r) && i < |r| && Owns(r[i], o) && Owns(r[i], p)
    ensures o != p ==> FileOf(r[i], o) != FileOf(r[i], p)
    ensures |r[i].files| > 0 || o.Flying? ==> Test(r[i].files, FileOf(r[i], o))
  {
    RunKeeps(r, i);
    if o.InTable? && p.InTable? {
      assert o.i < p.i || p.i <= o.i;
    }
  }

  /** A UUID has at most one live entry. */
  lemma OneEntryPerUuid(r: seq<Db>, i: nat, j: nat, k: nat)
    requires IsRun(r) && i < |r| && j < |r[i].entries| && k < |r[i].entries|
    requires Live(r[i].entries[j]) && r[i].entries[j].uuid == r[i].entries[k].uuid
    ensures j == k
  {
    RunKeeps(r, i);
  }

  /** A new install never gets a number that is in use. */
  lemma CreateIsFresh(r: seq<Db>, i: nat, n: Install, u: Uuid, o: Owner)
    requires IsRun(r) && i < |r| && Enabled(r[i], Create(n, u)) && Owns(r[i], o)
    ensures n in Step(r[i], Create(n, u)).installs && Step(r[i], Create(n, u)).installs[n].file != FileOf(r[i], o)
  {
    RunKeeps(r, i);
    PopulatedKeeps(r[i]);
  }

  // ----- the database object

  ghost predicate LeastClear(b: Bits, i: nat) {
    !Test(b, i) && forall j :: 0 <= j < i ==> Test(b, j)
  }

  /** The number is free, and no other has changed. */
  ghost predicate OnlyCleared(b: Bits, f: nat, b2: Bits) {
    |b2| == |b| && forall j: nat :: Test(b2, j) <==> Test(b, j) && j != f
  }

  /** The entry is written at its place, and the number of the one it replaces is free. */
  ghost predicate Committed(es: seq<Entry>, b: Bits, e: Entry, p: nat, r: seq<Entry>, b2: Bits) {
    && WrittenAt(es, e, r, p)
    && if p < |es| && es[p].uuid == e.uuid then OnlyCleared(b, es[p].file, b2) else b2 == b
  }

  /** The first entry with the UUID, at i, has its number free and, if it could be written, is clear. */
  ghost predicate Removed(es: seq<Entry>, b: Bits, u: Uuid, i: nat, written: bool, r: seq<Entry>, b2: Bits) {
    && i < |es| && es[i].uuid == u && (forall j :: 0 <= j < i ==> es[j].uuid != u)
    && OnlyCleared(b, es[i].file, b2) && r == if written then es[i := NULL_ENTRY] else es
  }

  /** Table, bitmap and reference count; db is the state machine's view of them. */
  class Database {
    var entries: seq<Entry>
    var files: Bits
    var refc: nat
    ghost var db: Db

    ghost predicate Mirrors()
      reads this
    {
      entries == db.entries && files == db.files && refc == db.refc
    }

    ghost predicate Valid()
      reads this
    {
      Mirrors() && Inv(db)
    }

    constructor ()
      ensures Valid() && db == START
    {
      entries, files, refc, db := [], [], 0, START;
    }

    method OpenDb()
      requires Mirrors()
      modifies this
      ensures Mirrors() && (old(Valid()) ==> Valid()) && db == Step(old(db), Open)
      ensures refc == old(refc) + 1 && entries == old(entries) && files == old(files)
    {
      if Inv(db) { StepKeeps(db, Open); }
      refc := refc + 1;
      db := Step(db, Open);
    }

    method PutDb()
      requires Mirrors() && Enabled(db, Put)
      modifies this
      ensures Mirrors() && (old(Valid()) ==> Valid()) && db == Step(old(db), Put)
      ensures refc == old(refc) - 1 && entries == old(entries) && files == if refc == 0 then [] else old(files)
    {
      if Inv(db) { StepKeeps(db, Put); }
      assert refc > 0;
      refc := refc - 1;
      if refc == 0 {
        files := [];
      }
      db := Step(db, Put);
    }

    /** maybe_grow_files and bit_set. */
    method SetFile(i: nat)
      modifies `files
      ensures files == SetBit(old(files), i)
    {
      if i >= |files| {
        files := files + seq(i + 1 - |files|, _ => false);
      }
      files := files[i := true];
    }

    method ClearFile(i: nat)
      modifies `files
      ensures files == ClearBit(old(files), i)
    {
      if i < |files| {
        files := files[i := false];
      }
    }

    method PopulateFiles()
      modifies `entries, `files
      ensures |old(files)| > 0 ==> entries == old(entries) && files == old(files)
      ensures old(files) == [] ==> (entries, files) == Populate(old(entries), [], 0)
      ensures old(files) == [] ==> Cleaned(old(entries), [], 0, entries, files)
    {
      PopulateCleans(entries, [], 0);
      if |files| > 0 {
        return;
      }
      var k := 0;
      while k < |entries|
        invariant k <= |entries|
        invariant Populate(old(entries), [], 0) == Populate(entries, files, k)
        decreases |entries| - k
      {
        if Live(entries[k]) {
          if Test(files, entries[k].file) {
            entries := entries[k := NULL_ENTRY];
          } else {
            SetFile(entries[k].file);
          }
        }
        k := k + 1;
      }
    }

    method FirstClearBit() returns (i: nat)
      ensures i == FirstClear(files, 0) && LeastClear(files, i)
    {
      i := 0;
      while i < |files| && files[i]
        invariant i <= |files| && FirstClear(files, 0) == FirstClear(files, i)
      {
        i := i + 1;
      }
    }

    method FindEntry(u: Uuid) returns (i: nat)
      ensures i == FindEnt(entries, u, 0)
    {
      i := 0;
      while i < |entries|
        invariant i <= |entries| && FindEnt(entries, u, 0) == FindEnt(entries, u, i)
      {
        if entries[i].uuid == u {
          return;
        }
        i := i + 1;
      }
    }

    method CreateTa(n: Install, u: Uuid) returns (r: Result<nat>)
      requires Mirrors() && db.users > 0 && n !in db.installs
      modifies this
      ensures Mirrors() && (old(Valid()) ==> Valid())
      ensures u == NULL_UUID ==> r == Err(Generic) && unchanged(this)
      ensures u != NULL_UUID ==> db == Step(old(db), Create(n, u)) && r == Ok(db.installs[n].file) && refc == old(refc)
      ensures u != NULL_UUID && |old(files)| > 0 ==>
        entries == old(entries) && LeastClear(old(files), r.value) && files == SetBit(old(files), r.value)
      ensures u != NULL_UUID && old(files) == [] ==>
        exists b: Bits :: Cleaned(old(entries), [], 0, entries, b) && LeastClear(b, r.value) && files == SetBit(b, r.value)
    {
      if u == NULL_UUID {
        return Err(Generic);
      }
      if Inv(db) { StepKeeps(db, Create(n, u)); }
      PopulateFiles();
      var i := FirstClearBit();
      SetFile(i);
      db := Step(db, Create(n, u));
      return Ok(i);
    }

    /** Write the entry in place of the one with its UUID, or in a free place. */
    method WriteEntry(e: Entry)
      modifies `entries
      ensures entries == PutEntry(old(entries), e)
      ensures exists p: nat :: WrittenAt(old(entries), e, entries, p)
    {
      PutEntryWrites(entries, e);
      var i := FindEntry(e.uuid);
      if i == |entries| {
        i := FindEntry(NULL_UUID);
      }
      entries := if i < |entries| then entries[i := e] else entries + [e];
    }

    method CloseAndCommit(n: Install, e: Entry)
      requires Mirrors() && n in db.installs && db.installs[n] == e
      modifies this
      ensures Mirrors() && (old(Valid()) ==> Valid()) && db == Step(old(db), Commit(n)) && refc == old(refc)
      ensures exists p: nat :: Committed(old(entries), old(files), e, p, entries, files)
    {
      if Inv(db) { StepKeeps(db, Commit(n)); }
      var i := FindEntry(e.uuid);
      var had := i < |entries|;
      var file := if had then entries[i].file else 0;
      WriteEntry(e);
      ghost var p: nat :| WrittenAt(old(entries), e, entries, p);
      if had {
        ClearFile(file);
      }
      db := Step(db, Commit(n));
      assert Committed(old(entries), old(files), e, p, entries, files);
    }

    method CloseAndDelete(n: Install, e: Entry)
      requires Mirrors() && n in db.installs && db.installs[n] == e
      modifies this
      ensures Mirrors() && (old(Valid()) ==> Valid()) && db == Step(old(db), Abandon(n))
      ensures entries == old(entries) && refc == old(refc) && OnlyCleared(old(files), e.file, files)
    {
      if Inv(db) { StepKeeps(db, Abandon(n)); }
      ClearFile(e.file);
      db := Step(db, Abandon(n));
    }

    /** The entry is written after its number is released; write is what that gives. */
    method DeleteTa(u: Uuid, write: Result<()>) returns (r: Result<()>)
      requires Mirrors() && db.users > 0
      modifies this
      ensures Mirrors() && (old(Valid()) && write.Ok? ==> Valid())
      ensures u == NULL_UUID ==> r == Err(Generic) && unchanged(this)
      ensures u != NULL_UUID ==>
        if exists i :: 0 <= i < |old(entries)| && old(entries)[i].uuid == u
        then r == write && db == (if write.Ok? then Step(old(db), Delete(u)) else Unwritten(old(db), u))
        else r == Err(ItemNotFound) && unchanged(this)
      ensures refc == old(refc)
      ensures u != NULL_UUID && (exists i :: 0 <= i < |old(entries)| && old(entries)[i].uuid == u) ==>
        exists i: nat :: Removed(old(entries), old(files), u, i, write.Ok?, entries, files)
    {
      if u == NULL_UUID {
        return Err(Generic);
      }
      if Inv(db) { StepKeeps(db, Delete(u)); }
      var i := FindEntry(u);
      if i == |entries| {
        return Err(ItemNotFound);
      }
      ClearFile(entries[i].file);
      if write.Err? {
        db := Unwritten(db, u);
        assert Removed(old(entries), old(files), u, i, false, entries, files);
        return write;
      }
      entries := entries[i := NULL_ENTRY];
      db := Step(db, Delete(u));
      assert Removed(old(entries), old(files), u, i, true, entries, files);
      return write;
    }
  }
}
