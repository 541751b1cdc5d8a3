/**
 Preparing ELF segments for mapping (adjust_segments in ldelf/ta_elf.c): segments
 that meet in a page are merged, the others are aligned down to a page.
 */
module Segments {
  import opened Common

  const PAGE: nat := 4096
  const LIMIT: nat := 0x1_0000_0000_0000_0000   // size_t

  datatype Flag = R | W | X

  datatype Segment = Segment(offset: nat, vaddr: nat, filesz: nat, memsz: nat, flags: set<Flag>, align: nat, remapped: bool)

  function RoundDown(a: nat): (r: nat)
    ensures r <= a < r + PAGE && r % PAGE == 0
  {
    a - a % PAGE
  }

  function RoundUp(a: nat): (r: nat)
    ensures a <= r < a + PAGE && r % PAGE == 0
  {
    RoundDown(a + PAGE - 1)
  }

  function End(s: Segment): nat {
    s.vaddr + s.memsz
  }

  function FileEnd(s: Segment): nat {
    s.vaddr + s.filesz
  }

  /** Where the file content of a segment sits relative to its addresses. */
  function Shift(s: Segment): int {
    s.vaddr - s.offset
  }

  // ----- the sanity checks

  predicate SegmentOk(s: Segment) {
    s.align >= PAGE && End(s) < LIMIT && s.filesz <= s.memsz && s.offset % PAGE == s.vaddr % PAGE
  }

  /** The file offset after a segment, in the arithmetic of size_t. */
  function FileTop(s: Segment): nat {
    (s.offset + s.filesz) % LIMIT
  }

  predicate Follows(p: Segment, s: Segment) {
    s.vaddr >= End(p) && s.offset >= FileTop(p) && s.align == p.align
  }

  predicate Sane(segs: seq<Segment>) {
    && (forall i :: 0 <= i < |segs| ==> SegmentOk(segs[i]))
    && (forall i :: 0 < i < |segs| ==> Follows(segs[i - 1], segs[i]))
  }

  /** The first loop: whether all its assertions pass. */
  method CheckSegments(segs: seq<Segment>) returns (ok: bool)
    ensures ok <==> Sane(segs)
  {
    var i, align := 0, 0;
    while i < |segs|
      invariant 0 <= i <= |segs| && Sane(segs[..i])
      invariant i > 0 ==> align == segs[i - 1].align >= PAGE
      invariant i == 0 ==> align == 0
    {
      var s := segs[i];
      if !(s.align >= PAGE && End(s) < LIMIT && s.filesz <= s.memsz && s.offset % PAGE == s.vaddr % PAGE) {
        return false;
      }
      if i > 0 && !(s.vaddr >= End(segs[i - 1]) && s.offset >= FileTop(segs[i - 1])) {
        assert !Follows(segs[i - 1], segs[i]);
        return false;
      }
      if align == 0 {
        align := s.align;
      }
      if align != s.align {
        assert !Follows(segs[i - 1], segs[i]);
        return false;
      }
      assert segs[..i + 1] == segs[..i] + [s];
      i := i + 1;
    }
    assert segs[..i] == segs;
    return true;
  }

  // ----- one step

  predicate Overlaps(p: Segment, s: Segment) {
    RoundDown(s.vaddr) < End(p)
  }

  /** Bitwise and. */
  function And(a: nat, b: nat): nat {
    if a == 0 || b == 0 then 0 else a % 2 * (b % 2) + 2 * And(a / 2, b / 2)
  }

  /** The bits below the alignment: v & (align - 1), for any alignment. */
  function Masked(v: nat, align: nat): nat
    requires align > 0
  {
    And(v, align - 1)
  }

  /** The assertions of the merging case. */
  predicate Mergeable(p: Segment, s: Segment) {
    s.align > 0 && Masked(s.vaddr, s.align) == Masked(s.offset, s.align) && p.memsz == p.filesz
  }

  function Merge(p: Segment, s: Segment): Segment
    requires p.vaddr <= s.vaddr
  {
    p.(filesz := s.vaddr + s.filesz - p.vaddr, memsz := s.vaddr + s.memsz - p.vaddr, flags := p.flags + s.flags)
  }

  /** The file page is mapped already, at the end of the previous segment. */
  predicate SharesFilePage(p: Segment, s: Segment) {
    s.align > 0 && Masked(s.offset, s.align) != 0 && RoundDown(s.offset) < FileTop(p)
  }

  function AlignDown(p: Segment, s: Segment): Segment {
    s.(filesz := s.filesz + (s.vaddr - RoundDown(s.vaddr)), memsz := s.memsz + (s.vaddr - RoundDown(s.vaddr)),
       vaddr := RoundDown(s.vaddr), offset := RoundDown(s.offset), remapped := s.remapped || SharesFilePage(p, s))
  }

  /** The segments from p on; None when an assertion fails.  Sane segments never go back in address. */
  function AdjustFrom(p: Segment, rest: seq<Segment>): Option<seq<Segment>>
    decreases |rest|
  {
    if rest == [] then Some([p])
    else if Overlaps(p, rest[0]) then
      if Mergeable(p, rest[0]) && p.vaddr <= rest[0].vaddr then AdjustFrom(Merge(p, rest[0]), rest[1..]) else None
    else if SharesFilePage(p, rest[0]) && W !in rest[0].flags then None
    else
      match AdjustFrom(AlignDown(p, rest[0]), rest[1..])
      case None => None
      case Some(r) => Some([p] + r)
  }

  function Adjust(segs: seq<Segment>): Option<seq<Segment>> {
    if segs == [] then Some([]) else AdjustFrom(segs[0], segs[1..])
  }

  /** The position in the result of the segment that takes over rest[k]. */
  function Owner(p: Segment, rest: seq<Segment>, k: nat): nat
    requires k < |rest|
    decreases |rest|
  {
    if Overlaps(p, rest[0]) then
      if k == 0 || p.vaddr > rest[0].vaddr then 0 else Owner(Merge(p, rest[0]), rest[1..], k - 1)
    else
      1 + if k == 0 then 0 else Owner(AlignDown(p, rest[0]), rest[1..], k - 1)
  }

  // ----- what the result is

  /** r maps all of s, with all its permissions. */
  predicate Covers(r: Segment, s: Segment) {
    r.vaddr <= s.vaddr && End(s) <= End(r) && FileEnd(s) <= FileEnd(r) && s.flags <= r.flags
  }

  /** In order, and no page belongs to two segments. */
  ghost predicate PagesDisjoint(rs: seq<Segment>) {
    forall i, j :: 0 <= i < j < |rs| ==> RoundUp(End(rs[i])) <= RoundDown(rs[j].vaddr)
  }

  ghost predicate SizesOk(rs: seq<Segment>) {
    forall i :: 0 <= i < |rs| ==> rs[i].filesz <= rs[i].memsz
  }

  /** The segments that are still to come after p. */
  ghost predicate Ahead(p: Segment, rest: seq<Segment>) {
    && p.filesz <= p.memsz && Sane(rest) && (rest != [] ==> rest[0].vaddr >= End(p))
  }

  /** The first segment of the result extends p in place; pages are disjoint; sizes fit. */
  lemma {:induction false} AdjustShape(p: Segment, rest: seq<Segment>)
    requires Ahead(p, rest) && AdjustFrom(p, rest).Some?
    ensures var r := AdjustFrom(p, rest).value;
      && |r| > 0 && r[0].vaddr == p.vaddr && r[0].offset == p.offset && Covers(r[0], p)
      && PagesDisjoint(r) && SizesOk(r)
    decreases |rest|
  {
    if rest != [] {
      assert Sane(rest[1..]);
      if |rest| > 1 { assert Follows(rest[0], rest[1]); }
      if Overlaps(p, rest[0]) {
        AdjustShape(Merge(p, rest[0]), rest[1..]);
      } else {
        var q := AlignDown(p, rest[0]);
        AdjustShape(q, rest[1..]);
        var r := AdjustFrom(q, rest[1..]).value;
        FrontDisjoint(p, r);
      }
    }
  }

  lemma PageOrder(a: nat, b: nat)
    requires a <= b && b % PAGE == 0
    ensures RoundUp(a) <= b
  {}

  lemma FrontDisjoint(p: Segment, r: seq<Segment>)
    requires PagesDisjoint(r) && |r| > 0 && r[0].vaddr % PAGE == 0 && End(p) <= r[0].vaddr
    ensures PagesDisjoint([p] + r)
  {
    PageOrder(End(p), r[0].vaddr);
    var s := [p] + r;
    forall i, j | 0 <= i < j < |s| ensures RoundUp(End(s[i])) <= RoundDown(s[j].vaddr) {
      if i == 0 && j > 1 {
        assert RoundUp(End(r[0])) <= RoundDown(r[j - 1].vaddr);
      } else if i > 0 {
        assert s[i] == r[i - 1] && s[j] == r[j - 1];
      }
    }
  }

  lemma {:induction false} OwnerCovers(p: Segment, rest: seq<Segment>, k: nat)
    requires Ahead(p, rest) && AdjustFrom(p, rest).Some? && k < |rest|
    ensures Owner(p, rest, k) < |AdjustFrom(p, rest).value|
    ensures Covers(AdjustFrom(p, rest).value[Owner(p, rest, k)], rest[k])
    decreases |rest|
  {
    assert Sane(rest[1..]);
    if |rest| > 1 { assert Follows(rest[0], rest[1]); }
    var q := if Overlaps(p, rest[0]) then Merge(p, rest[0]) else AlignDown(p, rest[0]);
    if k == 0 {
      AdjustShape(q, rest[1..]);
    } else {
      OwnerCovers(q, rest[1..], k - 1);
    }
  }

  /** The segment that opens the group rest[k] ends up in: an index into rest, or -1 for p itself. */
  function Leader(p: Segment, rest: seq<Segment>, k: nat): (l: int)
    requires k < |rest|
    ensures -1 <= l <= k
    decreases |rest|
  {
    if Overlaps(p, rest[0]) then
      if k == 0 || p.vaddr > rest[0].vaddr then -1
      else var l := Leader(Merge(p, rest[0]), rest[1..], k - 1); if l == -1 then -1 else l + 1
    else
      if k == 0 then 0
      else Leader(AlignDown(p, rest[0]), rest[1..], k - 1) + 1
  }

  /** A group is mapped from the file as its leader was. */
  lemma {:induction false} LeaderShift(p: Segment, rest: seq<Segment>, k: nat)
    requires Ahead(p, rest) && AdjustFrom(p, rest).Some? && k < |rest|
    ensures Owner(p, rest, k) < |AdjustFrom(p, rest).value|
    ensures Shift(AdjustFrom(p, rest).value[Owner(p, rest, k)]) ==
      var l := Leader(p, rest, k); Shift(if l == -1 then p else rest[l])
    decreases |rest|
  {
    assert Sane(rest[1..]);
    if |rest| > 1 { assert Follows(rest[0], rest[1]); }
    var q := if Overlaps(p, rest[0]) then Merge(p, rest[0]) else AlignDown(p, rest[0]);
    assert SegmentOk(rest[0]);
    if k == 0 {
      AdjustShape(q, rest[1..]);
    } else {
      LeaderShift(q, rest[1..], k - 1);
    }
  }

  // ----- the whole list

  function OwnerOf(segs: seq<Segment>, k: nat): nat
    requires k < |segs|
  {
    if k == 0 then 0 else Owner(segs[0], segs[1..], k - 1)
  }

  function LeaderOf(segs: seq<Segment>, k: nat): (l: nat)
    requires k < |segs|
    ensures l <= k
  {
    if k == 0 then 0 else Leader(segs[0], segs[1..], k - 1) + 1
  }

  lemma StartsAhead(segs: seq<Segment>)
    requires Sane(segs) && segs != []
    ensures Ahead(segs[0], segs[1..])
  {
    if |segs| > 1 { assert Follows(segs[0], segs[1]); }
  }

  /** Ordered, page-disjoint, sizes kept, and every original segment inside one that allows at least as much. */
  lemma AdjustedSegments(segs: seq<Segment>)
    requires Sane(segs) && Adjust(segs).Some?
    ensures var r := Adjust(segs).value;
      && PagesDisjoint(r) && SizesOk(r)
      && forall k :: 0 <= k < |segs| ==> OwnerOf(segs, k) < |r| && Covers(r[OwnerOf(segs, k)], segs[k])
  {
    if segs != [] {
      StartsAhead(segs);
      AdjustShape(segs[0], segs[1..]);
      var r := Adjust(segs).value;
      forall k | 0 <= k < |segs| ensures OwnerOf(segs, k) < |r| && Covers(r[OwnerOf(segs, k)], segs[k]) {
        if k > 0 { OwnerCovers(segs[0], segs[1..], k - 1); }
      }
    }
  }

  /** The file offset of the byte at address v. */
  function FileOffset(s: Segment, v: nat): int {
    v - Shift(s)
  }

  /** On the original list: every segment after l up to k shares a page with the one before it, and l does not. */
  ghost predicate Leads(segs: seq<Segment>, l: nat, k: nat) {
    && l <= k < |segs| && (l == 0 || !Overlaps(segs[l - 1], segs[l]))
    && forall i :: l < i <= k ==> Overlaps(segs[i - 1], segs[i])
  }

  lemma LeaderLeads(segs: seq<Segment>, k: nat)
    requires Sane(segs) && k < |segs|
    ensures Leads(segs, LeaderOf(segs, k), k)
  {
    if k > 0 {
      StartsAhead(segs);
      LeaderIs(segs[0], segs[1..], k - 1);
      var l := Leader(segs[0], segs[1..], k - 1);
      forall i | l + 1 < i <= k ensures Overlaps(segs[i - 1], segs[i]) {
        assert Overlaps(Prior(segs[0], segs[1..], i - 1), segs[1..][i - 1]);
      }
    }
  }

  /** The segment before rest[i]. */
  function Prior(p: Segment, rest: seq<Segment>, i: nat): Segment
    requires i < |rest|
  {
    if i == 0 then p else rest[i - 1]
  }

  /** The group of rest[k] starts at l, seen from p; -1 stands for p itself. */
  ghost predicate LeadsFrom(p: Segment, rest: seq<Segment>, l: int, k: nat) {
    && -1 <= l <= k < |rest| && (l == -1 || !Overlaps(Prior(p, rest, l), rest[l]))
    && forall i {:trigger Prior(p, rest, i)} :: l < i <= k && i >= 0 ==> Overlaps(Prior(p, rest, i), rest[i])
  }

  /** One segment more in front; only its end matters. */
  lemma LeadsMore(p: Segment, q: Segment, rest: seq<Segment>, l: int, k: nat)
    requires rest != [] && End(q) == End(rest[0]) && LeadsFrom(q, rest[1..], l, k)
    ensures l >= 0 ==> LeadsFrom(p, rest, l + 1, k + 1)
    ensures l == -1 && Overlaps(p, rest[0]) ==> LeadsFrom(p, rest, -1, k + 1)
    ensures l == -1 && !Overlaps(p, rest[0]) ==> LeadsFrom(p, rest, 0, k + 1)
  {
    forall i | l < i - 1 <= k && i >= 1 ensures Overlaps(Prior(p, rest, i), rest[i]) {
      assert Overlaps(Prior(q, rest[1..], i - 1), rest[1..][i - 1]);
    }
  }

  /** Merging and aligning do not move the end of a segment, so the groups can be read off the original list. */
  lemma {:induction false} LeaderIs(p: Segment, rest: seq<Segment>, k: nat)
    requires Ahead(p, rest) && k < |rest|
    ensures LeadsFrom(p, rest, Leader(p, rest, k), k)
    decreases |rest|
  {
    if k > 0 {
      assert Sane(rest[1..]);
      assert Follows(rest[0], rest[1]) && SegmentOk(rest[0]);
      var q := if Overlaps(p, rest[0]) then Merge(p, rest[0]) else AlignDown(p, rest[0]);
      LeaderIs(q, rest[1..], k - 1);
      LeadsMore(p, q, rest, Leader(q, rest[1..], k - 1), k - 1);
    }
  }

  lemma LeadsUnique(segs: seq<Segment>, l: nat, m: nat, k: nat)
    requires Leads(segs, l, k) && Leads(segs, m, k)
    ensures l == m
  {}

  /**
   A file byte is mapped by one segment of the result, and keeps its file offset
   there exactly when its segment is placed in the file like the first of its group.
   */
  lemma KeepsOffsetIff(segs: seq<Segment>, l: nat, k: nat, v: nat)
    requires Sane(segs) && Adjust(segs).Some? && Leads(segs, l, k) && segs[k].vaddr <= v < FileEnd(segs[k])
    ensures exists m :: 0 <= m < |Adjust(segs).value| && Maps(Adjust(segs).value[m], v)
    ensures forall m :: 0 <= m < |Adjust(segs).value| && Maps(Adjust(segs).value[m], v) ==>
      (FileOffset(Adjust(segs).value[m], v) == FileOffset(segs[k], v) <==> Shift(segs[k]) == Shift(segs[l]))
  {
    AdjustedSegments(segs);
    LeaderLeads(segs, k);
    LeadsUnique(segs, l, LeaderOf(segs, k), k);
    OwnerShift(segs, k);
    var r, o := Adjust(segs).value, OwnerOf(segs, k);
    assert Covers(r[o], segs[k]);
    assert Maps(r[o], v);
    forall m | 0 <= m < |r| && Maps(r[m], v) ensures m == o {
      OneMaps(r, m, o, v);
    }
  }

  /** v is an address of the segment that holds file content. */
  predicate Maps(s: Segment, v: nat) {
    s.vaddr <= v < FileEnd(s)
  }

  lemma OneMaps(r: seq<Segment>, m: nat, o: nat, v: nat)
    requires PagesDisjoint(r) && SizesOk(r) && m < |r| && o < |r| && Maps(r[m], v) && Maps(r[o], v)
    ensures m == o
  {}

  lemma AndDouble(a: nat, b: nat)
    ensures And(2 * a, 2 * b + 1) == 2 * And(a, b)
  {}

  /** x * 2^n. */
  function Shifted(x: nat, n: nat): nat {
    if n == 0 then x else 2 * Shifted(x, n - 1)
  }

  /** 2^n - 1. */
  function Ones(n: nat): nat {
    if n == 0 then 0 else 2 * Ones(n - 1) + 1
  }

  lemma {:induction false} AndTop(x: nat, n: nat)
    requires x % 2 == 1
    ensures And(Shifted(x, n), Ones(n + 1)) == Shifted(1, n)
  {
    if n == 0 {
      assert Ones(1) == 1 && And(x / 2, 0) == 0;
    } else {
      AndTop(x, n - 1);
      AndDouble(Shifted(x, n - 1), Ones(n));
    }
  }

  /** The sizes of the example, in units of half a page. */
  lemma {:induction false} HalfPages(n: nat)
    ensures Shifted(3, n) == 3 * Shifted(1, n) && Shifted(5, n) == 5 * Shifted(1, n) && Ones(n + 1) + 1 == 2 * Shifted(1, n)
  {
    if n == 0 {
      assert Ones(1) == 1;
    } else {
      HalfPages(n - 1);
    }
  }

  lemma HalfPage()
    ensures Shifted(1, 11) == 0x800
  {}

  lemma MergeTwo(a: Segment, b: Segment)
    requires SegmentOk(a) && SegmentOk(b) && Follows(a, b) && Overlaps(a, b) && Mergeable(a, b)
    ensures Sane([a, b]) && Leads([a, b], 0, 1) && Adjust([a, b]) == Some([Merge(a, b)])
  {
    assert [a, b][1..] == [b] && [b][1..] == [];
    assert AdjustFrom(Merge(a, b), []) == Some([Merge(a, b)]);
  }

  /** Two segments that pass every assertion, are merged, and have the second one's bytes at other file offsets. */
  lemma MergeMovesOffset() returns (a: Segment, b: Segment)
    ensures Sane([a, b]) && Leads([a, b], 0, 1) && a.vaddr <= b.vaddr && Adjust([a, b]) == Some([Merge(a, b)])
    ensures Maps(b, b.vaddr) && FileOffset(Merge(a, b), b.vaddr) != FileOffset(b, b.vaddr)
  {
    HalfPage();
    a, b := MergeExample(11);
  }

  lemma MergeExample(n: nat) returns (a: Segment, b: Segment)
    requires Shifted(1, n) == 0x800
    ensures Sane([a, b]) && Leads([a, b], 0, 1) && a.vaddr <= b.vaddr && Adjust([a, b]) == Some([Merge(a, b)])
    ensures Maps(b, b.vaddr) && FileOffset(Merge(a, b), b.vaddr) != FileOffset(b, b.vaddr)
  {
    HalfPages(n);
    var v, o, g := Shifted(3, n), Shifted(5, n), Ones(n + 1) + 1;
    a := Segment(0, 0, v, v, {R, X}, g, false);
    b := Segment(o, v, 0x100, 0x100, {R, W}, g, false);
    AndTop(3, n);
    AndTop(5, n);
    MergeTwo(a, b);
  }

  lemma OwnerShift(segs: seq<Segment>, k: nat)
    requires Sane(segs) && Adjust(segs).Some? && k < |segs|
    ensures OwnerOf(segs, k) < |Adjust(segs).value|
    ensures Shift(Adjust(segs).value[OwnerOf(segs, k)]) == Shift(segs[LeaderOf(segs, k)])
  {
    StartsAhead(segs);
    if k == 0 {
      AdjustShape(segs[0], segs[1..]);
    } else {
      LeaderShift(segs[0], segs[1..], k - 1);
    }
  }

  /** What is mapped a second time from the same file page is writable. */
  ghost predicate RemappedWritable(rs: seq<Segment>) {
    forall i :: 0 <= i < |rs| && rs[i].remapped ==> W in rs[i].flags
  }

  lemma {:induction false} RemapNeedsWrite(p: Segment, rest: seq<Segment>)
    requires AdjustFrom(p, rest).Some? && RemappedWritable([p] + rest)
    ensures RemappedWritable(AdjustFrom(p, rest).value)
    decreases |rest|
  {
    assert ([p] + rest)[0] == p;
    if rest != [] {
      assert ([p] + rest)[1] == rest[0];
      assert forall i :: 0 <= i < |rest[1..]| ==> rest[1..][i] == ([p] + rest)[i + 2];
      var q := if Overlaps(p, rest[0]) then Merge(p, rest[0]) else AlignDown(p, rest[0]);
      RemapNeedsWrite(q, rest[1..]);
    }
  }

  // ----- the result, read off the original list

  /** The file offset after segment i when its group starts at l, in the arithmetic of size_t. */
  function GroupFileTop(segs: seq<Segment>, l: nat, i: nat): int
    requires l <= i < |segs|
  {
    (FileEnd(segs[i]) - Shift(segs[l])) % LIMIT
  }

  /** Segment i starts in a file page that the group l up to i - 1 has mapped. */
  predicate FilePageTaken(segs: seq<Segment>, l: nat, i: nat)
    requires l < i < |segs|
  {
    segs[i].align > 0 && Masked(segs[i].offset, segs[i].align) != 0 && RoundDown(segs[i].offset) < GroupFileTop(segs, l, i - 1)
  }

  /** The assertions at segment i, when the group before it starts at l. */
  predicate StepOk(segs: seq<Segment>, l: nat, i: nat)
    requires l < i < |segs|
  {
    if Overlaps(segs[i - 1], segs[i]) then
      && segs[i].align > 0 && Masked(segs[i].vaddr, segs[i].align) == Masked(segs[i].offset, segs[i].align)
      && segs[i - 1].memsz == segs[i - 1].filesz
    else FilePageTaken(segs, l, i) ==> W in segs[i].flags
  }

  ghost predicate InFlags(segs: seq<Segment>, l: nat, k: nat, f: Flag)
    requires l <= k < |segs|
  {
    exists i :: l <= i <= k && f in segs[i].flags
  }

  /** The group before segment i starts at l. */
  ghost predicate LeadsBefore(segs: seq<Segment>, l: nat, i: nat) {
    0 < i < |segs| && Leads(segs, l, i - 1)
  }

  /** Whether the first segment of a group had to be mapped a second time. */
  ghost predicate Remaps(segs: seq<Segment>, l: nat)
    requires l < |segs|
  {
    segs[l].remapped || exists j: nat :: LeadsBefore(segs, j, l) && FilePageTaken(segs, j, l)
  }

  /**
   s is what becomes of the segments l up to k: from the start of the first, at a page boundary
   unless nothing comes before it, to the end of the last, with exactly their permissions.
   */
  ghost predicate IsGroup(segs: seq<Segment>, l: nat, k: nat, s: Segment) {
    && Leads(segs, l, k)
    && s.vaddr == (if l == 0 then segs[0].vaddr else RoundDown(segs[l].vaddr)) && Shift(s) == Shift(segs[l])
    && End(s) == End(segs[k]) && FileEnd(s) == FileEnd(segs[k])
    && (forall f :: f in s.flags <==> InFlags(segs, l, k, f))
    && s.align == segs[l].align && (s.remapped <==> Remaps(segs, l))
  }

  lemma FirstGroup(segs: seq<Segment>)
    requires segs != []
    ensures IsGroup(segs, 0, 0, segs[0])
  {
    forall f ensures f in segs[0].flags <==> InFlags(segs, 0, 0, f) {}
  }

  /** The fields of the current segment decide as the original ones do. */
  lemma SameStep(segs: seq<Segment>, l: nat, k: nat, p: Segment)
    requires Sane(segs) && k + 1 < |segs| && IsGroup(segs, l, k, p)
    ensures Overlaps(p, segs[k + 1]) <==> Overlaps(segs[k], segs[k + 1])
    ensures p.vaddr <= segs[k + 1].vaddr
    ensures p.memsz == p.filesz <==> segs[k].memsz == segs[k].filesz
    ensures SharesFilePage(p, segs[k + 1]) <==> FilePageTaken(segs, l, k + 1)
    ensures StepOk(segs, l, k + 1) <==>
      if Overlaps(p, segs[k + 1]) then Mergeable(p, segs[k + 1]) && p.vaddr <= segs[k + 1].vaddr
      else !(SharesFilePage(p, segs[k + 1]) && W !in segs[k + 1].flags)
  {
    assert Follows(segs[k], segs[k + 1]) && SegmentOk(segs[k + 1]);
    assert p.offset + p.filesz == FileEnd(segs[k]) - Shift(segs[l]);
  }

  lemma MergedGroup(segs: seq<Segment>, l: nat, k: nat, p: Segment)
    requires Sane(segs) && k + 1 < |segs| && IsGroup(segs, l, k, p) && Overlaps(segs[k], segs[k + 1])
    ensures p.vaddr <= segs[k + 1].vaddr && IsGroup(segs, l, k + 1, Merge(p, segs[k + 1]))
  {
    SameStep(segs, l, k, p);
    var s := Merge(p, segs[k + 1]);
    assert Leads(segs, l, k + 1);
    forall f ensures f in s.flags <==> InFlags(segs, l, k + 1, f) {
      MoreFlags(segs, l, k, f);
    }
  }

  lemma MoreFlags(segs: seq<Segment>, l: nat, k: nat, f: Flag)
    requires l <= k && k + 1 < |segs|
    ensures InFlags(segs, l, k + 1, f) <==> InFlags(segs, l, k, f) || f in segs[k + 1].flags
  {
    if InFlags(segs, l, k, f) {
      var i :| l <= i <= k && f in segs[i].flags;
      assert l <= i <= k + 1;
    }
  }

  lemma AlignedGroup(segs: seq<Segment>, l: nat, k: nat, p: Segment)
    requires Sane(segs) && k + 1 < |segs| && IsGroup(segs, l, k, p) && !Overlaps(segs[k], segs[k + 1])
    ensures IsGroup(segs, k + 1, k + 1, AlignDown(p, segs[k + 1]))
  {
    SameStep(segs, l, k, p);
    assert SegmentOk(segs[k + 1]);
    var n := k + 1;
    forall f ensures f in segs[n].flags <==> InFlags(segs, n, n, f) {}
    assert Remaps(segs, n) <==> segs[n].remapped || FilePageTaken(segs, l, n) by {
      forall j: nat | LeadsBefore(segs, j, n) ensures j == l { LeadsUnique(segs, j, l, k); }
      assert LeadsBefore(segs, l, n);
    }
  }

  /** No assertion fails from segment n on. */
  ghost predicate StepsOk(segs: seq<Segment>, n: nat) {
    forall l: nat, i: nat :: n <= i && LeadsBefore(segs, l, i) ==> StepOk(segs, l, i)
  }

  lemma StepsOkNext(segs: seq<Segment>, l: nat, n: nat)
    requires LeadsBefore(segs, l, n)
    ensures StepsOk(segs, n) <==> StepOk(segs, l, n) && StepsOk(segs, n + 1)
  {
    forall j: nat, i: nat | n <= i && LeadsBefore(segs, j, i) && StepOk(segs, l, n) && StepsOk(segs, n + 1)
      ensures StepOk(segs, j, i)
    {
      if i == n { LeadsUnique(segs, j, l, n - 1); }
    }
  }

  lemma GroupInFront(segs: seq<Segment>, l: nat, k: nat, p: Segment, r: seq<Segment>)
    requires WholeGroup(segs, l, k, p) && AllGroups(segs, r)
    ensures AllGroups(segs, [p] + r)
  {
    assert SomeGroup(segs, p);
    var q := [p] + r;
    forall m | 0 <= m < |q| ensures SomeGroup(segs, q[m]) {
      if m > 0 {
        assert q[m] == r[m - 1];
      }
    }
  }

  /** From a group on: success exactly when every assertion holds, and every segment of the result is a group. */
  lemma {:induction false} GroupsFrom(segs: seq<Segment>, l: nat, k: nat, p: Segment)
    requires Sane(segs) && IsGroup(segs, l, k, p)
    ensures AdjustFrom(p, segs[k + 1..]).Some? <==> StepsOk(segs, k + 1)
    ensures AdjustFrom(p, segs[k + 1..]).Some? ==> AllGroups(segs, AdjustFrom(p, segs[k + 1..]).value)
    decreases |segs| - k
  {
    var rest := segs[k + 1..];
    if k + 1 == |segs| {
      assert rest == [] && [p] + [] == [p];
      GroupInFront(segs, l, k, p, []);
    } else {
      var n, s := k + 1, segs[k + 1];
      assert rest[0] == s && rest[1..] == segs[n + 1..];
      SameStep(segs, l, k, p);
      assert LeadsBefore(segs, l, n);
      StepsOkNext(segs, l, n);
      if Overlaps(p, s) {
        MergedGroup(segs, l, k, p);
        GroupsFrom(segs, l, n, Merge(p, s));
      } else {
        AlignedGroup(segs, l, k, p);
        GroupsFrom(segs, n, n, AlignDown(p, s));
        if AdjustFrom(AlignDown(p, s), segs[n + 1..]).Some? {
          GroupInFront(segs, l, k, p, AdjustFrom(AlignDown(p, s), segs[n + 1..]).value);
        }
      }
    }
  }

  /** A group that no further segment belongs to. */
  ghost predicate WholeGroup(segs: seq<Segment>, l: nat, k: nat, s: Segment) {
    IsGroup(segs, l, k, s) && (k + 1 == |segs| || !Overlaps(segs[k], segs[k + 1]))
  }

  ghost predicate SomeGroup(segs: seq<Segment>, s: Segment) {
    exists l: nat, k: nat :: WholeGroup(segs, l, k, s)
  }

  ghost predicate AllGroups(segs: seq<Segment>, r: seq<Segment>) {
    forall m :: 0 <= m < |r| ==> SomeGroup(segs, r[m])
  }

  /** Adjusting sane segments succeeds exactly when no assertion fails on the original list, and gives exactly the groups. */
  lemma AdjustIsGroups(segs: seq<Segment>)
    requires Sane(segs)
    ensures Adjust(segs).Some? <==> StepsOk(segs, 0)
    ensures Adjust(segs).Some? ==> AllGroups(segs, Adjust(segs).value)
  {
    if segs != [] {
      FirstGroup(segs);
      GroupsFrom(segs, 0, 0, segs[0]);
      assert StepsOk(segs, 0) <==> StepsOk(segs, 1);
    }
  }

  /** So a merged segment has no permission that none of its members had. */
  lemma NoNewFlags(segs: seq<Segment>, m: nat, f: Flag)
    requires Sane(segs) && Adjust(segs).Some? && m < |Adjust(segs).value| && f in Adjust(segs).value[m].flags
    ensures exists k :: 0 <= k < |segs| && f in segs[k].flags && Covers(Adjust(segs).value[m], segs[k])
  {
    AdjustIsGroups(segs);
    var s := Adjust(segs).value[m];
    assert SomeGroup(segs, s);
    var l: nat, k: nat :| WholeGroup(segs, l, k, s);
    assert InFlags(segs, l, k, f);
    var i :| l <= i <= k && f in segs[i].flags;
    GroupCovers(segs, l, k, s, i);
  }

  lemma {:induction false} InOrder(segs: seq<Segment>, i: nat, j: nat)
    requires Sane(segs) && i <= j < |segs|
    ensures segs[i].vaddr <= segs[j].vaddr && End(segs[i]) <= End(segs[j]) && (i < j ==> End(segs[i]) <= segs[j].vaddr)
    decreases j
  {
    if i < j {
      InOrder(segs, i, j - 1);
      assert Follows(segs[j - 1], segs[j]);
    }
  }

  lemma GroupCovers(segs: seq<Segment>, l: nat, k: nat, s: Segment, i: nat)
    requires Sane(segs) && IsGroup(segs, l, k, s) && l <= i <= k
    ensures Covers(s, segs[i])
  {
    InOrder(segs, l, i);
    InOrder(segs, i, k);
    assert SegmentOk(segs[i]) && SegmentOk(segs[k]);
    forall f | f in segs[i].flags ensures f in s.flags {
      assert InFlags(segs, l, k, f);
    }
  }

  // ----- the method

  /** What remains to do with the list when the segments before i are finished. */
  ghost function Rest(list: seq<Segment>, i: nat): Option<seq<Segment>>
    requires 0 < i <= |list|
  {
    match AdjustFrom(list[i - 1], list[i..])
    case None => None
    case Some(r) => Some(list[..i - 1] + r)
  }

  /** adjust_segments on the list of segments; None stands for a failed assertion. */
  method AdjustSegments(segs: seq<Segment>) returns (r: Option<seq<Segment>>)
    ensures r == if Sane(segs) then Adjust(segs) else None
    ensures r.Some? <==> Sane(segs) && StepsOk(segs, 0)
    ensures r.Some? ==> AllGroups(segs, r.value)
  {
    if Sane(segs) { AdjustIsGroups(segs); }
    r := AdjustList(segs);
  }

  method AdjustList(segs: seq<Segment>) returns (r: Option<seq<Segment>>)
    ensures r == if Sane(segs) then Adjust(segs) else None
  {
    var ok := CheckSegments(segs);
    if !ok {
      return None;
    }
    if segs == [] {
      return Some([]);
    }
    var list, i := segs, 1;
    if Adjust(segs).Some? {
      assert list[..0] + Adjust(segs).value == Adjust(segs).value;
    }
    ghost var n := 1;
    while i < |list|
      invariant 0 < i <= |list| && 0 < n <= |segs| && list[i..] == segs[n..]
      invariant End(list[i - 1]) == End(segs[n - 1]) && list[i - 1].vaddr <= segs[n - 1].vaddr
      invariant Rest(list, i) == Adjust(segs)
      decreases |list| - i
    {
      var p, s := list[i - 1], list[i];
      assert s == segs[n] && Follows(segs[n - 1], segs[n]) && SegmentOk(s);
      assert list[i..][1..] == list[i + 1..] && segs[n..][1..] == segs[n + 1..];
      if Overlaps(p, s) {
        if !Mergeable(p, s) {
          return None;
        }
        ghost var was := list;
        list := list[..i - 1] + [Merge(p, s)] + list[i + 1..];
        assert list[i..] == was[i + 1..] && list[..i - 1] == was[..i - 1];
      } else {
        if SharesFilePage(p, s) && W !in s.flags {
          return None;
        }
        ghost var was := list;
        list := list[i := AlignDown(p, s)];
        assert list[i + 1..] == was[i + 1..];
        assert list[..i] == was[..i - 1] + [p];
        Extended(was, list, i);
        i := i + 1;
      }
      n := n + 1;
    }
    assert list[i..] == [];
    assert list[..i - 1] + [list[i - 1]] == list;
    return Some(list);
  }

  lemma Extended(was: seq<Segment>, list: seq<Segment>, i: nat)
    requires 0 < i < |was| && list == was[i := AlignDown(was[i - 1], was[i])]
    requires !Overlaps(was[i - 1], was[i]) && !(SharesFilePage(was[i - 1], was[i]) && W !in was[i].flags)
    ensures Rest(list, i + 1) == Rest(was, i)
  {
    assert was[i..][1..] == was[i + 1..] == list[i + 1..];
    assert list[..i] == was[..i - 1] + [was[i - 1]];
    if AdjustFrom(list[i], list[i + 1..]).Some? {
      var r := AdjustFrom(list[i], list[i + 1..]).value;
      assert was[..i - 1] + ([was[i - 1]] + r) == was[..i - 1] + [was[i - 1]] + r;
    }
  }
}
