/**
 Relocated read-only paging (core/mm/fobj.c): a compact per-page index of the
 relocations, and pages that are relocated one by one as they are loaded.
 */
module Relocs {
  import opened Common

  const PAGE: nat := 4096            // SMALL_PAGE_SIZE
  const WORD: nat := 8               // sizeof(unsigned long)
  const WORDS: nat := 512            // words in a page
  const NONE: nat := 0xffff          // UINT16_MAX
  const MOD16: nat := 0x1_0000
  const MOD64: nat := 0x1_0000_0000_0000_0000

  // ----- what the table of relocations means

  /** What get_num_rels checks: aligned, strictly sorted, none at 0. */
  ghost predicate WellFormed(reloc: seq<nat>) {
    && (forall i :: 0 <= i < |reloc| ==> 0 < reloc[i] && reloc[i] % WORD == 0)
    && (forall i, j :: 0 <= i < j < |reloc| ==> reloc[i] < reloc[j])
  }

  /** Of the first n relocations, those inside the object, as offsets into it. */
  function Inside(reloc: seq<nat>, offs: nat, size: nat, n: nat): (r: seq<nat>)
    requires n <= |reloc|
    ensures |r| <= n
  {
    if n == 0 then []
    else
      var p := Inside(reloc, offs, size, n - 1);
      if offs <= reloc[n - 1] < offs + size then p + [reloc[n - 1] - offs] else p
  }

  ghost predicate Increasing(rs: seq<nat>) {
    forall i, j :: 0 <= i < j < |rs| ==> rs[i] < rs[j]
  }

  ghost predicate WordAligned(rs: seq<nat>) {
    forall i :: 0 <= i < |rs| ==> rs[i] % WORD == 0
  }

  lemma {:induction false} InsideShape(reloc: seq<nat>, offs: nat, size: nat, n: nat)
    requires WellFormed(reloc) && n <= |reloc|
    ensures Increasing(Inside(reloc, offs, size, n))
    ensures forall i :: 0 <= i < |Inside(reloc, offs, size, n)| ==> Inside(reloc, offs, size, n)[i] < size
    ensures offs % WORD == 0 ==> WordAligned(Inside(reloc, offs, size, n))
    ensures forall i :: 0 <= i < |Inside(reloc, offs, size, n)| && n > 0 ==>
      Inside(reloc, offs, size, n)[i] <= reloc[n - 1] - offs
  {
    if n > 0 {
      InsideShape(reloc, offs, size, n - 1);
    }
  }

  /** They are all of those, and no others. */
  lemma {:induction false} InsideIs(reloc: seq<nat>, offs: nat, size: nat, n: nat, x: nat)
    requires n <= |reloc|
    ensures x in Inside(reloc, offs, size, n) <==> x < size && offs + x in reloc[..n]
  {
    if n > 0 {
      InsideIs(reloc, offs, size, n - 1, x);
      assert reloc[..n] == reloc[..n - 1] + [reloc[n - 1]];
    }
  }

  /** Nothing after a relocation beyond the end is inside. */
  lemma {:induction false} InsideStops(reloc: seq<nat>, offs: nat, size: nat, n: nat, m: nat)
    requires WellFormed(reloc) && n <= m <= |reloc| && (n < |reloc| ==> reloc[n] >= offs + size)
    ensures Inside(reloc, offs, size, m) == Inside(reloc, offs, size, n)
    decreases m
  {
    if m > n {
      InsideStops(reloc, offs, size, n, m - 1);
    }
  }

  /** The words of an image with the load offset added at the relocation addresses. */
  function Relocated(image: seq<nat>, rs: seq<nat>, off: nat): (r: seq<nat>)
    ensures |r| == |image|
  {
    seq(|image|, g requires 0 <= g < |image| => if WORD * g in rs then (image[g] + off) % MOD64 else image[g])
  }

  /** A word of the object has the offset added exactly when the table names its address. */
  lemma RelocatedByTable(image: seq<nat>, reloc: seq<nat>, offs: nat, off: nat, g: nat)
    requires g < |image|
    ensures Relocated(image, Inside(reloc, offs, WORD * |image|, |reloc|), off)[g] ==
      if offs + WORD * g in reloc then (image[g] + off) % MOD64 else image[g]
  {
    InsideIs(reloc, offs, WORD * |image|, |reloc|, WORD * g);
    assert reloc[..|reloc|] == reloc;
  }

  /** v is the position of the first relocation in page p, or the mark for none. */
  ghost predicate IsFirst(rs: seq<nat>, n: nat, p: nat, v: nat) {
    n <= |rs| && (forall k :: 0 <= k < n && (v == NONE || k < v) ==> rs[k] / PAGE != p)
    && (v != NONE ==> v < n && rs[v] / PAGE == p)
  }

  /**
   What the index holds for page p after n relocations: the 16-bit position of the first one
   whose position does not read as the mark, or the mark.
   */
  function IdxOf(rs: seq<nat>, n: nat, p: nat): (v: nat)
    requires n <= |rs|
    ensures v == NONE || v < Min(n, NONE)
  {
    if n == 0 then NONE
    else
      var v := IdxOf(rs, n - 1, p);
      if v == NONE && rs[n - 1] / PAGE == p then (n - 1) % MOD16 else v
  }

  /** Up to 65535 relocations that is the first one in the page. */
  lemma {:induction false} IdxIsFirst(rs: seq<nat>, n: nat, p: nat)
    requires n <= |rs| <= NONE
    ensures IsFirst(rs, n, p, IdxOf(rs, n, p))
  {
    if n > 0 {
      IdxIsFirst(rs, n - 1, p);
    }
  }

  lemma {:induction false} IdxOfEmpty(rs: seq<nat>, n: nat, p: nat)
    requires n <= |rs| && forall k :: 0 <= k < n ==> rs[k] / PAGE != p
    ensures IdxOf(rs, n, p) == NONE
  {
    if n > 0 {
      IdxOfEmpty(rs, n - 1, p);
    }
  }

  /** The position at which loading stops: that of the next page that has one, from q on, or all. */
  function EndFrom(rs: seq<nat>, q: nat, numPages: nat): (end: nat)
    ensures end <= |rs|
    decreases numPages - q
  {
    if q >= numPages then |rs|
    else if IdxOf(rs, |rs|, q) != NONE then IdxOf(rs, |rs|, q)
    else EndFrom(rs, q + 1, numPages)
  }

  /** Up to 65535 relocations these are all of the pages before. */
  lemma {:induction false} EndSplits(rs: seq<nat>, p: nat, q: nat, numPages: nat)
    requires Increasing(rs) && |rs| <= NONE && p < q <= numPages && forall k :: 0 <= k < |rs| ==> rs[k] / PAGE < numPages
    requires forall k :: 0 <= k < |rs| ==> rs[k] / PAGE <= p || rs[k] / PAGE >= q
    ensures forall k :: 0 <= k < EndFrom(rs, q, numPages) ==> rs[k] / PAGE <= p
    ensures forall k :: EndFrom(rs, q, numPages) <= k < |rs| ==> rs[k] / PAGE > p
    decreases numPages - q
  {
    if q < numPages {
      IdxIsFirst(rs, |rs|, q);
      var v := IdxOf(rs, |rs|, q);
      if v != NONE {
        PagesInOrder(rs, v);
      } else {
        EndSplits(rs, p, q + 1, numPages);
      }
    }
  }

  /** The word of a page that a relocation is about. */
  function WordOf(r: nat): (w: nat)
    ensures w < WORDS
  {
    r % PAGE / WORD
  }

  /** The words of a page after the relocations n up to end are applied to it, whichever page they belong to. */
  function PatchRun(page: seq<nat>, rs: seq<nat>, n: nat, end: nat, off: nat): (r: seq<nat>)
    requires |page| == WORDS && end <= |rs|
    ensures |r| == WORDS
    decreases end
  {
    if n >= end then page
    else
      var p := PatchRun(page, rs, n, end - 1, off);
      var w := WordOf(rs[end - 1]);
      p[w := (p[w] + off) % MOD64]
  }

  /** What loading page p makes of its words. */
  function Loaded(page: seq<nat>, rs: seq<nat>, p: nat, numPages: nat, off: nat): (r: seq<nat>)
    requires |page| == WORDS
    ensures |r| == WORDS
  {
    PatchRun(page, rs, IdxOf(rs, |rs|, p), EndFrom(rs, p + 1, numPages), off)
  }

  /** Relocations of the page itself are patched once each. */
  lemma {:induction false} RunPatches(page: seq<nat>, rs: seq<nat>, n: nat, end: nat, off: nat, p: nat)
    requires |page| == WORDS && end <= |rs| && Increasing(rs)
    requires forall k :: n <= k < end ==> rs[k] / PAGE == p && rs[k] % WORD == 0
    ensures Patched(page, rs[Min(n, end)..end], PAGE * p, off, PatchRun(page, rs, n, end, off))
    decreases end
  {
    if n < end {
      var m: nat := end - 1;
      RunPatches(page, rs, n, m, off, p);
      RelInPage(rs, p, n, m);
      OneMoreOf(rs, n, m);
      PatchedMore(page, rs[n..m], PAGE * p, off, PatchRun(page, rs, n, m, off), WordOf(rs[m]), rs[m]);
    }
  }

  lemma OneMoreOf(rs: seq<nat>, n: nat, m: nat)
    requires n <= m < |rs|
    ensures rs[n..m + 1] == rs[n..m] + [rs[m]]
  {}

  lemma PatchedMore(before: seq<nat>, rs: seq<nat>, base: nat, off: nat, after: seq<nat>, w: nat, x: nat)
    requires w < |after| && Patched(before, rs, base, off, after) && x == base + WORD * w && x !in rs
    ensures Patched(before, rs + [x], base, off, after[w := (after[w] + off) % MOD64])
  {}

  // ----- more than 65535 relocations

  lemma NoWrap(v: nat)
    requires v + 1 < MOD64
    ensures (v + 1) % MOD64 == v + 1
  {}

  /** Applied to zeros with an offset of 1, a word counts its relocations. */
  lemma {:induction false} RunCounts(page: seq<nat>, rs: seq<nat>, n: nat, end: nat)
    requires |page| == WORDS && (forall w :: 0 <= w < WORDS ==> page[w] == 0) && end <= |rs| < MOD64
    ensures forall w :: 0 <= w < WORDS ==> PatchRun(page, rs, n, end, 1)[w] <= end
    ensures n < end ==> PatchRun(page, rs, n, end, 1)[WordOf(rs[end - 1])] >= 1
    decreases end
  {
    if n < end {
      RunCounts(page, rs, n, end - 1);
      var r, w := PatchRun(page, rs, n, end - 1, 1), WordOf(rs[end - 1]);
      NoWrap(r[w]);
      assert PatchRun(page, rs, n, end, 1) == r[w := r[w] + 1];
    }
  }

  /**
   The last page, when it has no relocations: loading leaves every content as it is exactly
   when there are at most 65535 relocations, since the mark for none is read as a position.
   */
  lemma EmptyLastPageIff(rs: seq<nat>, p: nat, numPages: nat)
    requires numPages == p + 1 && |rs| < MOD64 && forall k :: 0 <= k < |rs| ==> rs[k] / PAGE < p
    ensures (forall page: seq<nat>, off: nat :: |page| == WORDS ==> Loaded(page, rs, p, numPages, off) == page) <==> |rs| <= NONE
  {
    IdxOfEmpty(rs, |rs|, p);
    var page: seq<nat> := seq(WORDS, _ => 0);
    RunCounts(page, rs, NONE, |rs|);
    if |rs| > NONE {
      assert Loaded(page, rs, p, numPages, 1)[WordOf(rs[|rs| - 1])] != page[WordOf(rs[|rs| - 1])];
    }
  }

  /** A table of n relocations, one in every word from the object's start at the second page. */
  function Dense(n: nat): seq<nat> {
    seq(n, k requires 0 <= k < n => PAGE + WORD * k)
  }

  lemma {:induction false} DenseInside(m: nat, n: nat, size: nat)
    requires n <= m && WORD * m <= size
    ensures Inside(Dense(m), PAGE, size, n) == seq(n, k requires 0 <= k < n => WORD * k)
  {
    if n > 0 {
      DenseInside(m, n - 1, size);
    }
  }

  /** Such a table of 65536, in an object of 129 pages, is well formed and leaves the last page without relocations. */
  lemma DenseOverruns(n: nat)
    requires n == MOD16
    ensures var rs := Inside(Dense(n), PAGE, 129 * PAGE, |Dense(n)|);
      && WellFormed(Dense(n)) && !AtEnd(Dense(n), PAGE, 129 * PAGE, |Dense(n)|)
      && NONE < |rs| < MOD64 && forall k :: 0 <= k < |rs| ==> rs[k] / PAGE < 128
  {
    DenseInside(n, n, 129 * PAGE);
  }

  // ----- get_num_rels

  /** A relocation exactly at the end of the object. */
  ghost predicate AtEnd(reloc: seq<nat>, offs: nat, size: nat, n: nat)
    requires n <= |reloc|
  {
    exists i :: 0 <= i < n && reloc[i] == offs + size
  }

  method GetNumRels(numPages: nat, offs: nat, reloc: seq<nat>) returns (nrels: nat)
    requires WellFormed(reloc)
    ensures nrels == |Inside(reloc, offs, numPages * PAGE, |reloc|)| +
      if AtEnd(reloc, offs, numPages * PAGE, |reloc|) then 1 else 0
  {
    var size := numPages * PAGE;
    nrels := 0;
    var n, last := 0, 0;
    while n < |reloc|
      invariant 0 <= n <= |reloc| && last == if n == 0 then 0 else reloc[n - 1]
      invariant nrels == |Inside(reloc, offs, size, n)| + if AtEnd(reloc, offs, size, n) then 1 else 0
    {
      assert reloc[n] % WORD == 0 && last < reloc[n];
      last := reloc[n];
      ghost var was := AtEnd(reloc, offs, size, n);
      assert AtEnd(reloc, offs, size, n + 1) <==> was || last == offs + size;
      assert last == offs + size ==> !was;
      if last >= offs && last <= offs + size {
        nrels := nrels + 1;
      }
      n := n + 1;
    }
  }

  // ----- the paged object

  class RelocPaged {
    const numPages: nat
    const pageRelocIdx: array<nat>
    const relocs: array<nat>
    const numRelocs: nat

    constructor (pages: nat, n: nat)
      ensures numPages == pages && numRelocs == n && pageRelocIdx.Length == pages && relocs.Length == n
      ensures fresh(pageRelocIdx) && fresh(relocs) && Valid()
    {
      numPages, numRelocs := pages, n;
      pageRelocIdx := new nat[pages](_ => 0);
      relocs := new nat[n](_ => 0);
    }

    ghost predicate Valid()
      reads this
    {
      pageRelocIdx.Length == numPages && relocs.Length == numRelocs && pageRelocIdx != relocs
    }

    /** The first n relocations of rs are indexed. */
    ghost predicate Indexed(rs: seq<nat>, n: nat)
      requires Valid()
      reads this, pageRelocIdx, relocs
    {
      && n <= |rs| && n <= numRelocs
      && (forall k :: 0 <= k < n ==> relocs[k] == rs[k] % PAGE)
      && (forall p :: 0 <= p < numPages ==> pageRelocIdx[p] == IdxOf(rs, n, p))
    }

    method ClearIndex(ghost rs: seq<nat>)
      requires Valid()
      modifies pageRelocIdx
      ensures Indexed(rs, 0)
    {
      var n := 0;
      while n < numPages
        invariant 0 <= n <= numPages
        invariant forall p :: 0 <= p < n ==> pageRelocIdx[p] == NONE
      {
        pageRelocIdx[n] := NONE;
        n := n + 1;
      }
    }

    /** Enter the next relocation r. */
    method AddRel(reln: nat, r: nat, ghost rs: seq<nat>)
      requires Valid() && Indexed(rs, reln) && reln < |rs| <= numRelocs && rs[reln] == r
      requires r / PAGE < numPages
      modifies pageRelocIdx, relocs
      ensures Indexed(rs, reln + 1)
    {
      var pg := r / PAGE;
      if pageRelocIdx[pg] == NONE {
        pageRelocIdx[pg] := reln % MOD16;
      }
      relocs[reln] := r - pg * PAGE;
      assert relocs[reln] == r % PAGE;
    }

    /** Whether the final assertion passes: exactly when no relocation lies at the end of the object. */
    method InitRels(offs: nat, reloc: seq<nat>, ghost rs: seq<nat>) returns (ok: bool)
      requires Valid() && WellFormed(reloc) && rs == Inside(reloc, offs, numPages * PAGE, |reloc|)
      requires |rs| <= numRelocs
      modifies pageRelocIdx, relocs
      ensures ok <==> |rs| == numRelocs
      ensures Indexed(rs, |rs|)
    {
      ClearIndex(rs);
      ghost var size := numPages * PAGE;
      var reln, n := 0, 0;
      while n < |reloc|
        invariant 0 <= n <= |reloc| && reln <= |rs| && Inside(reloc, offs, size, n) == rs[..reln]
        invariant Indexed(rs, reln)
      {
        if reloc[n] >= offs {
          var r := reloc[n] - offs;
          if r / PAGE >= numPages {
            InsideStops(reloc, offs, size, n, |reloc|);
            break;
          }
          InsidePrefix(reloc, offs, size, n + 1, |reloc|);
          AddRel(reln, r, rs);
          reln := reln + 1;
        }
        n := n + 1;
      }
      assert rs[..reln] == rs;
      ok := reln == numRelocs;
    }

    /** The object holds the relocations rs. */
    ghost predicate Ready(rs: seq<nat>)
      reads this, pageRelocIdx, relocs
    {
      && Valid() && |rs| == numRelocs && Indexed(rs, |rs|) && Increasing(rs)
      && forall k :: 0 <= k < |rs| ==> rs[k] / PAGE < numPages
    }

    /** The position at which the index says the pages after this one begin. */
    method EndRel(p: nat, ghost rs: seq<nat>) returns (end: nat)
      requires Ready(rs) && p < numPages
      ensures end == EndFrom(rs, p + 1, numPages)
    {
      end := numRelocs;
      var n := p + 1;
      while n < numPages
        invariant p < n <= numPages && end == |rs| && EndFrom(rs, p + 1, numPages) == EndFrom(rs, n, numPages)
      {
        if pageRelocIdx[n] != NONE {
          end := pageRelocIdx[n];
          return;
        }
        n := n + 1;
      }
    }

    /**
     Relocate a page that has just been loaded: the relocations between two positions of the
     index are applied, and up to 65535 relocations its words are those of the relocated image.
     */
    method LoadPage(p: nat, page: array<nat>, loadOffset: nat, ghost rs: seq<nat>, ghost image: seq<nat>)
      requires Ready(rs) && WordAligned(rs)
      requires p < numPages && |image| == numPages * WORDS
      requires page.Length == WORDS && page != relocs && page != pageRelocIdx
      requires page[..] == image[p * WORDS..p * WORDS + WORDS]
      modifies page
      ensures page[..] == Loaded(old(page[..]), rs, p, numPages, loadOffset)
      ensures |rs| <= NONE ==> page[..] == Relocated(image, rs, loadOffset)[p * WORDS..p * WORDS + WORDS]
    {
      var end := EndRel(p, rs);
      ghost var before := page[..];
      PatchRange(page, pageRelocIdx[p], end, loadOffset, rs);
      if |rs| <= NONE {
        PageIsRelocated(rs, p, numPages, image, loadOffset, before);
      }
    }

    method PatchRange(page: array<nat>, first: nat, end: nat, loadOffset: nat, ghost rs: seq<nat>)
      requires end <= |rs| && end <= relocs.Length && page.Length == WORDS && page != relocs
      requires forall k :: 0 <= k < end ==> relocs[k] == rs[k] % PAGE
      modifies page
      ensures page[..] == PatchRun(old(page[..]), rs, first, end, loadOffset)
    {
      var n := first;
      ghost var before := page[..];
      while n < end
        invariant first <= n && (first <= end ==> n <= end)
        invariant first <= end ==> page[..] == PatchRun(before, rs, first, n, loadOffset)
        invariant first > end ==> page[..] == before
      {
        var w := relocs[n] / WORD;
        assert w == WordOf(rs[n]);
        page[w] := (page[w] + loadOffset) % MOD64;
        n := n + 1;
      }
    }
  }

  /** Up to 65535 relocations the positions enclose exactly the relocations of the page. */
  lemma PageIsRelocated(rs: seq<nat>, p: nat, numPages: nat, image: seq<nat>, off: nat, before: seq<nat>)
    requires Increasing(rs) && WordAligned(rs) && |rs| <= NONE && p < numPages && |image| == numPages * WORDS
    requires forall k :: 0 <= k < |rs| ==> rs[k] / PAGE < numPages
    requires before == image[p * WORDS..p * WORDS + WORDS]
    ensures Loaded(before, rs, p, numPages, off) == Relocated(image, rs, off)[p * WORDS..p * WORDS + WORDS]
  {
    var n, end := IdxOf(rs, |rs|, p), EndFrom(rs, p + 1, numPages);
    IdxIsFirst(rs, |rs|, p);
    EndSplits(rs, p, p + 1, numPages);
    if n != NONE {
      PagesInOrder(rs, n);
    }
    RunPatches(before, rs, n, end, off, p);
    WholePage(rs, p, Min(n, end), end, image, off, before, PatchRun(before, rs, n, end, off));
  }

  /** Words at these addresses, counted from base, have the offset added once. */
  ghost predicate Patched(before: seq<nat>, rs: seq<nat>, base: nat, off: nat, after: seq<nat>) {
    && |after| == |before|
    && forall w :: 0 <= w < |after| ==> after[w] == if base + WORD * w in rs then (before[w] + off) % MOD64 else before[w]
  }

  /** A table that passes the checks and fails the assertion: one page, one relocation right behind it. */
  lemma EndBoundaryFails()
    ensures WellFormed([PAGE]) && AtEnd([PAGE], 0, PAGE, 1) && Inside([PAGE], 0, PAGE, 1) == []
  {
    assert [PAGE][0] == 0 + PAGE;
    assert Inside([PAGE], 0, PAGE, 0) == [];
  }

  /** Count, allocate and index; None stands for the failed assertion at the end of init_rels. */
  method Alloc(numPages: nat, offs: nat, reloc: seq<nat>, ghost rs: seq<nat>) returns (r: Option<RelocPaged>)
    requires WellFormed(reloc) && rs == Inside(reloc, offs, numPages * PAGE, |reloc|)
    ensures r.None? <==> AtEnd(reloc, offs, numPages * PAGE, |reloc|)
    ensures r.Some? ==> r.value.numPages == numPages && r.value.Ready(rs) && fresh(r.value)
    ensures offs % WORD == 0 ==> WordAligned(rs)
    ensures forall x: nat :: x in rs <==> x < numPages * PAGE && offs + x in reloc
  {
    forall x: nat ensures x in rs <==> x < numPages * PAGE && offs + x in reloc {
      InsideIs(reloc, offs, numPages * PAGE, |reloc|, x);
      assert reloc[..|reloc|] == reloc;
    }
    var nrels := GetNumRels(numPages, offs, reloc);
    var rrp := new RelocPaged(numPages, nrels);
    var ok := rrp.InitRels(offs, reloc, rs);
    InsideShape(reloc, offs, numPages * PAGE, |reloc|);
    if !ok {
      return None;
    }
    return Some(rrp);
  }

  /** Pages come in the order of the relocations. */
  lemma PagesInOrder(rs: seq<nat>, v: nat)
    requires Increasing(rs) && v < |rs|
    ensures forall k :: 0 <= k < v ==> rs[k] / PAGE <= rs[v] / PAGE
    ensures forall k :: v <= k < |rs| ==> rs[k] / PAGE >= rs[v] / PAGE
  {}

  /** The next relocation is in the page, at a word that was not touched yet. */
  lemma RelInPage(rs: seq<nat>, p: nat, start: nat, n: nat)
    requires Increasing(rs) && start <= n < |rs| && rs[n] / PAGE == p && rs[n] % WORD == 0
    ensures rs[n] == PAGE * p + WORD * (rs[n] % PAGE / WORD) && rs[n] % PAGE / WORD < WORDS
    ensures rs[n] !in rs[start..n]
  {}

  lemma WholePage(rs: seq<nat>, p: nat, start: nat, end: nat, image: seq<nat>, off: nat, before: seq<nat>, after: seq<nat>)
    requires start <= end <= |rs| && |image| >= p * WORDS + WORDS && |before| == |after| == WORDS
    requires before == image[p * WORDS..p * WORDS + WORDS]
    requires forall k :: 0 <= k < |rs| && !(start <= k < end) ==> rs[k] / PAGE != p
    requires Patched(before, rs[start..end], PAGE * p, off, after)
    ensures after == Relocated(image, rs, off)[p * WORDS..p * WORDS + WORDS]
  {
    forall w | 0 <= w < WORDS ensures after[w] == Relocated(image, rs, off)[p * WORDS + w] {
      var x := PAGE * p + WORD * w;
      assert x == WORD * (p * WORDS + w) && x / PAGE == p;
      assert x in rs <==> x in rs[start..end];
    }
  }

  /** Later relocations only append. */
  lemma {:induction false} InsidePrefix(reloc: seq<nat>, offs: nat, size: nat, n: nat, m: nat)
    requires n <= m <= |reloc|
    ensures Inside(reloc, offs, size, n) <= Inside(reloc, offs, size, m)
    decreases m
  {
    if m > n {
      InsidePrefix(reloc, offs, size, n, m - 1);
    }
  }
}
