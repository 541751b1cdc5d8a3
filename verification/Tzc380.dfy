/**
 Tiling a memory area with TrustZone controller regions
 (tzc_auto_configure in core/drivers/tzc380.c).  A region has a power-of-two size, a
 base that is a multiple of it, and eight subregions that can be switched off.
 */
module Tzc380 {
  import opened Common

  /** One programmed region: base, size exponent, and the indices of disabled subregions. */
  datatype Region = Region(base: nat, pow: nat, disabled: set<nat>, attr: nat)

  function SubSize(r: Region): nat {
    Pow2(r.pow) / 8
  }

  /** Address x is in an enabled subregion. */
  predicate Covers(r: Region, x: int) {
    r.base <= x < r.base + Pow2(r.pow) && SubSize(r) > 0 && (x - r.base) / SubSize(r) !in r.disabled
  }

  ghost predicate Covered(rs: seq<Region>, x: int) {
    exists i :: 0 <= i < |rs| && Covers(rs[i], x)
  }

  /** The regions cover exactly [lo, hi), no address twice, each base a multiple of the size. */
  ghost predicate Tiles(rs: seq<Region>, lo: nat, hi: nat) {
    && (forall x :: Covered(rs, x) <==> lo <= x < hi)
    && (forall i, j, x :: 0 <= i < j < |rs| && Covers(rs[i], x) ==> !Covers(rs[j], x))
    && (forall i :: 0 <= i < |rs| ==> rs[i].base % Pow2(rs[i].pow) == 0)
  }

  /** A region that covers the next piece extends the tiling. */
  lemma TileMore(rs: seq<Region>, lo: nat, mid: nat, hi: nat, r: Region)
    requires Tiles(rs, lo, mid) && lo <= mid <= hi && r.base % Pow2(r.pow) == 0
    requires forall x :: Covers(r, x) <==> mid <= x < hi
    ensures Tiles(rs + [r], lo, hi)
  {
    var q := rs + [r];
    forall x ensures Covered(q, x) <==> lo <= x < hi {
      if Covered(rs, x) {
        var i :| 0 <= i < |rs| && Covers(rs[i], x);
        assert Covers(q[i], x);
      } else if Covers(r, x) {
        assert Covers(q[|rs|], x);
      }
    }
    forall i, j, x | 0 <= i < j < |q| && Covers(q[i], x) ensures !Covers(q[j], x) {
      assert Covered(rs, x);
    }
  }

  // ----- arithmetic of sizes

  lemma {:induction false} Pow2Eighth(p: nat)
    requires p >= 3
    ensures Pow2(p) == 8 * Pow2(p - 3) && Pow2(p - 3) > 0 && Pow2(p) / 8 == Pow2(p - 3)
  {
    assert Pow2(p) == 2 * Pow2(p - 1) && Pow2(p - 1) == 2 * Pow2(p - 2) && Pow2(p - 2) == 2 * Pow2(p - 3);
  }

  lemma MulOrder(a: nat, b: nat, s: nat)
    ensures a <= b ==> a * s <= b * s
    ensures a < b ==> a * s + s <= b * s
  {
    if a < b {
      MulGap(a, b - a - 1, s);
    }
  }

  lemma MulGap(a: nat, d: nat, s: nat)
    ensures (a + 1 + d) * s == a * s + s + d * s && d * s >= 0
  {}

  lemma Index(d: nat, s: nat, i: nat)
    requires s > 0 && i * s <= d < i * s + s
    ensures d / s == i
  {
    assert d == s * (d / s) + d % s;
    MulOrder(d / s, i, s);
    MulOrder(i, d / s, s);
    assert s * (d / s) == d / s * s;
  }

  /** Two multiples of m differ by at least m. */
  lemma NextMultiple(a: nat, l: nat, m: nat)
    requires m > 0 && a % m == 0 && (a + l) % m == 0 && l > 0
    ensures l >= m
  {
    var p, q := a / m, (a + l) / m;
    assert a == m * p && a + l == m * q;
    assert p < q by {
      if q <= p { MulOrder(q, p, m); }
    }
    MulOrder(p, q, m);
    assert p * m == m * p && q * m == m * q;
  }

  function RoundDown(x: nat, m: nat): nat
    requires m > 0
  {
    x / m * m
  }

  /** An address and the region it lies in: the subregion it starts. */
  lemma Placement(x: nat, s: nat, base: nat) returns (a: nat)
    requires s > 0 && x % s == 0 && base == RoundDown(x, 8 * s)
    ensures x == base + a * s && a < 8 && base % (8 * s) == 0
  {
    var r := x % (8 * s);
    assert x == 8 * s * (x / (8 * s)) + r;
    assert 8 * s * (x / (8 * s)) == base;
    var k := 8 * (x / (8 * s));
    assert base == k * s;
    var n := x / s;
    assert x == s * n;
    assert s * n == n * s;
    assert r == n * s - k * s;
    if n < k { MulOrder(n, k, s); }
    a := n - k;
    assert a * s == n * s - k * s;
    if a >= 8 { MulOrder(8, a, s); }
    assert base == x / (8 * s) * (8 * s);
    MultipleMod(x / (8 * s), 8 * s);
  }

  lemma MultipleMod(q: nat, m: nat)
    requires m > 0
    ensures q * m % m == 0
  {
    Index(q * m, m, q);
    assert q * m == m * (q * m / m) + q * m % m;
  }

  // ----- subregions

  /** The mask has exactly those of the first n subregions that lie outside [a, c). */
  ghost predicate Outside(mask: set<nat>, a: nat, c: nat, n: nat) {
    forall j :: j in mask <==> 0 <= j < n && !(a <= j < c)
  }

  lemma DivBounds(d: nat, s: nat)
    requires s > 0
    ensures d / s * s <= d < d / s * s + s
  {
    assert d == s * (d / s) + d % s;
  }

  lemma DivOrder(d: nat, s: nat, c: nat)
    requires s > 0
    ensures d / s < c <==> d < c * s
  {
    DivBounds(d, s);
    MulOrder(d / s, c, s);
    MulOrder(c, d / s, s);
  }

  /** A region with all subregions but [a, c) disabled covers what these span. */
  lemma CoversSpan(r: Region, s: nat, a: nat, c: nat, x: int)
    requires Pow2(r.pow) == 8 * s && s > 0 && a <= c <= 8 && Outside(r.disabled, a, c, 8)
    ensures Covers(r, x) <==> r.base + a * s <= x < r.base + c * s
  {
    if r.base <= x {
      InSpan(x - r.base, s, a, c);
      DivOrder(x - r.base, s, 8);
    } else {
      MulOrder(0, a, s);
    }
  }

  lemma InSpan(d: nat, s: nat, a: nat, c: nat)
    requires s > 0
    ensures a <= d / s < c <==> a * s <= d < c * s
  {
    DivOrder(d, s, a);
    DivOrder(d, s, c);
  }

  /** The inner loop: disable what lies before the address or beyond the end. */
  method SubMask(base: nat, s: nat, address0: nat, lsize0: nat, ghost a: nat)
    returns (mask: set<nat>, address: nat, lsize: nat, ghost c: nat)
    requires s > 0 && a < 8 && address0 == base + a * s
    ensures a <= c <= 8 && Outside(mask, a, c, 8) && address == base + c * s
    ensures address + lsize == address0 + lsize0 && c == a + Min(8 - a, lsize0 / s)
  {
    mask, address, lsize, c := {}, address0, lsize0, a;
    var i := 0;
    while i < 8
      invariant 0 <= i <= 8 && a <= c <= 8 && address == base + c * s && address + lsize == address0 + lsize0
      invariant i <= a ==> c == a
      invariant i > a ==> c <= i && (c < i ==> lsize < s)
      invariant Outside(mask, a, c, i)
    {
      var area := (i + 1) * s;
      MulOrder(i + 1, c, s);
      MulOrder(c, i + 1, s);
      MulOrder(c, i, s);
      assert area == i * s + s;
      if base + area <= address || base + area > address + lsize {
        mask := mask + {i};
      } else {
        assert c == i;
        address := address + s;
        lsize := lsize - s;
        c := c + 1;
      }
      i := i + 1;
    }
    SpanIs(lsize0, s, a, c, lsize);
  }

  lemma MulDiff(c: nat, a: nat, s: nat)
    requires a <= c
    ensures c * s - a * s == (c - a) * s
  {}

  lemma SpanIs(d: nat, s: nat, a: nat, c: nat, left: nat)
    requires s > 0 && a <= c <= 8 && a < 8 && d == left + c * s - a * s && (c < 8 ==> left < s)
    ensures c == a + Min(8 - a, d / s)
  {
    var n := c - a;
    MulDiff(c, a, s);
    if c < 8 {
      Index(d, s, n);
    } else {
      DivOrder(d, s, n);
    }
  }

  /** The region around an address with what lies outside the area disabled. */
  method PartOf(address: nat, lsize: nat, pow: nat, sub: nat, attr: nat, ghost n: nat)
    returns (r: Region, address2: nat, lsize2: nat)
    requires pow >= 3 && sub == Pow2(pow) / 8 > 0 && address % sub == 0 && n == Span(address, lsize, sub) * sub
    ensures address2 + lsize2 == address + lsize && address2 == address + n
    ensures r.pow == pow && r.attr == attr && r.base % Pow2(pow) == 0
    ensures forall x :: Covers(r, x) <==> address <= x < address2
  {
    Pow2Eighth(pow);
    var base := RoundDown(address, Pow2(pow));
    ghost var a := Placement(address, sub, base);
    ghost var c;
    var mask;
    mask, address2, lsize2, c := SubMask(base, sub, address, lsize, a);
    r := Region(base, pow, mask, attr);
    PartRegion(r, sub, a, c);
    Index(address - base, sub, a);
    MulDiff(c, a, sub);
  }

  // ----- what the loop makes of an area

  /** The case of a region that fits alignment and size. */
  predicate Fits(address: nat, lsize: nat, pow: nat) {
    address % Pow2(pow) == 0 && (address + lsize) % Pow2(pow) == 0
  }

  /** The case of some of the eight subregions. */
  predicate FitsPart(address: nat, lsize: nat, pow: nat)
    requires pow >= 3
  {
    Pow2Eighth(pow);
    address % (Pow2(pow) / 8) == 0 && lsize > 2 * (Pow2(pow) / 8)
  }

  /** How many subregions of size s the area takes from the region its start lies in. */
  function Span(address: nat, lsize: nat, s: nat): (n: nat)
    requires s > 0 && address % s == 0
    ensures n * s <= lsize
  {
    var base := RoundDown(address, 8 * s);
    var a := (address - base) / s;
    SpanBounds(address, lsize, s);
    Min(8 - a, lsize / s)
  }

  lemma SpanBounds(address: nat, lsize: nat, s: nat)
    requires s > 0 && address % s == 0
    ensures var base := RoundDown(address, 8 * s);
      base <= address && (address - base) / s < 8 && forall n: nat :: n <= lsize / s ==> n * s <= lsize
  {
    var base := RoundDown(address, 8 * s);
    var a := Placement(address, s, base);
    Index(address - base, s, a);
    DivBounds(lsize, s);
    forall n: nat | n <= lsize / s ensures n * s <= lsize {
      MulOrder(n, lsize / s, s);
    }
  }

  /** What is left over in the end, and the number of regions used. */
  datatype Plan = Plan(left: nat, count: nat)

  function PlanOf(address: nat, lsize: nat, pow: nat): Plan
    decreases pow
  {
    if lsize == 0 || pow <= 15 then Plan(lsize, 0)
    else if Fits(address, lsize, pow) then
      NextMultiple(address, lsize, Pow2(pow));
      var p := PlanOf(address + Pow2(pow), lsize - Pow2(pow), pow - 1);
      Plan(p.left, 1 + p.count)
    else if FitsPart(address, lsize, pow) then
      Pow2Eighth(pow);
      var s := Pow2(pow) / 8;
      var n := Span(address, lsize, s) * s;
      var p := PlanOf(address + n, lsize - n, pow - 1);
      Plan(p.left, 1 + p.count)
    else PlanOf(address, lsize, pow - 1)
  }

  lemma PlanWhole(address: nat, lsize: nat, pow: nat)
    requires lsize > 0 && pow > 15 && Fits(address, lsize, pow)
    ensures lsize >= Pow2(pow)
    ensures var p := PlanOf(address + Pow2(pow), lsize - Pow2(pow), pow - 1); PlanOf(address, lsize, pow) == Plan(p.left, 1 + p.count)
  {
    NextMultiple(address, lsize, Pow2(pow));
  }

  lemma PlanPart(address: nat, lsize: nat, pow: nat, s: nat, n: nat)
    requires lsize > 0 && pow > 15 && !Fits(address, lsize, pow) && FitsPart(address, lsize, pow) && s == Pow2(pow) / 8 > 0
    requires n == Span(address, lsize, s) * s
    ensures n <= lsize
    ensures var p := PlanOf(address + n, lsize - n, pow - 1); PlanOf(address, lsize, pow) == Plan(p.left, 1 + p.count)
  {}

  lemma PlanSkip(address: nat, lsize: nat, pow: nat)
    requires lsize > 0 && pow > 15 && !Fits(address, lsize, pow) && !FitsPart(address, lsize, pow)
    ensures PlanOf(address, lsize, pow) == PlanOf(address, lsize, pow - 1)
  {}

  /** The value of the call: the next free region, or None for a failed assertion. */
  function Outcome(p: Plan, region: nat, numRegions: nat): Option<nat> {
    if p.left == 0 && (p.count == 0 || region + p.count <= numRegions) then Some(region + p.count) else None
  }

  lemma {:induction false} Pow2Multiple(p: nat, q: nat) returns (k: nat)
    requires p <= q
    ensures Pow2(q) == k * Pow2(p) && k >= 1 && (p < q ==> k >= 2)
  {
    if p == q {
      k := 1;
    } else {
      var j := Pow2Multiple(p, q - 1);
      k := 2 * j;
      assert Pow2(q) == 2 * Pow2(q - 1) && 2 * (j * Pow2(p)) == (2 * j) * Pow2(p);
    }
  }

  lemma Pow2Grows(p: nat, q: nat)
    requires p <= q
    ensures Pow2(p) <= Pow2(q) && (p < q ==> 2 * Pow2(p) <= Pow2(q))
  {
    var k := Pow2Multiple(p, q);
    MulOrder(1, k, Pow2(p));
    if p < q { MulOrder(2, k, Pow2(p)); }
  }

  /** Nothing is programmed for an area of up to two subregions of the smallest region. */
  lemma {:induction false} SmallIsLeft(address: nat, lsize: nat, pow: nat, k: nat)
    requires k == 13 && 0 < lsize <= 2 * Pow2(k)
    ensures PlanOf(address, lsize, pow) == Plan(lsize, 0)
    decreases pow
  {
    if pow > 15 {
      Pow2Eighth(pow);
      Pow2Grows(k, pow - 3);
      if Fits(address, lsize, pow) {
        NextMultiple(address, lsize, Pow2(pow));
        assert false;
      }
      SmallIsLeft(address, lsize, pow - 1, k);
    }
  }

  /** An aligned power of two takes one region: itself, or half of the next larger one. */
  lemma {:induction false} AlignedFits(address: nat, p: nat, pow: nat)
    requires 15 <= p <= pow && 15 < pow && address % Pow2(p) == 0
    ensures PlanOf(address, Pow2(p), pow) == Plan(0, 1)
    decreases pow
  {
    var size := Pow2(p);
    if pow == p {
      FitsWhole(address, p);
    } else if pow == p + 1 {
      NotWhole(address, p, pow);
      HalfRegion(address, p);
    } else {
      NotWhole(address, p, pow);
      Pow2Eighth(pow);
      Pow2Grows(p, pow - 1);
      assert Pow2(pow - 1) == 2 * Pow2(pow - 2) && Pow2(pow - 2) == 2 * Pow2(pow - 3);
      Pow2Grows(p - 1, pow - 3);
      assert Pow2(p) == 2 * Pow2(p - 1);
      AlignedFits(address, p, pow - 1);
    }
  }

  lemma FitsWhole(address: nat, p: nat)
    requires 15 < p && address % Pow2(p) == 0
    ensures PlanOf(address, Pow2(p), p) == Plan(0, 1)
  {
    AddMultiple(address, Pow2(p));
    PlanWhole(address, Pow2(p), p);
    assert PlanOf(address + Pow2(p), 0, p - 1) == Plan(0, 0);
  }

  lemma AddMultiple(x: nat, m: nat)
    requires m > 0 && x % m == 0
    ensures (x + m) % m == 0
  {
    var q := x / m;
    assert x == m * q;
    MultipleMod(q + 1, m);
    assert (q + 1) * m == m * q + m;
  }

  lemma NotWhole(address: nat, p: nat, pow: nat)
    requires p < pow
    ensures !Fits(address, Pow2(p), pow)
  {
    Pow2Grows(p, pow);
    if Fits(address, Pow2(p), pow) {
      NextMultiple(address, Pow2(p), Pow2(pow));
    }
  }

  /** In a region twice its size the area is the lower or the upper four subregions. */
  lemma HalfRegion(address: nat, p: nat)
    requires 15 <= p && address % Pow2(p) == 0 && !Fits(address, Pow2(p), p + 1)
    ensures PlanOf(address, Pow2(p), p + 1) == Plan(0, 1)
  {
    Pow2Eighth(p + 1);
    var s := Pow2(p + 1) / 8;
    assert Pow2(p) == 4 * s;
    HalfSpan(address, s);
    assert PlanOf(address + 4 * s, 0, p) == Plan(0, 0);
  }

  lemma HalfSpan(address: nat, s: nat)
    requires s > 0 && address % (4 * s) == 0
    ensures address % s == 0 && Span(address, 4 * s, s) == 4
  {
    var q := address / (4 * s);
    assert address == 4 * s * q;
    assert address == (4 * q) * s;
    MultipleMod(4 * q, s);
    var base := RoundDown(address, 8 * s);
    HalfBase(q, s);
    Index(address - base, s, if q % 2 == 0 then 0 else 4);
    Index(4 * s, s, 4);
  }

  lemma EightTimes(q: nat, h: nat, s: nat)
    requires h == q / 2
    ensures (4 * q) * s == h * (8 * s) + if q % 2 == 0 then 0 else 4 * s
  {
    if q % 2 == 0 { EvenTimes(q, h, s); } else { OddTimes(q, h, s); }
  }

  lemma EvenTimes(q: nat, h: nat, s: nat)
    requires q == 2 * h
    ensures (4 * q) * s == h * (8 * s)
  {}

  lemma OddTimes(q: nat, h: nat, s: nat)
    requires q == 2 * h + 1
    ensures (4 * q) * s == h * (8 * s) + 4 * s
  {}

  lemma HalfBase(q: nat, s: nat)
    requires s > 0
    ensures RoundDown((4 * q) * s, 8 * s) == (4 * q) * s - if q % 2 == 0 then 0 else 4 * s
  {
    var h := q / 2;
    EightTimes(q, h, s);
    Index((4 * q) * s, 8 * s, h);
  }

  // ----- the controller

  class Controller {
    const addrWidth: nat
    const numRegions: nat
    var regs: map<nat, Region>

    constructor (width: nat, regions: nat)
      ensures addrWidth == width && numRegions == regions && regs == map[]
    {
      addrWidth, numRegions, regs := width, regions, map[];
    }

    /** The regions from first on hold rs, except region 0, and no other register differs from before. */
    ghost predicate Programmed(before: map<nat, Region>, first: nat, rs: seq<Region>)
      reads this
    {
      && (forall k :: first <= k < first + |rs| && k > 0 ==> k in regs && regs[k] == rs[k - first])
      && (forall k :: k < first || k >= first + |rs| || k == 0 ==>
            (k in regs <==> k in before) && (k in regs ==> regs[k] == before[k]))
    }

    /** False stands for the assertion on the number of regions; the address of region 0 is fixed. */
    method Configure(k: nat, r: Region) returns (ok: bool)
      modifies this
      ensures ok <==> k < numRegions
      ensures regs == if ok && k > 0 then old(regs)[k := r] else old(regs)
    {
      if k >= numRegions {
        return false;
      }
      if k > 0 {
        regs := regs[k := r];
      }
      return true;
    }

    /** Program the next region of a tiling. */
    method Extend(k: nat, r: Region, ghost before: map<nat, Region>, ghost first: nat, ghost rs: seq<Region>,
                  ghost lo: nat, ghost mid: nat, ghost hi: nat) returns (ok: bool)
      requires k == first + |rs| && Programmed(before, first, rs) && Tiles(rs, lo, mid) && lo <= mid <= hi
      requires r.base % Pow2(r.pow) == 0 && forall x :: Covers(r, x) <==> mid <= x < hi
      modifies this
      ensures ok <==> k < numRegions
      ensures ok ==> Programmed(before, first, rs + [r]) && Tiles(rs + [r], lo, hi)
    {
      TileMore(rs, lo, mid, hi, r);
      ok := Configure(k, r);
    }

    /** The case of a region that fits alignment and size. */
    method CoverWhole(k: nat, address: nat, pow: nat, attr: nat, ghost before: map<nat, Region>, ghost first: nat,
                      ghost rs: seq<Region>, ghost lo: nat) returns (ok: bool, ghost r: Region)
      requires k == first + |rs| && Programmed(before, first, rs) && Tiles(rs, lo, address) && lo <= address
      requires pow >= 3 && address % Pow2(pow) == 0
      modifies this
      ensures ok <==> k < numRegions
      ensures ok ==> Programmed(before, first, rs + [r]) && Tiles(rs + [r], lo, address + Pow2(pow))
      ensures r.pow == pow && r.attr == attr
    {
      var q := Region(address, pow, {}, attr);
      r := q;
      Pow2Eighth(pow);
      WholeRegion(r, Pow2(pow) / 8);
      ok := Extend(k, q, before, first, rs, lo, address, address + Pow2(pow));
    }

    /** The case of some of the eight subregions. */
    method CoverPart(k: nat, address: nat, lsize: nat, pow: nat, attr: nat, ghost before: map<nat, Region>, ghost first: nat,
                     ghost rs: seq<Region>, ghost lo: nat, ghost n: nat)
      returns (ok: bool, address2: nat, lsize2: nat, ghost r: Region)
      requires k == first + |rs| && Programmed(before, first, rs) && Tiles(rs, lo, address) && lo <= address
      requires pow >= 3 && Pow2(pow) / 8 > 0 && address % (Pow2(pow) / 8) == 0
      requires n == Span(address, lsize, Pow2(pow) / 8) * (Pow2(pow) / 8)
      modifies this
      ensures ok <==> k < numRegions
      ensures address2 + lsize2 == address + lsize && address2 == address + n
      ensures ok ==> Programmed(before, first, rs + [r]) && Tiles(rs + [r], lo, address2)
      ensures r.pow == pow && r.attr == attr
    {
      var q;
      q, address2, lsize2 := PartOf(address, lsize, pow, Pow2(pow) / 8, attr, n);
      r := q;
      ok := Extend(k, q, before, first, rs, lo, address, address2);
    }

    /** The regions programmed so far: a tiling from lo to here, all of this attribute and of an allowed size. */
    ghost predicate Done(before: map<nat, Region>, first: nat, rs: seq<Region>, lo: nat, here: nat, attr: nat)
      reads this
    {
      && lo <= here && Programmed(before, first, rs) && Tiles(rs, lo, here)
      && (rs != [] ==> first + |rs| <= numRegions)
      && forall i :: 0 <= i < |rs| ==> rs[i].attr == attr && 15 < rs[i].pow <= addrWidth
    }

    /** One round of the loop; a failure is that of the assertion on the number of regions. */
    method Round(k: nat, address: nat, lsize: nat, pow: nat, attr: nat, ghost before: map<nat, Region>, ghost first: nat,
                 ghost rs: seq<Region>, ghost lo: nat) returns (ok: bool, k2: nat, address2: nat, lsize2: nat, ghost rs2: seq<Region>)
      requires k == first + |rs| && 15 < pow <= addrWidth && lsize > 0 && Done(before, first, rs, lo, address, attr)
      modifies this
      ensures var p, q := PlanOf(address, lsize, pow), PlanOf(address2, lsize2, pow - 1);
        if ok then p.left == q.left && |rs| + p.count == |rs2| + q.count else p.count > 0 && k >= numRegions
      ensures ok ==> k2 == first + |rs2| && address2 + lsize2 == address + lsize && Done(before, first, rs2, lo, address2, attr)
    {
      Pow2Eighth(pow);
      var sub := Pow2(pow) / 8;
      if address % Pow2(pow) == 0 && (address + lsize) % Pow2(pow) == 0 {
        PlanWhole(address, lsize, pow);
        ghost var r;
        ok, r := CoverWhole(k, address, pow, attr, before, first, rs, lo);
        k2, address2, lsize2, rs2 := k + 1, address + Pow2(pow), lsize - Pow2(pow), rs + [r];
      } else {
        ok, k2, address2, lsize2, rs2 := RoundPart(k, address, lsize, pow, sub, attr, before, first, rs, lo);
      }
    }

    method RoundPart(k: nat, address: nat, lsize: nat, pow: nat, sub: nat, attr: nat, ghost before: map<nat, Region>, ghost first: nat,
                     ghost rs: seq<Region>, ghost lo: nat) returns (ok: bool, k2: nat, address2: nat, lsize2: nat, ghost rs2: seq<Region>)
      requires k == first + |rs| && 15 < pow <= addrWidth && lsize > 0 && Done(before, first, rs, lo, address, attr)
      requires sub == Pow2(pow) / 8 > 0 && !Fits(address, lsize, pow)
      modifies this
      ensures var p, q := PlanOf(address, lsize, pow), PlanOf(address2, lsize2, pow - 1);
        if ok then p.left == q.left && |rs| + p.count == |rs2| + q.count else p.count > 0 && k >= numRegions
      ensures ok ==> k2 == first + |rs2| && address2 + lsize2 == address + lsize && Done(before, first, rs2, lo, address2, attr)
    {
      if address % sub == 0 && lsize > 2 * sub {
        ghost var n, r := Span(address, lsize, sub) * sub, Region(0, 0, {}, 0);
        PlanPart(address, lsize, pow, sub, n);
        ok, address2, lsize2, r := CoverPart(k, address, lsize, pow, attr, before, first, rs, lo, n);
        k2, rs2 := k + 1, rs + [r];
      } else {
        PlanSkip(address, lsize, pow);
        ok, k2, address2, lsize2, rs2 := true, k, address, lsize, rs;
      }
    }

    /**
     Some(n) when the final assertions pass: the regions from the given one up to n
     then cover exactly the area.  None stands for a failed assertion.
     */
    method AutoConfigure(addr: nat, size: nat, attr: nat, region: nat) returns (next: Option<nat>, ghost rs: seq<Region>)
      modifies this
      ensures next.Some? ==> next.value == region + |rs| && Programmed(old(regs), region, rs) && Tiles(rs, addr, addr + size)
      ensures forall i :: 0 <= i < |rs| ==> rs[i].attr == attr && 15 < rs[i].pow <= addrWidth
      ensures next == Outcome(PlanOf(addr, size, addrWidth), region, numRegions)
    {
      rs := [];
      ghost var before, plan := regs, PlanOf(addr, size, addrWidth);
      var lregion: nat, address: nat, lsize: nat, pow: nat, ok := region, addr, size, addrWidth, true;
      while lsize != 0 && pow > 15
        invariant address + lsize == addr + size && lregion == region + |rs| && pow <= addrWidth
        invariant plan.left == PlanOf(address, lsize, pow).left && plan.count == |rs| + PlanOf(address, lsize, pow).count
        invariant Done(before, region, rs, addr, address, attr)
        decreases pow
      {
        ghost var done := rs;
        ok, lregion, address, lsize, rs := Round(lregion, address, lsize, pow, attr, before, region, rs, addr);
        if !ok {
          return None, done;
        }
        pow := pow - 1;
      }
      if lsize != 0 || address != addr + size {
        return None, rs;
      }
      return Some(lregion), rs;
    }
  }

  lemma WholeRegion(r: Region, s: nat)
    requires Pow2(r.pow) == 8 * s && s > 0 && r.disabled == {}
    ensures forall x :: Covers(r, x) <==> r.base <= x < r.base + Pow2(r.pow)
  {}

  lemma PartRegion(r: Region, s: nat, a: nat, c: nat)
    requires Pow2(r.pow) == 8 * s && s > 0 && a <= c <= 8 && Outside(r.disabled, a, c, 8)
    ensures forall x :: Covers(r, x) <==> r.base + a * s <= x < r.base + c * s
  {
    forall x ensures Covers(r, x) <==> r.base + a * s <= x < r.base + c * s {
      CoversSpan(r, s, a, c, x);
    }
  }
}
