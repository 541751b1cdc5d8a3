/**
 GHASH multiplication with Shoup's 4-bit tables
 (core/crypto/aes-gcm-ghash-tbl.c): table generation, the last4 reduction table,
 and the nibble-wise product.  It equals the bitwise product for every key and
 every operand.
 */
module GhashTable {
  import opened GfAlgebra
  import opened Gf128
  import opened Ghash

  // ----- nibbles as elements

  /** i seen as an element: its bits are the first four coefficients. */
  function Nib(i: nat): Elem
    requires i < 16
  {
    Elem((i as bv64) << 60, 0)
  }

  /** Entry i of the table for h: i times h. */
  function Entry(h: Elem, i: nat): Elem
    requires i < 16
  {
    Partial(GF, Nib(i), h, NibbleBits())
  }

  function NibbleBits(): nat {
    4
  }

  lemma NibFacts()
    ensures Nib(0) == ZERO && Nib(8) == ONE
    ensures Shl(Nib(8)) == ZERO && Shl(Nib(4)) == Nib(8) && Shl(Nib(2)) == Nib(4) && Shl(Nib(1)) == Nib(2)
    ensures Top(Nib(8)) && !Top(Nib(4)) && !Top(Nib(2)) && !Top(Nib(1)) && !Top(ZERO)
  {}

  /** 8 is one, and halving the index multiplies by P. */
  lemma EntryPowers(h: Elem)
    ensures Entry(h, 0) == ZERO && Entry(h, 8) == h && Entry(h, 4) == MulX(h)
    ensures Entry(h, 2) == MulX(MulX(h)) && Entry(h, 1) == MulX(MulX(MulX(h)))
  {
    GfLawful();
    NibFacts();
    LeftZero(h, 4);
    EntryEight(h, 3);
    EntryEight(MulX(h), 2);
    EntryEight(MulX(MulX(h)), 1);
    EntryEight(MulX(MulX(MulX(h))), 0);
    EntryShift(Nib(4), h, 3);
    EntryShift(Nib(2), h, 3);
    EntryShift(Nib(4), MulX(h), 2);
    EntryShift(Nib(1), h, 3);
    EntryShift(Nib(2), MulX(h), 2);
    EntryShift(Nib(4), MulX(MulX(h)), 1);
  }

  lemma {:induction false} LeftZero(y: Elem, n: nat)
    ensures Partial(GF, ZERO, y, n) == ZERO
    decreases n
  {
    GfLawful();
    ZeroFacts(GF, ZERO);
    if n > 0 { LeftZero(MulX(y), n - 1); }
  }

  lemma EntryEight(h: Elem, n: nat)
    ensures Partial(GF, Nib(8), h, n + 1) == h
  {
    GfLawful();
    NibFacts();
    PartialStep(GF, Nib(8), h, n);
    LeftZero(MulX(h), n);
    ZeroFacts(GF, h);
  }

  lemma EntryShift(x: Elem, h: Elem, n: nat)
    requires !Top(x)
    ensures Partial(GF, x, h, n + 1) == Partial(GF, Shl(x), MulX(h), n)
  {
    GfLawful();
    PartialStep(GF, x, h, n);
    ZeroFacts(GF, Partial(GF, Shl(x), MulX(h), n));
  }

  lemma NibSum(i: nat, j: nat)
    requires (i == 2 || i == 4 || i == 8) && j < i
    ensures Nib(i + j) == Xor(Nib(i), Nib(j))
  {
    if i == 2 { NibSum2(j); } else if i == 4 { NibSum4(j); } else { NibSum8(j); }
  }

  lemma NibSum2(j: nat)
    requires j < 2
    ensures Nib(2 + j) == Xor(Nib(2), Nib(j))
  {
    NibWordSum2(j);
    XFacts(0, 0);
  }

  lemma NibSum4(j: nat)
    requires j < 4
    ensures Nib(4 + j) == Xor(Nib(4), Nib(j))
  {
    NibWordSum4(j);
    XFacts(0, 0);
  }

  lemma NibSum8(j: nat)
    requires j < 8
    ensures Nib(8 + j) == Xor(Nib(8), Nib(j))
  {
    NibWordSum8(j);
    XFacts(0, 0);
  }

  lemma NibWordSum2(j: nat)
    requires j < 2
    ensures ((2 + j) as bv64) << 60 == X((2 as bv64) << 60, (j as bv64) << 60)
  {
    if j == 0 {} else {}
  }

  lemma NibWordSum4(j: nat)
    requires j < 4
    ensures ((4 + j) as bv64) << 60 == X((4 as bv64) << 60, (j as bv64) << 60)
  {
    if j == 0 {} else if j == 1 {} else if j == 2 {} else {}
  }

  lemma NibWordSum8(j: nat)
    requires j < 8
    ensures ((8 + j) as bv64) << 60 == X((8 as bv64) << 60, (j as bv64) << 60)
  {
    if j == 0 {} else if j == 1 {} else if j == 2 {} else if j == 3 {}
    else if j == 4 {} else if j == 5 {} else if j == 6 {} else {}
  }

  lemma EntrySum(h: Elem, i: nat, j: nat)
    requires (i == 2 || i == 4 || i == 8) && j < i
    ensures Entry(h, i + j) == Xor(Entry(h, i), Entry(h, j))
  {
    GfLawful();
    NibSum(i, j);
    LinearLeft(GF, Nib(i), Nib(j), h, 4);
  }

  /** What the generator relies on: the powers, and sums for the other indices. */
  ghost predicate TableLaws(h: Elem, t: seq<Elem>) {
    && |t| == 16
    && t[0] == ZERO && t[8] == h && t[4] == MulX(t[8]) && t[2] == MulX(t[4]) && t[1] == MulX(t[2])
    && (forall i, j {:trigger SumAt(t, i, j)} :: (i == 2 || i == 4 || i == 8) && 0 <= j < i ==> SumAt(t, i, j))
  }

  ghost predicate SumAt(t: seq<Elem>, i: nat, j: nat)
    requires i + j < |t|
  {
    t[i + j] == Xor(t[i], t[j])
  }

  /** The table for h: entry i is i times h. */
  ghost function Entries(h: Elem): (t: seq<Elem>)
    ensures |t| == 16 && forall i :: 0 <= i < 16 ==> t[i] == Entry(h, i)
  {
    seq(16, i requires 0 <= i < 16 => Entry(h, i))
  }

  lemma EntriesLaws(h: Elem)
    ensures TableLaws(h, Entries(h))
  {
    var t := Entries(h);
    EntryPowers(h);
    forall i, j | (i == 2 || i == 4 || i == 8) && 0 <= j < i ensures SumAt(t, i, j) {
      EntrySum(h, i, j);
    }
  }

  // ----- last4: four steps of reduction at once

  const LAST4: seq<bv64> := [
    0x0000, 0x1c20, 0x3840, 0x2460,
    0x7080, 0x6ca0, 0x48c0, 0x54e0,
    0xe100, 0xfd20, 0xd940, 0xc560,
    0x9180, 0x8da0, 0xa9c0, 0xb5e0
  ]

  function Rem(l: bv64): (r: nat)
    ensures r < 16
  {
    (l & 0xf) as nat
  }

  function Down4(h: bv64): bv64 {
    h >> 4
  }

  function Fold4(l: bv64): bv64 {
    LAST4[Rem(l)] << 48
  }

  function Carry4(h: bv64, l: bv64): bv64 {
    (h << 60) | (l >> 4)
  }

  function ClearLow(l: bv64): bv64 {
    l & 0xffff_ffff_ffff_fff0
  }

  function KeepLow(l: bv64): bv64 {
    l & 0xf
  }

  /** Shift by four and fold the coefficients that fall off back in through the table. */
  function Shift4(z: Elem): Elem {
    Elem(X(Down4(z.hi), Fold4(z.lo)), Carry4(z.hi, z.lo))
  }

  lemma SplitWord(l: bv64)
    ensures X(ClearLow(l), KeepLow(l)) == l
  {}

  lemma SplitLow(z: Elem)
    ensures z == Xor(Elem(z.hi, ClearLow(z.lo)), Elem(0, KeepLow(z.lo)))
  {
    SplitWord(z.lo);
    XFacts(z.hi, 0);
  }

  lemma MulX4Clean(h: bv64, l: bv64)
    ensures MulX(MulX(MulX(MulX(Elem(h, ClearLow(l)))))) == Elem(Down4(h), Carry4(h, l))
  {}

  lemma MulX4Low(l: bv64)
    ensures MulX(MulX(MulX(MulX(Elem(0, KeepLow(l)))))) == Elem(Fold4(l), 0)
  {
    var k := KeepLow(l);
    if k < 4 { MulX4Low0(l); } else if k < 8 { MulX4Low4(l); } else if k < 12 { MulX4Low8(l); } else { MulX4Low12(l); }
  }

  lemma MulX4Low0(l: bv64)
    requires KeepLow(l) < 4
    ensures MulX(MulX(MulX(MulX(Elem(0, KeepLow(l)))))) == Elem(Fold4(l), 0)
  {
    var k := KeepLow(l);
    if k == 0 {} else if k == 1 {} else if k == 2 {} else { assert k == 3; }
  }

  lemma MulX4Low4(l: bv64)
    requires 4 <= KeepLow(l) < 8
    ensures MulX(MulX(MulX(MulX(Elem(0, KeepLow(l)))))) == Elem(Fold4(l), 0)
  {
    var k := KeepLow(l);
    if k == 4 {} else if k == 5 {} else if k == 6 {} else { assert k == 7; }
  }

  lemma MulX4Low8(l: bv64)
    requires 8 <= KeepLow(l) < 12
    ensures MulX(MulX(MulX(MulX(Elem(0, KeepLow(l)))))) == Elem(Fold4(l), 0)
  {
    var k := KeepLow(l);
    if k == 8 {} else if k == 9 {} else if k == 10 {} else { assert k == 11; }
  }

  lemma MulX4Low12(l: bv64)
    requires 12 <= KeepLow(l)
    ensures MulX(MulX(MulX(MulX(Elem(0, KeepLow(l)))))) == Elem(Fold4(l), 0)
  {
    var k := KeepLow(l);
    if k == 12 {} else if k == 13 {} else if k == 14 {} else { assert k == 15; }
  }

  lemma MulX4Sum(a: Elem, b: Elem)
    ensures MulX(MulX(MulX(MulX(Xor(a, b))))) == Xor(MulX(MulX(MulX(MulX(a)))), MulX(MulX(MulX(MulX(b)))))
  {
    MulXLinear(a, b);
    MulXLinear(MulX(a), MulX(b));
    MulXLinear(MulX(MulX(a)), MulX(MulX(b)));
    MulXLinear(MulX(MulX(MulX(a))), MulX(MulX(MulX(b))));
  }

  lemma Shift4IsMulX4(z: Elem)
    ensures Shift4(z) == MulX(MulX(MulX(MulX(z))))
  {
    SplitLow(z);
    MulX4Sum(Elem(z.hi, ClearLow(z.lo)), Elem(0, KeepLow(z.lo)));
    MulX4Clean(z.hi, z.lo);
    MulX4Low(z.lo);
    XFacts(Carry4(z.hi, z.lo), 0);
  }

  // ----- reading nibbles of the operand

  function LoNib(b: bv8): (r: nat)
    ensures r < 16
  {
    (b & 0xf) as nat
  }

  function HiNib(b: bv8): (r: nat)
    ensures r < 16
  {
    (b >> 4) as nat
  }

  lemma HiWord(b: bv8)
    ensures Nib(HiNib(b)).hi == ((b >> 4) as bv64) << 60
  {}

  lemma LoWord(b: bv8)
    ensures Nib(LoNib(b)).hi == ((b & 0xf) as bv64) << 60
  {}

  lemma HiBits(b: bv8, r: nat)
    requires r < 4
    ensures HiBit(Nib(HiNib(b)).hi, r) <==> ByteBit(b, r)
  {
    HiWord(b);
    if r == 0 {} else if r == 1 {} else if r == 2 {} else {}
  }

  lemma LoBits(b: bv8, r: nat)
    requires r < 4
    ensures HiBit(Nib(LoNib(b)).hi, r) <==> ByteBit(b, 4 + r)
  {
    LoWord(b);
    if r == 0 {} else if r == 1 {} else if r == 2 {} else {}
  }

  lemma HiTops(c: Bytes, r: nat)
    requires |c| == 16 && r < 4
    ensures Top(Drop(GF, Load(c), r)) == Top(Drop(GF, Nib(HiNib(c[0])), r))
  {
    HiBits(c[0], r);
    FirstByteTop(c, r);
    TopAfterDrop(Nib(HiNib(c[0])), r);
  }

  lemma LoTops(c: Bytes, r: nat, n: nat)
    requires |c| == 16 && r < n && n == 4
    ensures Top(Drop(GF, Drop(GF, Load(c), n), r)) == Top(Drop(GF, Nib(LoNib(c[0])), r))
  {
    LoBits(c[0], r);
    FirstByteTop(c, n + r);
    DropSplit(Load(c), n, r);
    TopAfterDrop(Nib(LoNib(c[0])), r);
  }

  /** The four coefficients at a byte boundary select a table entry. */
  lemma HiEntry(h: Elem, x: Bytes, i: nat, n: nat)
    requires |x| == 16 && i < 16 && n == 4
    ensures Partial(GF, Drop(GF, Load(x), 8 * i), h, n) == Partial(GF, Nib(HiNib(x[i])), h, n)
  {
    var c := Tail(x, i);
    DropBytes(x, i);
    assert c[0] == x[i];
    forall r: nat | r < n ensures Top(Drop(GF, Load(c), r)) == Top(Drop(GF, Nib(HiNib(x[i])), r)) {
      HiTops(c, r);
    }
    PartialReads(GF, Load(c), Nib(HiNib(x[i])), h, n);
  }

  /** And so do the four after them. */
  lemma LoEntry(h: Elem, x: Bytes, i: nat, n: nat)
    requires |x| == 16 && i < 16 && n == 4
    ensures Partial(GF, Drop(GF, Load(x), 8 * i + n), h, n) == Partial(GF, Nib(LoNib(x[i])), h, n)
  {
    var c := Tail(x, i);
    assert Drop(GF, Load(x), 8 * i + n) == Drop(GF, Load(c), n) by { TailDrop(x, i, n); }
    assert c[0] == x[i];
    LowNibble(h, c, n);
  }

  lemma TailDrop(x: Bytes, i: nat, n: nat)
    requires |x| == 16 && i < 16
    ensures Drop(GF, Load(x), 8 * i + n) == Drop(GF, Load(Tail(x, i)), n)
  {
    DropBytes(x, i);
    DropSplit(Load(x), 8 * i, n);
  }

  lemma LowNibble(h: Elem, c: Bytes, n: nat)
    requires |c| == 16 && n == 4
    ensures Partial(GF, Drop(GF, Load(c), n), h, n) == Partial(GF, Nib(LoNib(c[0])), h, n)
  {
    var d, e := Drop(GF, Load(c), n), Nib(LoNib(c[0]));
    forall r: nat | r < n ensures Top(Drop(GF, d, r)) == Top(Drop(GF, e, r)) {
      LoTops(c, r, n);
    }
    PartialReads(GF, d, e, h, n);
  }

  /** The product of h with the coefficients of x from position p on. */
  ghost function Acc(x: Bytes, h: Elem, p: nat): Elem
    requires |x| == 16 && p <= 128
  {
    Partial(GF, Drop(GF, Load(x), p), h, 128 - p)
  }

  /** One nibble of the product: shift by four, add the table entry. */
  lemma NibbleStep(x: Bytes, h: Elem, p: nat, k: nat)
    requires |x| == 16 && k == 4 && p + k <= 128
    ensures Xor(Partial(GF, Drop(GF, Load(x), p), h, k), Shift4(Acc(x, h, p + k))) == Acc(x, h, p)
  {
    GfLawful();
    var z := Acc(x, h, p + k);
    DropSplit(Load(x), p, k);
    Horner(GF, Drop(GF, Load(x), p), h, k, 128 - (p + k));
    Shift4IsMulX4(z);
    MulXFour(z, k);
  }

  lemma LoStep(h: Elem, x: Bytes, i: nat, k: nat)
    requires |x| == 16 && i < 16 && k == 4
    ensures Xor(Entry(h, LoNib(x[i])), Shift4(Acc(x, h, 8 * i + k + k))) == Acc(x, h, 8 * i + k)
  {
    LoEntry(h, x, i, k);
    NibbleStep(x, h, 8 * i + k, k);
  }

  lemma HiStep(h: Elem, x: Bytes, i: nat, k: nat)
    requires |x| == 16 && i < 16 && k == 4
    ensures Xor(Entry(h, HiNib(x[i])), Shift4(Acc(x, h, 8 * i + k))) == Acc(x, h, 8 * i)
  {
    HiEntry(h, x, i, k);
    NibbleStep(x, h, 8 * i, k);
  }

  lemma LastNibble(h: Elem, x: Bytes, i: nat, k: nat)
    requires |x| == 16 && i == 15 && k == 4
    ensures Entry(h, LoNib(x[i])) == Acc(x, h, 8 * i + k)
  {
    LoEntry(h, x, i, k);
    assert 128 - (8 * i + k) == k;
  }

  lemma MulXFour(z: Elem, k: nat)
    requires k == 4
    ensures MulXn(GF, z, k) == MulX(MulX(MulX(MulX(z))))
  {
    assert MulXn(GF, z, 2) == MulX(MulX(z));
    assert MulXn(GF, z, 4) == MulX(MulX(MulXn(GF, z, 2)));
  }

  // ----- internal_aes_gcm_ghash_gen_tbl

  class GhashKey {
    const HL: array<bv64>
    const HH: array<bv64>

    constructor ()
      ensures Valid() && fresh(HL) && fresh(HH)
    {
      HL := new bv64[16];
      HH := new bv64[16];
      new;
    }

    ghost predicate Valid() {
      HL.Length == 16 && HH.Length == 16 && HL != HH
    }

    function At(i: nat): Elem
      requires HL.Length == 16 && HH.Length == 16 && i < 16
      reads HL, HH
    {
      Elem(HH[i], HL[i])
    }

    /** The first n entries are those of t. */
    ghost predicate Filled(t: seq<Elem>, n: nat)
      requires Valid() && |t| == 16 && n <= 16
      reads HL, HH
    {
      forall i :: 0 <= i < n ==> At(i) == t[i]
    }

    method Set(i: nat, v: Elem)
      requires Valid() && i < 16
      modifies HL, HH
      ensures At(i) == v && forall j :: 0 <= j < 16 && j != i ==> At(j) == old(At(j))
    {
      HL[i] := v.lo;
      HH[i] := v.hi;
    }

    /** Entries 0, 8, 4, 2, 1. */
    method FillPowers(h: Elem, ghost t: seq<Elem>)
      requires Valid() && TableLaws(h, t)
      modifies HL, HH
      ensures At(0) == t[0] && At(1) == t[1] && At(2) == t[2] && At(4) == t[4] && At(8) == t[8]
    {
      var v := h;
      Set(8, v);
      Set(0, ZERO);
      var i := 4;
      while i > 0
        invariant i == 4 || i == 2 || i == 1 || i == 0
        invariant At(8) == t[8] && At(0) == t[0]
        invariant i < 4 ==> At(4) == t[4]
        invariant i < 2 ==> At(2) == t[2]
        invariant i < 1 ==> At(1) == t[1]
        invariant (i == 4 ==> v == t[8]) && (i == 2 ==> v == t[4]) && (i == 1 ==> v == t[2])
      {
        v := MulX(v);
        Set(i, v);
        i := i / 2;
      }
    }

    /** Entries i+1 .. 2i-1 as sums. */
    method FillSums(i: nat, ghost h: Elem, ghost t: seq<Elem>)
      requires Valid() && TableLaws(h, t) && (i == 2 || i == 4 || i == 8)
      requires Filled(t, i) && At(i) == t[i]
      modifies HL, HH
      ensures Filled(t, 2 * i)
      ensures forall j :: 2 * i <= j < 16 ==> At(j) == old(At(j))
    {
      var v := At(i);
      var k := 1;
      while k < i
        invariant 1 <= k <= i
        invariant Filled(t, i + k)
        invariant forall j :: i + k <= j < 16 ==> At(j) == old(At(j))
      {
        assert SumAt(t, i, k);
        Set(i + k, Xor(v, At(k)));
        k := k + 1;
      }
    }

    /** The table holds the multiples of the hash key. */
    ghost predicate TableOf(h: Elem)
      requires Valid()
      reads HL, HH
    {
      Filled(Entries(h), 16)
    }

    method GenTable(hash: Bytes)
      requires Valid() && |hash| == 16
      modifies HL, HH
      ensures TableOf(Load(hash))
    {
      var h := Load(hash);
      ghost var t := Entries(h);
      EntriesLaws(h);
      FillPowers(h, t);
      FillRest(h, t);
    }

    method FillRest(ghost h: Elem, ghost t: seq<Elem>)
      requires Valid() && TableLaws(h, t)
      requires At(0) == t[0] && At(1) == t[1] && At(2) == t[2] && At(4) == t[4] && At(8) == t[8]
      modifies HL, HH
      ensures Filled(t, 16)
    {
      forall j | 0 <= j < 2 ensures At(j) == t[j] {
        if j == 0 {} else { assert j == 1; }
      }
      var i := 2;
      while i <= 8
        invariant i == 2 || i == 4 || i == 8 || i == 16
        invariant Filled(t, i)
        invariant (i <= 2 ==> At(2) == t[2]) && (i <= 4 ==> At(4) == t[4]) && (i <= 8 ==> At(8) == t[8])
        decreases 16 - i
      {
        FillSums(i, h, t);
        i := i * 2;
      }
    }

    // ----- internal_aes_gcm_ghash_mult_tbl

    /** Shift the accumulator by one nibble and add the table entry of the next. */
    method AddNibble(z: Elem, n: nat, ghost h: Elem, ghost acc: Elem) returns (r: Elem)
      requires Valid() && TableOf(h) && n < 16
      requires Xor(Entry(h, n), Shift4(z)) == acc
      ensures r == acc
    {
      r := Xor(At(n), Shift4(z));
    }

    /** Both nibbles of byte i, the low one first; the last byte starts with its high nibble. */
    method AddByte(x: Bytes, i: nat, z: Elem, ghost h: Elem, ghost k: nat, ghost p: nat) returns (r: Elem)
      requires Valid() && TableOf(h) && |x| == 16 && i < 16 && k == 4
      requires (i == 15 && p == 120 + k) || (i < 15 && p == 8 * i + k + k)
      requires z == Acc(x, h, p)
      ensures r == Acc(x, h, 8 * i)
    {
      r := z;
      if i != 15 {
        r := AddLow(x, i, r, h, k);
      }
      r := AddHigh(x, i, r, h, k);
    }

    method AddLow(x: Bytes, i: nat, z: Elem, ghost h: Elem, ghost k: nat) returns (r: Elem)
      requires Valid() && TableOf(h) && |x| == 16 && i < 16 && k == 4 && z == Acc(x, h, 8 * i + k + k)
      ensures r == Acc(x, h, 8 * i + k)
    {
      LoStep(h, x, i, k);
      r := AddNibble(z, LoNib(x[i]), h, Acc(x, h, 8 * i + k));
    }

    method AddHigh(x: Bytes, i: nat, z: Elem, ghost h: Elem, ghost k: nat) returns (r: Elem)
      requires Valid() && TableOf(h) && |x| == 16 && i < 16 && k == 4 && z == Acc(x, h, 8 * i + k)
      ensures r == Acc(x, h, 8 * i)
    {
      HiStep(h, x, i, k);
      r := AddNibble(z, HiNib(x[i]), h, Acc(x, h, 8 * i));
    }

    method FirstNibble(x: Bytes, i: nat, ghost h: Elem, ghost k: nat, ghost p: nat) returns (z: Elem)
      requires Valid() && TableOf(h) && |x| == 16 && i == 15 && k == 4 && p == 8 * i + k
      ensures z == Acc(x, h, p)
    {
      LastNibble(h, x, i, k);
      z := At(LoNib(x[i]));
    }

    /** The table-driven product is the field product, for every key and operand. */
    method MultTable(x: Bytes, ghost h: Elem) returns (output: Bytes)
      requires Valid() && TableOf(h) && |x| == 16
      ensures output == Store(Mul(Load(x), h))
    {
      ghost var k := NibbleBits();
      var z := FirstNibble(x, 15, h, k, 120 + k);
      z := MultRest(x, 15, z, h, k, 120 + k);
      AccAll(x, h, 0);
      output := Store(z);
    }

    /** All bytes from i down; of the first one the low nibble is done. */
    method MultRest(x: Bytes, first: nat, z0: Elem, ghost h: Elem, ghost k: nat, ghost p0: nat) returns (z: Elem)
      requires Valid() && TableOf(h) && |x| == 16 && first == 15 && k == 4 && p0 == 8 * first + k && z0 == Acc(x, h, p0)
      ensures z == Acc(x, h, 0)
    {
      z := z0;
      ghost var p := p0;
      var i: int := first;
      while i >= 0
        invariant -1 <= i <= first && 0 <= p <= 128
        invariant (i == first && p == p0) || (i < first && p == 8 * i + k + k)
        invariant z == Acc(x, h, p)
        decreases i
      {
        z := AddByte(x, i, z, h, k, p);
        p := 8 * i;
        i := i - 1;
      }
    }
  }

  /** Nothing left out. */
  lemma AccAll(x: Bytes, h: Elem, p: nat)
    requires |x| == 16 && p == 0
    ensures Acc(x, h, p) == Mul(Load(x), h)
  {}
}
