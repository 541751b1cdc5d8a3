/**
 The field GF(2^128) of GHASH (section 6.3 of NIST SP 800-38D) on two 64-bit
 words, as internal_aes_gcm_gfmul computes in it.  The top bit of `hi` is the
 coefficient of the lowest power.
 */
module Gf128 {
  import opened GfAlgebra

  datatype Elem = Elem(hi: bv64, lo: bv64)

  const ZERO := Elem(0, 0)
  const ONE := Elem(0x8000_0000_0000_0000, 0)

  // ----- words

  function X(a: bv64, b: bv64): bv64 {
    a ^ b
  }

  lemma XAssoc(a: bv64, b: bv64, c: bv64)
    ensures X(X(a, b), c) == X(a, X(b, c))
  {
    assert (a ^ b) ^ c == a ^ (b ^ c);
  }

  lemma XFacts(a: bv64, b: bv64)
    ensures X(a, b) == X(b, a) && X(a, 0) == a && X(a, a) == 0
  {}

  lemma XFour(a: bv64, b: bv64, c: bv64, d: bv64)
    ensures X(X(a, b), X(c, d)) == X(X(a, c), X(b, d))
  {
    XAssoc(a, b, X(c, d));
    XAssoc(b, c, d);
    XFacts(b, c);
    XAssoc(c, b, d);
    XAssoc(a, c, X(b, d));
  }

  function Half(h: bv64): bv64 {
    h >> 1
  }

  /** The reduction word: 0xe1 in the top byte when the last coefficient falls off. */
  function Reduce(l: bv64): bv64 {
    if l & 1 == 1 then 0xe100_0000_0000_0000 else 0
  }

  function Carry(h: bv64, l: bv64): bv64 {
    (h << 63) | (l >> 1)
  }

  function Up(h: bv64, l: bv64): bv64 {
    (h << 1) | (l >> 63)
  }

  function Twice(l: bv64): bv64 {
    l << 1
  }

  predicate TopBit(h: bv64) {
    h & 0x8000_0000_0000_0000 != 0
  }

  lemma HalfLinear(a: bv64, b: bv64)
    ensures Half(X(a, b)) == X(Half(a), Half(b))
  {}

  lemma ReduceLinear(a: bv64, b: bv64)
    ensures Reduce(X(a, b)) == X(Reduce(a), Reduce(b))
  {}

  lemma CarryLinear(h: bv64, l: bv64, h': bv64, l': bv64)
    ensures Carry(X(h, h'), X(l, l')) == X(Carry(h, l), Carry(h', l'))
  {}

  // ----- elements

  function Xor(a: Elem, b: Elem): Elem {
    Elem(X(a.hi, b.hi), X(a.lo, b.lo))
  }

  /** The "update Y" step of internal_aes_gcm_gfmul: multiply by P. */
  function MulX(v: Elem): Elem {
    Elem(X(Half(v.hi), Reduce(v.lo)), Carry(v.hi, v.lo))
  }

  /** A shift by one bit; the bit that falls out comes back as the polynomial 1 + P + P^2 + P^7. */
  lemma MulXShifts(v: Elem)
    ensures v.lo & 1 == 0 ==> MulX(v) == Elem(v.hi >> 1, (v.lo >> 1) | (v.hi << 63))
    ensures v.lo & 1 == 1 ==> MulX(v) == Elem((v.hi >> 1) ^ 0xe100_0000_0000_0000, (v.lo >> 1) | (v.hi << 63))
  {}

  function Shl(v: Elem): Elem {
    Elem(Up(v.hi, v.lo), Twice(v.lo))
  }

  predicate Top(v: Elem) {
    TopBit(v.hi)
  }

  const GF := Ops(ZERO, ONE, (a, b) => Xor(a, b), v => MulX(v), v => Top(v), v => Shl(v))

  /** The product: bit by bit over the first factor, as internal_aes_gcm_gfmul loops. */
  function Mul(x: Elem, y: Elem): Elem {
    Partial(GF, x, y, 128)
  }

  lemma MulXLinear(a: Elem, b: Elem)
    ensures MulX(Xor(a, b)) == Xor(MulX(a), MulX(b))
  {
    HalfLinear(a.hi, b.hi);
    ReduceLinear(a.lo, b.lo);
    CarryLinear(a.hi, a.lo, b.hi, b.lo);
    XFour(Half(a.hi), Half(b.hi), Reduce(a.lo), Reduce(b.lo));
  }

  lemma UpLinear(h: bv64, l: bv64, h': bv64, l': bv64)
    ensures Up(X(h, h'), X(l, l')) == X(Up(h, l), Up(h', l'))
  {}

  lemma TwiceLinear(a: bv64, b: bv64)
    ensures Twice(X(a, b)) == X(Twice(a), Twice(b))
  {}

  lemma TopLinear(a: bv64, b: bv64)
    ensures TopBit(X(a, b)) <==> TopBit(a) != TopBit(b)
  {}

  lemma ShlLinear(a: Elem, b: Elem)
    ensures Shl(Xor(a, b)) == Xor(Shl(a), Shl(b))
  {
    UpLinear(a.hi, a.lo, b.hi, b.lo);
    TwiceLinear(a.lo, b.lo);
  }

  lemma XorLaws(a: Elem, b: Elem, c: Elem)
    ensures Xor(a, b) == Xor(b, a)
    ensures Xor(Xor(a, b), c) == Xor(a, Xor(b, c))
    ensures Xor(a, ZERO) == a && Xor(a, a) == ZERO
  {
    XAssoc(a.hi, b.hi, c.hi);
    XAssoc(a.lo, b.lo, c.lo);
    XFacts(a.hi, b.hi);
    XFacts(a.lo, b.lo);
  }

  lemma GfLawful()
    ensures Lawful(GF)
  {
    forall a: Elem, b: Elem, c: Elem ensures LawsAt(GF, a, b, c) {
      XorLaws(a, b, c);
      MulXLinear(a, b);
      ShlLinear(a, b);
      TopLinear(a.hi, b.hi);
    }
  }

  // ----- ONE is the unit

  /** The first n coefficients set, the others clear. */
  function Mask(n: nat): Elem {
    if n == 0 then ZERO else MaskStep(Mask(n - 1))
  }

  function MaskStep(m: Elem): Elem {
    Elem(SetTop(Half(m.hi)), Carry(m.hi, m.lo))
  }

  function SetTop(h: bv64): bv64 {
    0x8000_0000_0000_0000 | h
  }

  function AndW(a: bv64, b: bv64): bv64 {
    a & b
  }

  function TopWord(h: bv64): bv64 {
    h & 0x8000_0000_0000_0000
  }

  lemma TopWordIsBit(h: bv64)
    ensures TopWord(h) == if TopBit(h) then 0x8000_0000_0000_0000 else 0
  {}

  function And(a: Elem, b: Elem): Elem {
    Elem(AndW(a.hi, b.hi), AndW(a.lo, b.lo))
  }

  lemma NoReduce(l: bv64, ml: bv64)
    ensures Reduce(AndW(Twice(l), ml)) == 0
  {}

  lemma MaskedTail(x: bv64, l: bv64, m: bv64)
    ensures Half(AndW(Up(x, l), m)) == AndW(x, Half(m))
  {}

  lemma MaskedJoin(x: bv64, m: bv64)
    ensures X(TopWord(x), AndW(x, Half(m))) == AndW(x, SetTop(Half(m)))
  {}

  lemma MaskedLo(x: bv64, l: bv64, m: bv64, ml: bv64)
    ensures Carry(AndW(Up(x, l), m), AndW(Twice(l), ml)) == AndW(l, Carry(m, ml))
  {}

  lemma MulXEven(v: Elem)
    requires Reduce(v.lo) == 0
    ensures MulX(v) == Elem(Half(v.hi), Carry(v.hi, v.lo))
  {
    XFacts(Half(v.hi), 0);
  }

  lemma XorTop(t: bv64, v: Elem)
    ensures Xor(Elem(t, 0), v) == Elem(X(t, v.hi), v.lo)
  {
    XFacts(0, v.lo);
    XFacts(v.lo, 0);
  }

  /** One more coefficient of x, read off through the unit. */
  lemma UnitStep(x: Elem, m: Elem)
    ensures Xor(Pick(GF, Top(x), ONE), MulX(And(Shl(x), m))) == And(x, MaskStep(m))
  {
    var v := And(Shl(x), m);
    TopWordIsBit(x.hi);
    assert Pick(GF, Top(x), ONE) == Elem(TopWord(x.hi), 0);
    NoReduce(x.lo, m.lo);
    MulXEven(v);
    XorTop(TopWord(x.hi), MulX(v));
    MaskedTail(x.hi, x.lo, m.hi);
    MaskedJoin(x.hi, m.hi);
    MaskedLo(x.hi, x.lo, m.hi, m.lo);
  }

  lemma {:induction false} UnitPrefix(x: Elem, n: nat)
    ensures Partial(GF, x, ONE, n) == And(x, Mask(n))
    decreases n
  {
    if n > 0 {
      GfLawful();
      UnitPrefix(Shl(x), n - 1);
      PartialMulX(GF, Shl(x), ONE, n - 1);
      UnitStep(x, Mask(n - 1));
    }
  }

  function Mask8(m: Elem): Elem {
    Elem(0xff00_0000_0000_0000 | (m.hi >> 8), (m.hi << 56) | (m.lo >> 8))
  }

  lemma Mask8Steps(m: Elem)
    ensures MaskStep(MaskStep(MaskStep(MaskStep(MaskStep(MaskStep(MaskStep(MaskStep(m)))))))) == Mask8(m)
  {}

  lemma MaskPlus8(n: nat)
    ensures Mask(n + 8) == Mask8(Mask(n))
  {
    var m := Mask(n);
    assert Mask(n + 2) == MaskStep(MaskStep(m));
    assert Mask(n + 4) == MaskStep(MaskStep(Mask(n + 2)));
    assert Mask(n + 6) == MaskStep(MaskStep(Mask(n + 4)));
    assert Mask(n + 8) == MaskStep(MaskStep(Mask(n + 6)));
    Mask8Steps(m);
  }

  lemma MaskHalf()
    ensures Mask(64) == Elem(0xffff_ffff_ffff_ffff, 0)
  {
    MaskPlus8(0); MaskPlus8(8); MaskPlus8(16); MaskPlus8(24);
    MaskPlus8(32); MaskPlus8(40); MaskPlus8(48); MaskPlus8(56);
  }

  lemma MaskFull()
    ensures Mask(128) == Elem(0xffff_ffff_ffff_ffff, 0xffff_ffff_ffff_ffff)
  {
    MaskHalf();
    MaskPlus8(64); MaskPlus8(72); MaskPlus8(80); MaskPlus8(88);
    MaskPlus8(96); MaskPlus8(104); MaskPlus8(112); MaskPlus8(120);
  }

  lemma AndAll(a: bv64)
    ensures AndW(a, 0xffff_ffff_ffff_ffff) == a
  {}

  lemma GfUnit()
    ensures HasUnit(GF, 128)
  {
    forall x: Elem ensures Partial(GF, x, GF.one, 128) == x {
      UnitPrefix(x, 128);
      MaskFull();
      AndAll(x.hi);
      AndAll(x.lo);
    }
  }

  // ----- the field product

  /** Commutative, associative, bilinear, with unit ONE. */
  lemma MulCommutative(x: Elem, y: Elem)
    ensures Mul(x, y) == Mul(y, x)
  {
    GfLawful();
    GfUnit();
    Commutative(GF, 128, x, y);
  }

  lemma MulAssociative(x: Elem, y: Elem, z: Elem)
    ensures Mul(Mul(x, y), z) == Mul(x, Mul(y, z))
  {
    GfLawful();
    GfUnit();
    Associative(GF, 128, x, y, z);
  }

  lemma MulBilinear(a: Elem, b: Elem, y: Elem)
    ensures Mul(Xor(a, b), y) == Xor(Mul(a, y), Mul(b, y))
    ensures Mul(y, Xor(a, b)) == Xor(Mul(y, a), Mul(y, b))
  {
    GfLawful();
    LinearLeft(GF, a, b, y, 128);
    LinearRight(GF, y, a, b, 128);
  }
}
