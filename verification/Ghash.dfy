/**
 Bytes and field elements, and GHASH multiplication bit by bit
 (internal_aes_gcm_gfmul): for all operands it is the field product.
 */
module Ghash {
  import opened GfAlgebra
  import opened Gf128

  type Bytes = seq<bv8>

  // ----- big-endian words

  function Word(b0: bv8, b1: bv8, b2: bv8, b3: bv8, b4: bv8, b5: bv8, b6: bv8, b7: bv8): bv64 {
    ((b0 as bv64) << 56) | ((b1 as bv64) << 48) | ((b2 as bv64) << 40) | ((b3 as bv64) << 32) |
    ((b4 as bv64) << 24) | ((b5 as bv64) << 16) | ((b6 as bv64) << 8) | (b7 as bv64)
  }

  function GetBe64(b: Bytes): bv64
    requires |b| == 8
  {
    Word(b[0], b[1], b[2], b[3], b[4], b[5], b[6], b[7])
  }

  function PutBe64(w: bv64): (b: Bytes)
    ensures |b| == 8
  {
    [(w >> 56) as bv8, ((w >> 48) & 0xff) as bv8, ((w >> 40) & 0xff) as bv8, ((w >> 32) & 0xff) as bv8,
     ((w >> 24) & 0xff) as bv8, ((w >> 16) & 0xff) as bv8, ((w >> 8) & 0xff) as bv8, (w & 0xff) as bv8]
  }

  lemma WordRoundTrip(w: bv64)
    ensures GetBe64(PutBe64(w)) == w
  {}

  function Load(b: Bytes): Elem
    requires |b| == 16
  {
    Elem(GetBe64(b[..8]), GetBe64(b[8..]))
  }

  function Store(e: Elem): (b: Bytes)
    ensures |b| == 16
  {
    PutBe64(e.hi) + PutBe64(e.lo)
  }

  lemma LoadStore(e: Elem)
    ensures Load(Store(e)) == e
  {
    assert Store(e)[..8] == PutBe64(e.hi) && Store(e)[8..] == PutBe64(e.lo);
    WordRoundTrip(e.hi);
    WordRoundTrip(e.lo);
  }

  // ----- the coefficients of a byte string

  /** Bit n of the bytes, counted from the top of byte 0. */
  predicate BitAt(b: Bytes, n: nat)
    requires n < 8 * |b|
  {
    ByteBit(b[n / 8], n % 8)
  }

  predicate ByteBit(b: bv8, r: nat)
    requires r < 8
  {
    b & ((1 as bv8) << (7 - r)) != 0
  }

  function Zeros(n: nat): (r: Bytes)
    ensures |r| == n && forall i :: 0 <= i < n ==> r[i] == 0
  {
    if n == 0 then [] else [0] + Zeros(n - 1)
  }

  /** The bytes from j on, filled up with zeros. */
  function Tail(b: Bytes, j: nat): (r: Bytes)
    requires j <= |b|
    ensures |r| == |b|
  {
    b[j..] + Zeros(j)
  }

  function Up8(h: bv64, l: bv64): bv64 {
    (h << 8) | (l >> 56)
  }

  function Shl8(v: Elem): Elem {
    Elem(Up8(v.hi, v.lo), Up8(v.lo, 0))
  }

  lemma Shl8Steps(v: Elem)
    ensures Shl(Shl(Shl(Shl(Shl(Shl(Shl(Shl(v)))))))) == Shl8(v)
  {}

  lemma DropPlus8(x: Elem, n: nat)
    ensures Drop(GF, x, n + 8) == Shl8(Drop(GF, x, n))
  {
    var d := Drop(GF, x, n);
    assert Drop(GF, x, n + 2) == Shl(Shl(d));
    assert Drop(GF, x, n + 4) == Shl(Shl(Drop(GF, x, n + 2)));
    assert Drop(GF, x, n + 6) == Shl(Shl(Drop(GF, x, n + 4)));
    assert Drop(GF, x, n + 8) == Shl(Shl(Drop(GF, x, n + 6)));
    Shl8Steps(d);
  }

  lemma WordUp8(b0: bv8, b1: bv8, b2: bv8, b3: bv8, b4: bv8, b5: bv8, b6: bv8, b7: bv8, b8: bv8,
                c1: bv8, c2: bv8, c3: bv8, c4: bv8, c5: bv8, c6: bv8, c7: bv8)
    ensures Up8(Word(b0, b1, b2, b3, b4, b5, b6, b7), Word(b8, c1, c2, c3, c4, c5, c6, c7)) == Word(b1, b2, b3, b4, b5, b6, b7, b8)
  {}

  lemma LoadTailStep(c: Bytes, d: Bytes)
    requires |c| == 16 && d == c[1..] + [0]
    ensures Load(d) == Shl8(Load(c))
  {
    WordUp8(c[0], c[1], c[2], c[3], c[4], c[5], c[6], c[7], c[8], c[9], c[10], c[11], c[12], c[13], c[14], c[15]);
    WordUp8(c[8], c[9], c[10], c[11], c[12], c[13], c[14], c[15], 0, 0, 0, 0, 0, 0, 0, 0);
    assert Word(0, 0, 0, 0, 0, 0, 0, 0) == 0;
  }

  lemma TailStep(b: Bytes, j: nat)
    requires 1 <= j <= |b|
    ensures Tail(b, j) == Tail(b, j - 1)[1..] + [0]
  {}

  lemma {:induction false} DropBytes(b: Bytes, j: nat)
    requires |b| == 16 && j <= 16
    ensures Drop(GF, Load(b), 8 * j) == Load(Tail(b, j))
  {
    if j == 0 {
      assert Tail(b, 0) == b;
    } else {
      DropBytes(b, j - 1);
      DropPlus8(Load(b), 8 * (j - 1));
      TailStep(b, j);
      LoadTailStep(Tail(b, j - 1), Tail(b, j));
    }
  }

  /** The coefficients in the top byte. */
  predicate HiBit(h: bv64, r: nat)
    requires r < 8
  {
    h & ((0x8000_0000_0000_0000 as bv64) >> r) != 0
  }

  lemma UpBits(h: bv64, l: bv64)
    ensures TopBit(h) <==> HiBit(h, 0)
    ensures HiBit(Up(h, l), 0) <==> HiBit(h, 1)
    ensures HiBit(Up(h, l), 1) <==> HiBit(h, 2)
    ensures HiBit(Up(h, l), 2) <==> HiBit(h, 3)
    ensures HiBit(Up(h, l), 3) <==> HiBit(h, 4)
    ensures HiBit(Up(h, l), 4) <==> HiBit(h, 5)
    ensures HiBit(Up(h, l), 5) <==> HiBit(h, 6)
    ensures HiBit(Up(h, l), 6) <==> HiBit(h, 7)
  {}

  lemma UpBit(h: bv64, l: bv64, r: nat)
    requires r < 7
    ensures HiBit(Up(h, l), r) <==> HiBit(h, r + 1)
  {
    UpBits(h, l);
    assert r == 0 || r == 1 || r == 2 || r == 3 || r == 4 || r == 5 || r == 6;
  }

  lemma {:induction false} TopAfterDrop(v: Elem, r: nat)
    requires r < 8
    ensures Top(Drop(GF, v, r)) <==> HiBit(v.hi, r)
    decreases r
  {
    if r == 0 {
      UpBits(v.hi, v.lo);
    } else {
      DropFront(GF, v, r - 1);
      TopAfterDrop(Shl(v), r - 1);
      UpBit(v.hi, v.lo, r - 1);
    }
  }

  function TopByte(w: bv64): bv64 {
    w & 0xff00_0000_0000_0000
  }

  lemma WordTop(b0: bv8, b1: bv8, b2: bv8, b3: bv8, b4: bv8, b5: bv8, b6: bv8, b7: bv8)
    ensures TopByte(Word(b0, b1, b2, b3, b4, b5, b6, b7)) == (b0 as bv64) << 56
  {}

  lemma TopByteBits(b: bv8)
    ensures HiBit((b as bv64) << 56, 0) <==> ByteBit(b, 0)
    ensures HiBit((b as bv64) << 56, 1) <==> ByteBit(b, 1)
    ensures HiBit((b as bv64) << 56, 2) <==> ByteBit(b, 2)
    ensures HiBit((b as bv64) << 56, 3) <==> ByteBit(b, 3)
    ensures HiBit((b as bv64) << 56, 4) <==> ByteBit(b, 4)
    ensures HiBit((b as bv64) << 56, 5) <==> ByteBit(b, 5)
    ensures HiBit((b as bv64) << 56, 6) <==> ByteBit(b, 6)
    ensures HiBit((b as bv64) << 56, 7) <==> ByteBit(b, 7)
  {}

  lemma MaskedBits(w: bv64)
    ensures HiBit(TopByte(w), 0) <==> HiBit(w, 0)
    ensures HiBit(TopByte(w), 1) <==> HiBit(w, 1)
    ensures HiBit(TopByte(w), 2) <==> HiBit(w, 2)
    ensures HiBit(TopByte(w), 3) <==> HiBit(w, 3)
    ensures HiBit(TopByte(w), 4) <==> HiBit(w, 4)
    ensures HiBit(TopByte(w), 5) <==> HiBit(w, 5)
    ensures HiBit(TopByte(w), 6) <==> HiBit(w, 6)
    ensures HiBit(TopByte(w), 7) <==> HiBit(w, 7)
  {}

  lemma WordBit(b0: bv8, b1: bv8, b2: bv8, b3: bv8, b4: bv8, b5: bv8, b6: bv8, b7: bv8, r: nat)
    requires r < 8
    ensures HiBit(Word(b0, b1, b2, b3, b4, b5, b6, b7), r) <==> ByteBit(b0, r)
  {
    WordTop(b0, b1, b2, b3, b4, b5, b6, b7);
    TopByteBits(b0);
    MaskedBits(Word(b0, b1, b2, b3, b4, b5, b6, b7));
    assert r == 0 || r == 1 || r == 2 || r == 3 || r == 4 || r == 5 || r == 6 || r == 7;
  }

  lemma {:induction false} DropSplit(x: Elem, n: nat, k: nat)
    ensures Drop(GF, x, n + k) == Drop(GF, Drop(GF, x, n), k)
  {
    if k > 0 { DropSplit(x, n, k - 1); }
  }

  lemma FirstByteTop(c: Bytes, r: nat)
    requires |c| == 16 && r < 8
    ensures Top(Drop(GF, Load(c), r)) <==> ByteBit(c[0], r)
  {
    TopAfterDrop(Load(c), r);
    WordBit(c[0], c[1], c[2], c[3], c[4], c[5], c[6], c[7], r);
  }

  /** Bit n of the bytes is coefficient n of the element. */
  lemma BitIsTop(b: Bytes, n: nat)
    requires |b| == 16 && n < 128
    ensures BitAt(b, n) <==> Top(Drop(GF, Load(b), n))
  {
    var j, r := n / 8, n % 8;
    assert n == 8 * j + r;
    assert Tail(b, j)[0] == b[j];
    assert Drop(GF, Load(b), n) == Drop(GF, Load(Tail(b, j)), r) by {
      DropSplit(Load(b), 8 * j, r);
      DropBytes(b, j);
    }
    FirstByteTop(Tail(b, j), r);
  }

  // ----- internal_aes_gcm_gfmul

  method GfMul(x: Bytes, y: Bytes) returns (product: Bytes)
    requires |x| == 16 && |y| == 16
    ensures product == Store(Mul(Load(x), Load(y)))
  {
    GfLawful();
    var v := Load(y);
    var z := ZERO;
    ghost var w := Load(x);
    ghost var goal := Mul(Load(x), Load(y));
    ZeroFacts(GF, goal);
    for n := 0 to 128
      invariant w == Drop(GF, Load(x), n)
      invariant Xor(z, Partial(GF, w, v, 128 - n)) == goal
    {
      BitIsTop(x, n);
      GfMulStep(z, w, v, 128 - n);
      if BitAt(x, n) {
        z := Xor(z, v);
      }
      v := MulX(v);
      w := Shl(w);
    }
    ZeroFacts(GF, z);
    product := Store(z);
  }

  lemma GfMulStep(z: Elem, w: Elem, v: Elem, n: nat)
    requires n > 0
    ensures Xor(z, Partial(GF, w, v, n)) == Xor(if Top(w) then Xor(z, v) else z, Partial(GF, Shl(w), MulX(v), n - 1))
  {
    GfLawful();
    PartialStep(GF, w, v, n - 1);
    var p := Pick(GF, Top(w), v);
    assert LawsAt(GF, z, p, Partial(GF, Shl(w), MulX(v), n - 1));
    ZeroFacts(GF, z);
  }
}
