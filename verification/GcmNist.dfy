/**
 The suite the implementation uses (a counter that carries over all 128 bits,
 32-bit length arithmetic) against the one of NIST SP 800-38D (inc32 of section 6.2,
 64-bit lengths of section 6.4), and exactly when they agree.
 */
module GcmNist {
  import opened Common
  import opened GfAlgebra
  import opened Gf128
  import opened Ghash
  import opened GhashTable
  import G = GcmSpec
  import opened Gcm
  import R = GcmRuns
  import S = Sp80038d

  // ----- the counter

  /** internal_aes_gcm_inc_ctr on the two big-endian words. */
  function IncWords(e: Elem): Elem {
    if e.lo + 1 == 0 then Elem(e.hi + 1, 0) else Elem(e.hi, e.lo + 1)
  }

  /** Only the last 32 bits count. */
  function IncLow(e: Elem): Elem {
    Elem(e.hi, LowInc(e.lo))
  }

  function Low(e: Elem): bv64 {
    e.lo & 0xffff_ffff
  }

  function IncCtr(b: G.Block): G.Block {
    Store(IncWords(Load(b)))
  }

  function Inc32(b: G.Block): G.Block {
    Store(IncLow(Load(b)))
  }

  lemma IncWordsAgree(e: Elem)
    ensures IncWords(e) == IncLow(e) <==> Low(e) != 0xffff_ffff
    ensures Low(e) != 0xffff_ffff ==> Low(IncLow(e)) == Low(e) + 1
  {}

  /** How many increments it takes until the low word is all ones. */
  function Room(w: bv64): nat
    decreases 0xffff_ffff - w
  {
    if w >= 0xffff_ffff then 0 else 1 + Room(w + 1)
  }

  function CtrRoom(b: G.Block): nat {
    Room(Low(Load(b)))
  }

  /** The two increments agree exactly while the low word has room. */
  lemma IncAgreesIff(b: G.Block)
    ensures IncCtr(b) == Inc32(b) <==> CtrRoom(b) > 0
    ensures CtrRoom(b) > 0 ==> CtrRoom(Inc32(b)) == CtrRoom(b) - 1
  {
    var e := Load(b);
    IncWordsAgree(e);
    LoadStore(IncWords(e));
    LoadStore(IncLow(e));
    LowAtMost(e);
  }

  lemma LowAtMost(e: Elem)
    ensures Low(e) <= 0xffff_ffff
  {}

  /** Byte k of a word, counted from the low end. */
  function ByteOf(w: bv64, k: nat): bv8
    requires k < 4
  {
    if k == 0 then (w & 0xff) as bv8
    else if k == 1 then ((w >> 8) & 0xff) as bv8
    else if k == 2 then ((w >> 16) & 0xff) as bv8
    else ((w >> 24) & 0xff) as bv8
  }

  /** The number that four bytes are, big-endian. */
  function Number(b3: bv8, b2: bv8, b1: bv8, b0: bv8): nat {
    b3 as nat * 0x100_0000 + b2 as nat * 0x1_0000 + b1 as nat * 0x100 + b0 as nat
  }

  function LowNumber(w: bv64): nat {
    Number(ByteOf(w, 3), ByteOf(w, 2), ByteOf(w, 1), ByteOf(w, 0))
  }

  /** The bytes of w + 1: a byte that is not all ones takes the carry, and the ones below it become zero. */
  lemma CarryBytes(w: bv64)
    requires w < 0xffff_ffff
    ensures ByteOf(w, 0) != 0xff ==>
      ByteOf(w + 1, 3) == ByteOf(w, 3) && ByteOf(w + 1, 2) == ByteOf(w, 2) && ByteOf(w + 1, 1) == ByteOf(w, 1) &&
      ByteOf(w + 1, 0) == ByteOf(w, 0) + 1
    ensures ByteOf(w, 0) == 0xff && ByteOf(w, 1) != 0xff ==>
      ByteOf(w + 1, 3) == ByteOf(w, 3) && ByteOf(w + 1, 2) == ByteOf(w, 2) && ByteOf(w + 1, 1) == ByteOf(w, 1) + 1 &&
      ByteOf(w + 1, 0) == 0
    ensures ByteOf(w, 0) == 0xff && ByteOf(w, 1) == 0xff && ByteOf(w, 2) != 0xff ==>
      ByteOf(w + 1, 3) == ByteOf(w, 3) && ByteOf(w + 1, 2) == ByteOf(w, 2) + 1 && ByteOf(w + 1, 1) == 0 &&
      ByteOf(w + 1, 0) == 0
    ensures ByteOf(w, 0) == 0xff && ByteOf(w, 1) == 0xff && ByteOf(w, 2) == 0xff ==>
      ByteOf(w, 3) != 0xff && ByteOf(w + 1, 3) == ByteOf(w, 3) + 1 && ByteOf(w + 1, 2) == 0 && ByteOf(w + 1, 1) == 0 &&
      ByteOf(w + 1, 0) == 0
  {}

  lemma NextNumber(w: bv64)
    requires w < 0xffff_ffff
    ensures LowNumber(w + 1) == LowNumber(w) + 1
  {
    CarryBytes(w);
    NextOf(ByteOf(w, 3), ByteOf(w, 2), ByteOf(w, 1), ByteOf(w, 0));
  }

  /** Counting on four bytes counts on their number. */
  lemma NextOf(b3: bv8, b2: bv8, b1: bv8, b0: bv8)
    requires b3 != 0xff || b2 != 0xff || b1 != 0xff || b0 != 0xff
    ensures Number(b3, b2, b1, b0) + 1 ==
      if b0 != 0xff then Number(b3, b2, b1, b0 + 1)
      else if b1 != 0xff then Number(b3, b2, b1 + 1, 0)
      else if b2 != 0xff then Number(b3, b2 + 1, 0, 0)
      else Number(b3 + 1, 0, 0, 0)
  {
    S.NextByte(b0);
    S.NextByte(b1);
    S.NextByte(b2);
    S.NextByte(b3);
  }

  lemma {:induction false} RoomIs(w: bv64)
    requires w <= 0xffff_ffff
    ensures Room(w) == 0xffff_ffff - LowNumber(w)
    decreases 0xffff_ffff - w
  {
    if w < 0xffff_ffff {
      NextNumber(w);
      RoomIs(w + 1);
    } else {
      AllOnes(w);
      S.NextByte(0xff);
    }
  }

  lemma AllOnes(w: bv64)
    requires w == 0xffff_ffff
    ensures ByteOf(w, 0) == 0xff && ByteOf(w, 1) == 0xff && ByteOf(w, 2) == 0xff && ByteOf(w, 3) == 0xff
  {}

  lemma LowBytes(b0: bv8, b1: bv8, b2: bv8, b3: bv8, b4: bv8, b5: bv8, b6: bv8, b7: bv8)
    ensures var w := Word(b0, b1, b2, b3, b4, b5, b6, b7) & 0xffff_ffff;
      ByteOf(w, 3) == b4 && ByteOf(w, 2) == b5 && ByteOf(w, 1) == b6 && ByteOf(w, 0) == b7
  {}

  /** The room is what the last four bytes lack to 2^32 - 1. */
  lemma CtrRoomIs(b: G.Block)
    ensures CtrRoom(b) == 0xffff_ffff - Number(b[12], b[13], b[14], b[15])
  {
    var d := b[8..];
    LowBytes(d[0], d[1], d[2], d[3], d[4], d[5], d[6], d[7]);
    LowAtMost(Load(b));
    RoomIs(Low(Load(b)));
  }

  /** With no room left the two increments give different blocks. */
  lemma IncDiffers(b: G.Block)
    requires b[12] == 0xff && b[13] == 0xff && b[14] == 0xff && b[15] == 0xff
    ensures CtrRoom(b) == 0 && IncCtr(b) != Inc32(b)
  {
    CtrRoomIs(b);
    S.NextByte(0xff);
    IncAgreesIff(b);
  }

  // ----- the increments as arithmetic

  /** Plus1 of four bytes. */
  function Next4(b0: bv8, b1: bv8, b2: bv8, b3: bv8): G.Bytes {
    if b3 != 0xff then [b0, b1, b2, b3 + 1]
    else if b2 != 0xff then [b0, b1, b2 + 1, 0]
    else if b1 != 0xff then [b0, b1 + 1, 0, 0]
    else [b0 + 1, 0, 0, 0]
  }

  lemma Next4Is(b0: bv8, b1: bv8, b2: bv8, b3: bv8)
    ensures S.Plus1([b0, b1, b2, b3]) == Next4(b0, b1, b2, b3)
  {
    assert [b0, b1, b2, b3][..3] == [b0, b1, b2] && [b0, b1, b2][..2] == [b0, b1] && [b0, b1][..1] == [b0] && [b0][..0] == [];
    assert S.Plus1([b0]) == if b0 == 0xff then [0] else [b0 + 1];
    OneMore(b0);
    assert S.Plus1([b0, b1]) == if b1 == 0xff then [b0 + 1, 0] else [b0, b1 + 1];
    assert S.Plus1([b0, b1, b2]) == if b2 == 0xff then S.Plus1([b0, b1]) + [0] else [b0, b1, b2 + 1];
  }

  lemma OneMore(b: bv8)
    ensures b == 0xff ==> b + 1 == 0
  {}

  lemma WordBack(b0: bv8, b1: bv8, b2: bv8, b3: bv8, b4: bv8, b5: bv8, b6: bv8, b7: bv8)
    ensures PutBe64(Word(b0, b1, b2, b3, b4, b5, b6, b7)) == [b0, b1, b2, b3, b4, b5, b6, b7]
  {}

  function LowInc(w: bv64): bv64 {
    (w & 0xffff_ffff_0000_0000) | ((w + 1) & 0xffff_ffff)
  }

  /** The high half stays. */
  lemma HighStays(w: bv64)
    ensures LowInc(w) >> 56 == w >> 56
    ensures (LowInc(w) >> 48) & 0xff == (w >> 48) & 0xff
    ensures (LowInc(w) >> 40) & 0xff == (w >> 40) & 0xff
    ensures (LowInc(w) >> 32) & 0xff == (w >> 32) & 0xff
  {}

  /** The low half counts: a byte that is not all ones takes the carry. */
  lemma LowCounts(w: bv64)
    ensures var v := LowInc(w);
      [ByteOf(v, 3), ByteOf(v, 2), ByteOf(v, 1), ByteOf(v, 0)] == Next4(ByteOf(w, 3), ByteOf(w, 2), ByteOf(w, 1), ByteOf(w, 0))
  {
    var v := LowInc(w);
    if ByteOf(w, 0) != 0xff {
      LowCounts0(w, v);
    } else if ByteOf(w, 1) != 0xff {
      LowCounts1(w, v);
    } else if ByteOf(w, 2) != 0xff {
      LowCounts2(w, v);
    } else {
      LowCounts3(w, v);
    }
  }

  lemma LowCounts0(w: bv64, v: bv64)
    requires v == LowInc(w) && ByteOf(w, 0) != 0xff
    ensures ByteOf(v, 3) == ByteOf(w, 3) && ByteOf(v, 2) == ByteOf(w, 2) && ByteOf(v, 1) == ByteOf(w, 1)
    ensures ByteOf(v, 0) == ByteOf(w, 0) + 1
  {}

  lemma LowCounts1(w: bv64, v: bv64)
    requires v == LowInc(w) && ByteOf(w, 0) == 0xff && ByteOf(w, 1) != 0xff
    ensures ByteOf(v, 3) == ByteOf(w, 3) && ByteOf(v, 2) == ByteOf(w, 2) && ByteOf(v, 1) == ByteOf(w, 1) + 1
    ensures ByteOf(v, 0) == 0
  {}

  lemma LowCounts2(w: bv64, v: bv64)
    requires v == LowInc(w) && ByteOf(w, 0) == 0xff && ByteOf(w, 1) == 0xff && ByteOf(w, 2) != 0xff
    ensures ByteOf(v, 3) == ByteOf(w, 3) && ByteOf(v, 2) == ByteOf(w, 2) + 1 && ByteOf(v, 1) == 0 && ByteOf(v, 0) == 0
  {}

  lemma LowCounts3(w: bv64, v: bv64)
    requires v == LowInc(w) && ByteOf(w, 0) == 0xff && ByteOf(w, 1) == 0xff && ByteOf(w, 2) == 0xff
    ensures ByteOf(v, 3) == ByteOf(w, 3) + 1 && ByteOf(v, 2) == 0 && ByteOf(v, 1) == 0 && ByteOf(v, 0) == 0
  {}

  /** The bytes of a word: those of its high half, and four more. */
  function HighBytes(w: bv64): (b: G.Bytes)
    ensures |b| == 4
  {
    [(w >> 56) as bv8, ((w >> 48) & 0xff) as bv8, ((w >> 40) & 0xff) as bv8, ((w >> 32) & 0xff) as bv8]
  }

  lemma WordParts(w: bv64)
    ensures PutBe64(w) == HighBytes(w) + [ByteOf(w, 3), ByteOf(w, 2), ByteOf(w, 1), ByteOf(w, 0)]
  {}

  lemma LowNext(w: bv64)
    ensures PutBe64(LowInc(w)) == PutBe64(w)[..4] + S.Plus1(PutBe64(w)[4..])
  {
    WordParts(w);
    WordParts(LowInc(w));
    HighStays(w);
    LowCounts(w);
    Next4Is(ByteOf(w, 3), ByteOf(w, 2), ByteOf(w, 1), ByteOf(w, 0));
    assert PutBe64(w)[4..] == [ByteOf(w, 3), ByteOf(w, 2), ByteOf(w, 1), ByteOf(w, 0)];
  }

  lemma BytesBack(b: G.Bytes)
    requires |b| == 8
    ensures PutBe64(GetBe64(b)) == b
  {
    WordBack(b[0], b[1], b[2], b[3], b[4], b[5], b[6], b[7]);
    assert b == [b[0], b[1], b[2], b[3], b[4], b[5], b[6], b[7]];
  }

  lemma Joined(h: G.Bytes, l: G.Bytes, r: G.Bytes)
    requires |h| == |l| == 8 && |r| == 4
    ensures (h + l)[..12] == h + l[..4] && (h + l)[12..] == l[4..] && h + (l[..4] + r) == h + l[..4] + r
  {}

  /** The increment of the standard, in bits and in numbers. */
  lemma Inc32Is(b: G.Block)
    ensures Inc32(b) == S.Inc32(b)
  {
    var h, l := b[..8], b[8..];
    assert b == h + l;
    BytesBack(h);
    BytesBack(l);
    LowNext(GetBe64(l));
    S.CountsInc32(b);
    Joined(h, l, S.Plus1(l[4..]));
  }

  /** With the low half all ones the high half counts. */
  lemma HighCounts(w: bv64)
    requires w & 0xffff_ffff == 0xffff_ffff
    ensures (w + 1) & 0xffff_ffff == 0
    ensures ((w + 1) >> 56) as bv8 == ByteOf(LowInc(w >> 32), 3) && (((w + 1) >> 48) & 0xff) as bv8 == ByteOf(LowInc(w >> 32), 2)
    ensures (((w + 1) >> 40) & 0xff) as bv8 == ByteOf(LowInc(w >> 32), 1)
    ensures (((w + 1) >> 32) & 0xff) as bv8 == ByteOf(LowInc(w >> 32), 0)
  {}

  lemma HighIsLow(w: bv64)
    ensures HighBytes(w) == [ByteOf(w >> 32, 3), ByteOf(w >> 32, 2), ByteOf(w >> 32, 1), ByteOf(w >> 32, 0)]
  {}

  lemma ZeroLow(v: bv64)
    requires v & 0xffff_ffff == 0
    ensures ByteOf(v, 3) == 0 && ByteOf(v, 2) == 0 && ByteOf(v, 1) == 0 && ByteOf(v, 0) == 0
  {}

  lemma OnesLow(w: bv64)
    ensures w & 0xffff_ffff == 0xffff_ffff <==>
      ByteOf(w, 3) == 0xff && ByteOf(w, 2) == 0xff && ByteOf(w, 1) == 0xff && ByteOf(w, 0) == 0xff
    ensures w & 0xffff_ffff != 0xffff_ffff ==> w + 1 == LowInc(w)
  {}

  /** A word counts like its bytes. */
  lemma WordNext(w: bv64)
    ensures PutBe64(w + 1) == S.Plus1(PutBe64(w))
  {
    var l := [ByteOf(w, 3), ByteOf(w, 2), ByteOf(w, 1), ByteOf(w, 0)];
    WordParts(w);
    OnesLow(w);
    S.Plus1Concat(HighBytes(w), l);
    assert S.AllOnes(l) <==> l[0] == 0xff && l[1] == 0xff && l[2] == 0xff && l[3] == 0xff;
    if w & 0xffff_ffff == 0xffff_ffff {
      HighNext(w);
    } else {
      LowNext(w);
      assert PutBe64(w)[..4] == HighBytes(w) && PutBe64(w)[4..] == l;
    }
  }

  lemma HighNext(w: bv64)
    requires w & 0xffff_ffff == 0xffff_ffff
    ensures PutBe64(w + 1) == S.Plus1(HighBytes(w)) + S.ZeroBytes(4)
  {
    WordParts(w + 1);
    HighCounts(w);
    ZeroLow(w + 1);
    HighIsLow(w);
    LowCounts(w >> 32);
    Next4Is(ByteOf(w >> 32, 3), ByteOf(w >> 32, 2), ByteOf(w >> 32, 1), ByteOf(w >> 32, 0));
  }

  lemma OnesWord(w: bv64)
    ensures w + 1 == 0 <==> w == 0xffff_ffff_ffff_ffff
    ensures PutBe64(0) == S.ZeroBytes(8) && S.AllOnes(PutBe64(0xffff_ffff_ffff_ffff))
  {}

  lemma OnesBack(w: bv64)
    requires S.AllOnes(PutBe64(w))
    ensures w == 0xffff_ffff_ffff_ffff
  {
    var b := PutBe64(w);
    WordRoundTrip(w);
    assert b[0] == 0xff && b[1] == 0xff && b[2] == 0xff && b[3] == 0xff && b[4] == 0xff && b[5] == 0xff && b[6] == 0xff && b[7] == 0xff;
    assert Word(0xff, 0xff, 0xff, 0xff, 0xff, 0xff, 0xff, 0xff) == 0xffff_ffff_ffff_ffff;
  }

  lemma StoredNext(h: bv64, l: bv64)
    ensures Store(IncWords(Elem(h, l))) == S.Plus1(PutBe64(h) + PutBe64(l))
  {
    S.Plus1Concat(PutBe64(h), PutBe64(l));
    WordNext(h);
    WordNext(l);
    OnesWord(l);
    if S.AllOnes(PutBe64(l)) {
      OnesBack(l);
    }
  }

  /** The implementation's increment counts on all sixteen bytes, modulo 2^128. */
  lemma IncCtrIs(b: G.Block)
    ensures IncCtr(b) == S.Plus1(b)
    ensures S.IntOf(IncCtr(b)) == if S.IntOf(b) + 1 == S.Pow256(|b|) then 0 else S.IntOf(b) + 1
  {
    CountedBytes(b);
    S.Plus1Int(b);
  }

  lemma CountedBytes(b: G.Block)
    ensures IncCtr(b) == S.Plus1(b)
  {
    var h, l := b[..8], b[8..];
    assert b == h + l;
    BytesBack(h);
    BytesBack(l);
    StoredNext(GetBe64(h), GetBe64(l));
  }

  // ----- the length block

  /** The bit length computed in 32 bits from a 32-bit byte count. */
  function BitLen32(n: nat): nat {
    n % MOD32 * 8 % MOD32
  }

  function BitLen64(n: nat): nat {
    n * 8 % 0x1_0000_0000_0000_0000
  }

  /** For every length the standard admits, the fields agree exactly below 2^29 bytes. */
  lemma BitLenAgreesIff(n: nat)
    requires n < 0x2000_0000_0000_0000
    ensures BitLen32(n) == BitLen64(n) <==> n < 0x2000_0000
  {}

  /** 2^29 bytes: the 32-bit field is 0. */
  lemma BitLenDiffers()
    ensures BitLen32(0x2000_0000) == 0 && BitLen64(0x2000_0000) == 0x1_0000_0000
  {}

  /** Two 64-bit fields, most significant byte first. */
  function LenBlock(m: nat, n: nat): G.Block {
    S.Shifted(m, 8) + S.Shifted(n, 8)
  }

  /** The length block of the standard: the bit lengths of associated data and ciphertext, in this order. */
  function StandardLens(m: nat, n: nat): G.Block {
    S.BytesOf(8 * m, 8) + S.BytesOf(8 * n, 8)
  }

  lemma Pow256Eight(k: nat)
    requires k == 8
    ensures S.Pow256(k) == 0x1_0000_0000_0000_0000
  {
    assert S.Pow256(2) == 0x1_0000 && S.Pow256(4) == 0x1_0000 * S.Pow256(2);
    assert S.Pow256(k) == 0x1_0000_0000 * S.Pow256(4);
  }

  lemma FieldIs(n: nat, k: nat)
    requires k == 8
    ensures S.Shifted(BitLen64(n), k) == S.BytesOf(8 * n, k)
  {
    Pow256Eight(k);
    S.ModBytes(8 * n, k);
    S.ShiftedIs(8 * n, k);
  }

  /** 64-bit fields are the standard's for every length. */
  lemma Lens64Is(m: nat, n: nat)
    ensures Lens64(m, n) == StandardLens(m, n)
  {
    FieldIs(m, 8);
    FieldIs(n, 8);
  }

  /** 32-bit arithmetic gives the standard's block below 2^29 bytes. */
  lemma Lens32Is(m: nat, n: nat)
    requires m < 0x2000_0000 && n < 0x2000_0000
    ensures Lens32(m, n) == StandardLens(m, n)
  {
    BitLenAgreesIff(m);
    BitLenAgreesIff(n);
    Lens64Is(m, n);
  }

  // ----- the two suites

  function Product(h: G.Block): G.Block -> G.Block {
    (x: G.Block) => Store(Mul(Load(x), Load(h)))
  }

  function Lens32(m: nat, n: nat): G.Block {
    LenBlock(BitLen32(m), BitLen32(n))
  }

  function Lens64(m: nat, n: nat): G.Block {
    LenBlock(BitLen64(m), BitLen64(n))
  }

  function Impl(aes: G.Block -> G.Block): G.Suite {
    G.Suite(aes, Product(aes(G.ZERO_BLOCK)), IncCtr, Lens32)
  }

  function Nist(aes: G.Block -> G.Block): G.Suite {
    G.Suite(aes, Product(aes(G.ZERO_BLOCK)), Inc32, Lens64)
  }

  lemma BitLenWraps(n: nat)
    ensures BitLen32(n % MOD32) == BitLen32(n)
  {}

  lemma ImplLensWrap(aes: G.Block -> G.Block)
    ensures LensWrap(Impl(aes))
  {
    var s := Impl(aes);
    forall m: nat, n: nat ensures s.lens(m % MOD32, n % MOD32) == s.lens(m, n) {
      BitLenWraps(m);
      BitLenWraps(n);
      assert s.lens(m, n) == Lens32(m, n);
      assert s.lens(m % MOD32, n % MOD32) == Lens32(m % MOD32, n % MOD32);
    }
  }

  // ----- agreement of two suites that differ in counter and lengths only

  /** room counts the increments for which the two counters stay together. */
  ghost predicate Paired(s: G.Suite, t: G.Suite, room: G.Block -> nat) {
    && s.aes == t.aes && s.mul == t.mul
    && forall b: G.Block :: PairedAt(s, t, room, b)
  }

  ghost predicate PairedAt(s: G.Suite, t: G.Suite, room: G.Block -> nat, b: G.Block) {
    && (s.inc(b) == t.inc(b) <==> room(b) > 0)
    && (room(b) > 0 ==> room(t.inc(b)) == room(b) - 1)
  }

  lemma {:induction false} GhashAgrees(s: G.Suite, t: G.Suite, y: G.Block, x: G.Bytes, n: nat)
    requires s.mul == t.mul && 16 * n <= |x|
    ensures G.GhashBlocks(s, y, x, n) == G.GhashBlocks(t, y, x, n)
  {
    if n > 0 { GhashAgrees(s, t, y, x, n - 1); }
  }

  lemma {:induction false} CounterAgrees(s: G.Suite, t: G.Suite, room: G.Block -> nat, j: G.Block, n: nat)
    requires Paired(s, t, room) && n <= room(j)
    ensures G.Counter(s, j, n) == G.Counter(t, j, n) && room(G.Counter(t, j, n)) == room(j) - n
  {
    if n > 0 {
      CounterAgrees(s, t, room, j, n - 1);
      assert PairedAt(s, t, room, G.Counter(t, j, n - 1));
    }
  }

  lemma PairedCountersIff(s: G.Suite, t: G.Suite, room: G.Block -> nat, j: G.Block, n: nat)
    requires Paired(s, t, room)
    ensures (forall i: nat :: i <= n ==> G.Counter(s, j, i) == G.Counter(t, j, i)) <==> n <= room(j)
  {
    var k := room(j);
    forall i: nat | i <= n && i <= k ensures G.Counter(s, j, i) == G.Counter(t, j, i) {
      CounterAgrees(s, t, room, j, i);
    }
    if n > k {
      CounterAgrees(s, t, room, j, k);
      assert PairedAt(s, t, room, G.Counter(t, j, k));
      assert G.Counter(s, j, k + 1) != G.Counter(t, j, k + 1);
    }
  }

  lemma {:induction false} CounterShift(s: G.Suite, j: G.Block, n: nat)
    ensures G.Counter(s, s.inc(j), n) == G.Counter(s, j, n + 1)
  {
    if n > 0 { CounterShift(s, j, n - 1); }
  }

  lemma PairedGctr(s: G.Suite, t: G.Suite, room: G.Block -> nat, j: G.Block, x: G.Bytes)
    requires Paired(s, t, room) && (|x| + 15) / 16 <= room(j)
    ensures G.Gctr(s, s.inc(j), 0, x) == G.Gctr(t, t.inc(j), 0, x)
  {
    forall i | 0 <= i < |x| ensures G.KeyByte(s, s.inc(j), i) == G.KeyByte(t, t.inc(j), i) {
      CounterAgrees(s, t, room, j, i / 16 + 1);
      CounterShift(s, j, i / 16);
      CounterShift(t, j, i / 16);
    }
  }

  lemma PairedPreCounter(s: G.Suite, t: G.Suite, room: G.Block -> nat, nonce: G.Bytes)
    requires Paired(s, t, room) && s.lens(0, |nonce|) == t.lens(0, |nonce|)
    requires |nonce| == 12 ==> room(nonce + [0, 0, 0, 0]) > 0
    ensures G.PreCounter(s, nonce) == G.PreCounter(t, nonce)
  {
    if |nonce| == 12 {
      assert PairedAt(s, t, room, nonce + [0, 0, 0, 0]);
    } else {
      var x := G.Pad(nonce) + s.lens(0, |nonce|);
      GhashAgrees(s, t, G.ZERO_BLOCK, x, |x| / 16);
    }
  }

  lemma PairedDigest(s: G.Suite, t: G.Suite, aad: G.Bytes, c: G.Bytes)
    requires s.mul == t.mul && s.lens(|aad|, |c|) == t.lens(|aad|, |c|)
    ensures G.Digest(s, aad, c) == G.Digest(t, aad, c)
  {
    var x := G.Pad(aad) + G.Pad(c) + s.lens(|aad|, |c|);
    GhashAgrees(s, t, G.ZERO_BLOCK, x, |x| / 16);
  }

  // ----- the implementation against the standard

  lemma SuitesPaired(aes: G.Block -> G.Block)
    ensures Paired(Impl(aes), Nist(aes), CtrRoom)
  {
    forall b: G.Block ensures PairedAt(Impl(aes), Nist(aes), CtrRoom, b) {
      IncAgreesIff(b);
    }
  }

  /** All counter blocks up to n agree exactly when the low word does not wrap on the way. */
  lemma CountersAgreeIff(aes: G.Block -> G.Block, j: G.Block, n: nat)
    ensures (forall i: nat :: i <= n ==> G.Counter(Impl(aes), j, i) == G.Counter(Nist(aes), j, i)) <==> n <= CtrRoom(j)
  {
    SuitesPaired(aes);
    PairedCountersIff(Impl(aes), Nist(aes), CtrRoom, j, n);
  }

  lemma LensAgree(m: nat, n: nat)
    requires m < 0x2000_0000 && n < 0x2000_0000
    ensures Lens32(m, n) == Lens64(m, n)
  {
    BitLenAgreesIff(m);
    BitLenAgreesIff(n);
  }

  /** A 96-bit nonce leaves the low word zero. */
  lemma ZeroTailRoom(b: G.Block)
    requires b[12] == b[13] == b[14] == b[15] == 0
    ensures CtrRoom(b) == 0xffff_ffff
  {
    CtrRoomIs(b);
    S.NextByte(0);
  }

  lemma NonceBlockRoom(nonce: G.Bytes)
    requires |nonce| == 12
    ensures CtrRoom(nonce + [0, 0, 0, 0]) == 0xffff_ffff
  {
    var b: G.Block := nonce + [0, 0, 0, 0];
    assert b[12] == 0 && b[13] == 0 && b[14] == 0 && b[15] == 0;
    ZeroTailRoom(b);
  }

  lemma PreCounterAgrees(aes: G.Block -> G.Block, nonce: G.Bytes)
    requires |nonce| < 0x2000_0000
    ensures G.PreCounter(Impl(aes), nonce) == G.PreCounter(Nist(aes), nonce)
  {
    SuitesPaired(aes);
    LensAgree(0, |nonce|);
    if |nonce| == 12 { NonceBlockRoom(nonce); }
    PairedPreCounter(Impl(aes), Nist(aes), CtrRoom, nonce);
  }

  /** The implementation computes the standard's ciphertext. */
  lemma CipherAgrees(aes: G.Block -> G.Block, nonce: G.Bytes, x: G.Bytes)
    requires |nonce| < 0x2000_0000
    requires (|x| + 15) / 16 <= CtrRoom(G.PreCounter(Nist(aes), nonce))
    ensures G.Cipher(Impl(aes), nonce, x) == G.Cipher(Nist(aes), nonce, x)
  {
    SuitesPaired(aes);
    PreCounterAgrees(aes, nonce);
    PairedGctr(Impl(aes), Nist(aes), CtrRoom, G.PreCounter(Nist(aes), nonce), x);
  }

  /** And the standard's tag. */
  lemma TagAgrees(aes: G.Block -> G.Block, nonce: G.Bytes, aad: G.Bytes, c: G.Bytes, tagLen: nat)
    requires |nonce| < 0x2000_0000 && |aad| < 0x2000_0000 && |c| < 0x2000_0000 && tagLen <= 16
    ensures G.Tag(Impl(aes), nonce, aad, c, tagLen) == G.Tag(Nist(aes), nonce, aad, c, tagLen)
  {
    PreCounterAgrees(aes, nonce);
    LensAgree(|aad|, |c|);
    PairedDigest(Impl(aes), Nist(aes), aad, c);
  }

  // ----- the second suite is the standard

  /** The four functions of the suite are those of the standard. */
  ghost predicate IsStandard(t: G.Suite, aes: G.Block -> G.Block, h: G.Block) {
    && t.aes == aes && h == aes(G.ZERO_BLOCK)
    && (forall b: G.Block :: t.inc(b) == S.Inc32(b))
    && (forall b: G.Block :: t.mul(b) == S.TimesBy(h)(b))
    && (forall m: nat, n: nat :: t.lens(m, n) == StandardLens(m, n))
  }

  lemma NistIsStandard(aes: G.Block -> G.Block)
    ensures IsStandard(Nist(aes), aes, aes(G.ZERO_BLOCK))
  {
    var t, h := Nist(aes), aes(G.ZERO_BLOCK);
    forall b: G.Block ensures t.inc(b) == S.Inc32(b) {
      Inc32Is(b);
    }
    forall b: G.Block ensures t.mul(b) == S.TimesBy(h)(b) {}
    forall m: nat, n: nat ensures t.lens(m, n) == StandardLens(m, n) {
      Lens64Is(m, n);
    }
  }

  lemma ZeroIs()
    ensures G.ZERO_BLOCK == S.ZeroBytes(16)
  {}

  lemma {:induction false} HashIsStandard(t: G.Suite, times: G.Block -> G.Block, x: G.Bytes, n: nat)
    requires (forall b: G.Block :: t.mul(b) == times(b)) && 16 * n <= |x|
    ensures G.GhashBlocks(t, G.ZERO_BLOCK, x, n) == S.Hash(times, x, n)
  {
    if n == 0 {
      ZeroIs();
    } else {
      HashIsStandard(t, times, x, n - 1);
      SameInput(S.Hash(times, x, n - 1), x, n - 1);
    }
  }

  lemma SameInput(y: G.Block, x: G.Bytes, n: nat)
    requires 16 * n + 16 <= |x|
    ensures G.XorBlock(y, G.BlockAt(x, n)) == S.Mixed(y, x, n)
  {}

  lemma PadIsFill(x: G.Bytes)
    ensures G.Pad(x) == x + S.Fill(|x|)
  {
    assert |x| % 16 == 0 ==> S.Fill(|x|) == [];
  }

  lemma ZeroField(n: nat)
    ensures S.BytesOf(0, n) == S.ZeroBytes(n)
  {
    forall i | 0 <= i < n ensures S.BytesOf(0, n)[i] == 0 {
      ZeroDiv(S.Pow256(n - 1 - i));
    }
  }

  lemma ZeroDiv(p: nat)
    requires p > 0
    ensures 0 / p == 0
  {}

  lemma FirstBlockIsStandard(t: G.Suite, aes: G.Block -> G.Block, h: G.Block, nonce: G.Bytes)
    requires IsStandard(t, aes, h)
    ensures G.PreCounter(t, nonce) == S.FirstBlock(aes, nonce)
  {
    if |nonce| == 12 {
      ShortNonce(nonce);
    } else {
      ZeroIs();
      var x := nonce + S.Fill(|nonce|) + S.ZeroBytes(8) + S.BytesOf(8 * |nonce|, 8);
      LongNonce(nonce, x);
      HashIsStandard(t, S.TimesBy(h), x, |x| / 16);
    }
  }

  lemma LongNonce(nonce: G.Bytes, x: G.Bytes)
    requires x == nonce + S.Fill(|nonce|) + S.ZeroBytes(8) + S.BytesOf(8 * |nonce|, 8)
    ensures G.Pad(nonce) + StandardLens(0, |nonce|) == x
  {
    PadIsFill(nonce);
    ZeroField(8);
  }

  lemma ShortNonce(nonce: G.Bytes)
    requires |nonce| == 12
    ensures S.Inc32(nonce + [0, 0, 0, 0]) == nonce + [0, 0, 0, 1]
  {
    var b: G.Block := nonce + [0, 0, 0, 0];
    S.CountsInc32(b);
    assert b[12..] == [0, 0, 0, 0] && b[..12] == nonce;
    Next4Is(0, 0, 0, 0);
  }

  lemma {:induction false} CounterIsStandard(t: G.Suite, aes: G.Block -> G.Block, h: G.Block, j: G.Block, n: nat)
    requires IsStandard(t, aes, h)
    ensures G.Counter(t, j, n) == S.CounterBlock(j, n)
  {
    if n > 0 {
      CounterIsStandard(t, aes, h, j, n - 1);
    }
  }

  lemma GctrIsStandard(t: G.Suite, aes: G.Block -> G.Block, h: G.Block, j: G.Block, x: G.Bytes)
    requires IsStandard(t, aes, h)
    ensures G.Gctr(t, j, 0, x) == S.CounterMode(aes, j, x)
  {
    forall i: nat | i < |x| ensures G.Gctr(t, j, 0, x)[i] == S.CounterMode(aes, j, x)[i] {
      CounterIsStandard(t, aes, h, j, i / 16);
      assert G.KeyByte(t, j, 0 + i) == aes(S.CounterBlock(j, i / 16))[i % 16];
    }
  }

  /** So its ciphertext is the standard's, for every input. */
  lemma CipherIsStandard(aes: G.Block -> G.Block, nonce: G.Bytes, x: G.Bytes)
    ensures G.Cipher(Nist(aes), nonce, x) == S.Ciphertext(aes, nonce, x)
  {
    NistIsStandard(aes);
    StandardCipher(Nist(aes), aes, aes(G.ZERO_BLOCK), nonce, x);
  }

  lemma StandardCipher(t: G.Suite, aes: G.Block -> G.Block, h: G.Block, nonce: G.Bytes, x: G.Bytes)
    requires IsStandard(t, aes, h)
    ensures G.Cipher(t, nonce, x) == S.Ciphertext(aes, nonce, x)
  {
    FirstBlockIsStandard(t, aes, h, nonce);
    GctrIsStandard(t, aes, h, S.Inc32(S.FirstBlock(aes, nonce)), x);
  }

  /** And so is its tag. */
  lemma TagIsStandard(aes: G.Block -> G.Block, nonce: G.Bytes, a: G.Bytes, c: G.Bytes, n: nat)
    requires n <= 16
    ensures G.Tag(Nist(aes), nonce, a, c, n) == S.Tag(aes, nonce, a, c, n)
  {
    NistIsStandard(aes);
    StandardTag(Nist(aes), aes, aes(G.ZERO_BLOCK), nonce, a, c, n);
  }

  lemma StandardTag(t: G.Suite, aes: G.Block -> G.Block, h: G.Block, nonce: G.Bytes, a: G.Bytes, c: G.Bytes, n: nat)
    requires IsStandard(t, aes, h) && n <= 16
    ensures G.Tag(t, nonce, a, c, n) == S.Tag(aes, nonce, a, c, n)
  {
    var x := a + S.Fill(|a|) + c + S.Fill(|c|) + S.BytesOf(8 * |a|, 8) + S.BytesOf(8 * |c|, 8);
    HashedInput(a, c, x);
    ZeroIs();
    HashIsStandard(t, S.TimesBy(h), x, |x| / 16);
    FirstBlockIsStandard(t, aes, h, nonce);
    MaskIsStandard(aes, S.FirstBlock(aes, nonce), S.Hash(S.TimesBy(h), x, |x| / 16), n);
  }

  lemma HashedInput(a: G.Bytes, c: G.Bytes, x: G.Bytes)
    requires x == a + S.Fill(|a|) + c + S.Fill(|c|) + S.BytesOf(8 * |a|, 8) + S.BytesOf(8 * |c|, 8)
    ensures G.Pad(a) + G.Pad(c) + StandardLens(|a|, |c|) == x
  {
    PadIsFill(a);
    PadIsFill(c);
  }

  lemma MaskIsStandard(aes: G.Block -> G.Block, j: G.Block, d: G.Block, n: nat)
    requires n <= 16
    ensures G.XorBlock(aes(j), d)[..n] == S.CounterMode(aes, j, d)[..n]
  {
    forall i | 0 <= i < 16 ensures G.XorBlock(aes(j), d)[i] == S.CounterMode(aes, j, d)[i] {
      assert S.CounterBlock(j, i / 16) == j;
      XorSwap(aes(j)[i], d[i]);
    }
  }

  lemma XorSwap(a: bv8, b: bv8)
    ensures a ^ b == b ^ a
  {}

  // ----- the streamed operations against the standard

  /** Blocks enough under this nonce, and every length below 2^29 bytes. */
  ghost predicate Within(aes: G.Block -> G.Block, nonce: G.Bytes, aad: G.Bytes, x: G.Bytes) {
    && |nonce| < 0x2000_0000 && |aad| < 0x2000_0000 && |x| < 0x2000_0000
    && (|x| + 15) / 16 <= CtrRoom(G.PreCounter(Nist(aes), nonce))
  }

  /** A 96-bit nonce has room for 2^32 - 2 blocks. */
  lemma NonceRoom(aes: G.Block -> G.Block, nonce: G.Bytes)
    requires |nonce| == 12
    ensures CtrRoom(G.PreCounter(Nist(aes), nonce)) == 0xffff_fffe
  {
    NonceBlockRoom(nonce);
    OneLess(nonce + [0, 0, 0, 0]);
    assert G.PreCounter(Nist(aes), nonce) == Inc32(nonce + [0, 0, 0, 0]);
  }

  lemma OneLess(b: G.Block)
    requires CtrRoom(b) == 0xffff_ffff
    ensures CtrRoom(Inc32(b)) == 0xffff_fffe
  {
    IncAgreesIff(b);
  }

  /** So under a 96-bit nonce the lengths alone decide. */
  lemma NonceWithin(aes: G.Block -> G.Block, nonce: G.Bytes, aad: G.Bytes, x: G.Bytes)
    requires |nonce| == 12 && |aad| < 0x2000_0000 && |x| < 0x2000_0000
    ensures Within(aes, nonce, aad, x)
  {
    NonceRoom(aes, nonce);
  }

  /** Encryption in pieces, with the implementation's counter and lengths, is the standard's. */
  method SealNist(aes: G.Block -> G.Block, inPlace: bool, nonce: G.Bytes, tagLen: nat, ps: seq<R.Piece>, xs: seq<G.Bytes>,
                  last: G.Bytes, tagRoom: nat) returns (r: Result<(G.Bytes, G.Bytes)>)
    requires Within(aes, nonce, R.JoinAad(ps), R.Join(xs) + last)
    ensures tagLen > 16 ==> r == Err(BadParameters)
    ensures tagRoom < tagLen <= 16 ==> r == Err(ShortBuffer)
    ensures tagLen <= 16 && tagLen <= tagRoom ==>
      var c := S.Ciphertext(aes, nonce, R.Join(xs) + last);
      r == Ok((c, S.Tag(aes, nonce, R.JoinAad(ps), c, tagLen)))
  {
    ImplLensWrap(aes);
    r := R.Seal(Impl(aes), inPlace, nonce, tagLen, ps, xs, last, tagRoom);
    CipherAgrees(aes, nonce, R.Join(xs) + last);
    CipherIsStandard(aes, nonce, R.Join(xs) + last);
    if tagLen <= 16 {
      TagAgrees(aes, nonce, R.JoinAad(ps), S.Ciphertext(aes, nonce, R.Join(xs) + last), tagLen);
      TagIsStandard(aes, nonce, R.JoinAad(ps), S.Ciphertext(aes, nonce, R.Join(xs) + last), tagLen);
    }
  }

  /** Decryption in pieces gives the standard's plaintext and accepts the standard's tag of what it authenticates. */
  method UnsealNist(aes: G.Block -> G.Block, inPlace: bool, nonce: G.Bytes, tagLen: nat, ps: seq<R.Piece>, cs: seq<G.Bytes>,
                    last: G.Bytes, tag: G.Bytes) returns (r: Result<G.Bytes>)
    requires Within(aes, nonce, R.JoinAad(ps), R.Join(cs) + last)
    ensures tagLen > 16 ==> r == Err(BadParameters)
    ensures tagLen <= 16 ==>
      var c := R.Authenticated(Impl(aes), inPlace, nonce, cs, last);
      && (R.WholeBlocks(cs + [last]) || !inPlace ==> c == R.Join(cs) + last)
      && r == if tag == S.Tag(aes, nonce, R.JoinAad(ps), c, tagLen) then Ok(S.Ciphertext(aes, nonce, R.Join(cs) + last))
              else Err(MacInvalid)
  {
    ImplLensWrap(aes);
    if R.WholeBlocks(cs + [last]) || !inPlace {
      R.AuthenticatedCipher(Impl(aes), inPlace, nonce, cs, last);
    }
    r := R.Unseal(Impl(aes), inPlace, nonce, tagLen, ps, cs, last, tag);
    CipherAgrees(aes, nonce, R.Join(cs) + last);
    CipherIsStandard(aes, nonce, R.Join(cs) + last);
    if tagLen <= 16 {
      TagAgrees(aes, nonce, R.JoinAad(ps), R.Authenticated(Impl(aes), inPlace, nonce, cs, last), tagLen);
      TagIsStandard(aes, nonce, R.JoinAad(ps), R.Authenticated(Impl(aes), inPlace, nonce, cs, last), tagLen);
    }
  }

  // ----- ghash_update_block, with either multiplication

  /** Both build options compute the product the suite promises. */
  method UpdateBlock(key: GhashKey, tableBased: bool, h: G.Block, y: G.Block, data: G.Block) returns (r: G.Block)
    requires key.Valid() && (tableBased ==> key.TableOf(Load(h)))
    ensures r == Product(h)(G.XorBlock(y, data))
  {
    var x := G.XorBlock(y, data);
    if tableBased {
      r := key.MultTable(x, Load(h));
    } else {
      r := GfMul(h, x);
      MulCommutative(Load(h), Load(x));
    }
  }
}
