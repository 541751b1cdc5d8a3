/**
 AES in CBC mode with ciphertext stealing (core/crypto/aes-cts.c), the CBC-CS3
 variant of section 5 of RFC 3962: the last two ciphertext blocks are swapped and
 the output is as long as the input.  The block cipher is a pair of functions.
 */
module Cts {
  import opened Common
  import opened GcmSpec
  import opened Gcm

  // ----- CBC on whole blocks

  /** The chaining value after n blocks: the n-th ciphertext block. */
  function Chain(e: Block -> Block, iv: Block, x: Bytes, n: nat): Block
    requires 16 * n <= |x|
  {
    if n == 0 then iv else e(XorBlock(BlockAt(x, n - 1), Chain(e, iv, x, n - 1)))
  }

  function CbcEnc(e: Block -> Block, iv: Block, x: Bytes): (r: Bytes)
    requires |x| % 16 == 0
    ensures |r| == |x|
  {
    seq(|x|, i requires 0 <= i < |x| => Chain(e, iv, x, i / 16 + 1)[i % 16])
  }

  /** The ciphertext block before block n. */
  function Before(iv: Block, c: Bytes, n: nat): Block
    requires 16 * n <= |c|
  {
    if n == 0 then iv else BlockAt(c, n - 1)
  }

  function CbcDec(d: Block -> Block, iv: Block, c: Bytes): (r: Bytes)
    requires |c| % 16 == 0
    ensures |r| == |c|
  {
    seq(|c|, i requires 0 <= i < |c| => XorBlock(d(BlockAt(c, i / 16)), Before(iv, c, i / 16))[i % 16])
  }

  lemma EncBlockAt(e: Block -> Block, iv: Block, x: Bytes, n: nat)
    requires |x| % 16 == 0 && 16 * n + 16 <= |x|
    ensures BlockAt(CbcEnc(e, iv, x), n) == Chain(e, iv, x, n + 1)
  {
    forall i | 0 <= i < 16 ensures BlockAt(CbcEnc(e, iv, x), n)[i] == Chain(e, iv, x, n + 1)[i] {
      assert (16 * n + i) / 16 == n && (16 * n + i) % 16 == i;
    }
  }

  lemma DecBlockAt(d: Block -> Block, iv: Block, c: Bytes, n: nat)
    requires |c| % 16 == 0 && 16 * n + 16 <= |c|
    ensures BlockAt(CbcDec(d, iv, c), n) == XorBlock(d(BlockAt(c, n)), Before(iv, c, n))
  {
    forall i | 0 <= i < 16 ensures BlockAt(CbcDec(d, iv, c), n)[i] == XorBlock(d(BlockAt(c, n)), Before(iv, c, n))[i] {
      assert (16 * n + i) / 16 == n && (16 * n + i) % 16 == i;
    }
  }

  /** Every ciphertext block encrypts its plaintext block combined with the ciphertext block before it. */
  lemma CbcChains(e: Block -> Block, iv: Block, x: Bytes, n: nat)
    requires |x| % 16 == 0 && 16 * n + 16 <= |x|
    ensures var c := CbcEnc(e, iv, x); BlockAt(c, n) == e(XorBlock(BlockAt(x, n), if n == 0 then iv else BlockAt(c, n - 1)))
  {
    EncBlockAt(e, iv, x, n);
    if n > 0 { EncBlockAt(e, iv, x, n - 1); }
  }

  lemma XorBack(a: Block, b: Block)
    ensures XorBlock(XorBlock(a, b), b) == a
  {
    forall i | 0 <= i < 16 ensures XorBlock(XorBlock(a, b), b)[i] == a[i] {
      XorTwice(a[i], b[i]);
    }
  }

  ghost predicate Inverse(e: Block -> Block, d: Block -> Block) {
    forall b: Block :: d(e(b)) == b
  }

  /** Equal blocks make equal strings. */
  lemma SameBlocks(x: Bytes, y: Bytes)
    requires |x| == |y| && |x| % 16 == 0
    requires forall n: nat :: 16 * n + 16 <= |x| ==> BlockAt(x, n) == BlockAt(y, n)
    ensures x == y
  {
    forall i | 0 <= i < |x| ensures x[i] == y[i] {
      var n := i / 16;
      assert BlockAt(x, n)[i % 16] == BlockAt(y, n)[i % 16];
    }
  }

  lemma CbcRoundTrip(e: Block -> Block, d: Block -> Block, iv: Block, x: Bytes)
    requires |x| % 16 == 0 && Inverse(e, d)
    ensures CbcDec(d, iv, CbcEnc(e, iv, x)) == x
  {
    var c := CbcEnc(e, iv, x);
    forall n: nat | 16 * n + 16 <= |x| ensures BlockAt(CbcDec(d, iv, c), n) == BlockAt(x, n) {
      DecBlockAt(d, iv, c, n);
      EncBlockAt(e, iv, x, n);
      if n > 0 { EncBlockAt(e, iv, x, n - 1); }
      XorBack(BlockAt(x, n), Chain(e, iv, x, n));
    }
    SameBlocks(CbcDec(d, iv, c), x);
  }

  // ----- ciphertext stealing

  function Blocks(len: nat): nat {
    (len + 15) / 16
  }

  /** Where byte i comes from when the last two of n blocks change places. */
  function Swapped(i: nat, n: nat): nat
    requires n >= 2
  {
    if i < 16 * (n - 2) then i else if i < 16 * (n - 1) then i + 16 else i - 16
  }

  /** The last two blocks swapped, cut to length. */
  function Steal(c: Bytes, n: nat, len: nat): (r: Bytes)
    requires n >= 2 && |c| == 16 * n && 16 * (n - 1) < len <= 16 * n
    ensures |r| == len
  {
    seq(len, i requires 0 <= i < len => c[Swapped(i, n)])
  }

  /** Encrypt the zero-padded data and steal. */
  function CtsEnc(e: Block -> Block, iv: Block, x: Bytes): (r: Bytes)
    requires Blocks(|x|) >= 2
    ensures |r| == |x|
  {
    Steal(CbcEnc(e, iv, Pad(x)), Blocks(|x|), |x|)
  }

  /** The CBC ciphertext behind a stolen one: complete the last block and swap back. */
  function Unsteal(d: Block -> Block, c: Bytes): (r: Bytes)
    requires Blocks(|c|) >= 2
    ensures |r| == 16 * Blocks(|c|)
  {
    var n := Blocks(|c|);
    var last := c[16 * (n - 1)..];
    c[..16 * (n - 2)] + (last + d(BlockAt(c, n - 2))[|last|..]) + BlockAt(c, n - 2)
  }

  function CtsDec(d: Block -> Block, iv: Block, c: Bytes): (r: Bytes)
    requires Blocks(|c|) >= 2
    ensures |r| == |c|
  {
    CbcDec(d, iv, Unsteal(d, c))[..|c|]
  }

  /** The parts of a stolen ciphertext. */
  lemma StolenParts(c: Bytes, n: nat, len: nat)
    requires n >= 2 && |c| == 16 * n && 16 * (n - 1) < len <= 16 * n
    ensures var y := Steal(c, n, len);
      && y[..16 * (n - 2)] == c[..16 * (n - 2)] && BlockAt(y, n - 2) == BlockAt(c, n - 1)
      && y[16 * (n - 1)..] == BlockAt(c, n - 2)[..len - 16 * (n - 1)]
  {
    var y := Steal(c, n, len);
    var b, k := BlockAt(c, n - 2), len - 16 * (n - 1);
    forall i | 0 <= i < k ensures y[16 * (n - 1)..][i] == b[..k][i] {
      assert y[16 * (n - 1) + i] == c[16 * (n - 2) + i];
    }
    var p, q := BlockAt(y, n - 2), BlockAt(c, n - 1);
    forall i | 0 <= i < 16 ensures p[i] == q[i] {
      assert y[16 * (n - 2) + i] == c[16 * (n - 1) + i];
    }
  }

  /**
   The layout of CBC-CS3: the leading blocks of the CBC encryption of the padded data, its last
   block, and as much of the one before that as the data fills.
   */
  lemma CtsLayout(e: Block -> Block, iv: Block, x: Bytes)
    requires Blocks(|x|) >= 2
    ensures var n, c, y := Blocks(|x|), CbcEnc(e, iv, Pad(x)), CtsEnc(e, iv, x);
      && y[..16 * (n - 2)] == c[..16 * (n - 2)] && BlockAt(y, n - 2) == BlockAt(c, n - 1)
      && y[16 * (n - 1)..] == BlockAt(c, n - 2)[..|x| - 16 * (n - 1)]
  {
    StolenParts(CbcEnc(e, iv, Pad(x)), Blocks(|x|), |x|);
  }

  /** Decrypting the last block shows the stolen bytes, because the padding is zero. */
  lemma StolenTail(e: Block -> Block, d: Block -> Block, iv: Block, x: Bytes, n: nat, k: nat)
    requires n == Blocks(|x|) >= 2 && Inverse(e, d) && |x| - 16 * (n - 1) <= k < 16
    ensures var c := CbcEnc(e, iv, Pad(x)); d(BlockAt(c, n - 1))[k] == BlockAt(c, n - 2)[k]
  {
    var p := Pad(x);
    EncBlockAt(e, iv, p, n - 1);
    EncBlockAt(e, iv, p, n - 2);
    ZeroTail(x, n, k);
    ZeroXor(BlockAt(p, n - 1), Chain(e, iv, p, n - 1), k);
  }

  lemma ZeroTail(x: Bytes, n: nat, k: nat)
    requires n == Blocks(|x|) >= 2 && |x| - 16 * (n - 1) <= k < 16
    ensures |Pad(x)| == 16 * n && BlockAt(Pad(x), n - 1)[k] == 0
  {
    PadLength(x);
    assert BlockAt(Pad(x), n - 1)[k] == Pad(x)[16 * (n - 1) + k];
  }

  lemma ZeroXor(a: Block, b: Block, k: nat)
    requires k < 16 && a[k] == 0
    ensures XorBlock(a, b)[k] == b[k]
  {}

  lemma UnstealSteals(e: Block -> Block, d: Block -> Block, iv: Block, x: Bytes)
    requires Blocks(|x|) >= 2 && Inverse(e, d)
    ensures Unsteal(d, CtsEnc(e, iv, x)) == CbcEnc(e, iv, Pad(x))
  {
    var n, c, y := Blocks(|x|), CbcEnc(e, iv, Pad(x)), CtsEnc(e, iv, x);
    StolenParts(c, n, |x|);
    StolenMiddle(e, d, iv, x, n, c, y);
    LastTwo(c, n);
  }

  lemma LastTwo(c: Bytes, n: nat)
    requires n >= 2 && |c| == 16 * n
    ensures c == c[..16 * (n - 2)] + BlockAt(c, n - 2) + BlockAt(c, n - 1)
  {}

  /** The last bytes, completed from the block before them, are block n - 2 of the CBC ciphertext. */
  lemma StolenMiddle(e: Block -> Block, d: Block -> Block, iv: Block, x: Bytes, n: nat, c: Bytes, y: Bytes)
    requires n == Blocks(|x|) >= 2 && Inverse(e, d) && c == CbcEnc(e, iv, Pad(x)) && |y| == |x|
    requires |c| == 16 * n && BlockAt(y, n - 2) == BlockAt(c, n - 1) && y[16 * (n - 1)..] == BlockAt(c, n - 2)[..|x| - 16 * (n - 1)]
    ensures var last := y[16 * (n - 1)..]; last + d(BlockAt(y, n - 2))[|last|..] == BlockAt(c, n - 2)
  {
    var last := y[16 * (n - 1)..];
    var mid := last + d(BlockAt(y, n - 2))[|last|..];
    forall k | 0 <= k < 16 ensures mid[k] == BlockAt(c, n - 2)[k] {
      if k >= |last| { StolenTail(e, d, iv, x, n, k); }
    }
  }

  /** Decryption inverts encryption for every length the code accepts. */
  lemma CtsRoundTrip(e: Block -> Block, d: Block -> Block, iv: Block, x: Bytes)
    requires Blocks(|x|) >= 2 && Inverse(e, d)
    ensures CtsDec(d, iv, CtsEnc(e, iv, x)) == x
  {
    UnstealSteals(e, d, iv, x);
    CbcRoundTrip(e, d, iv, Pad(x));
    assert Pad(x)[..|x|] == x;
  }

  // ----- after whole-block updates

  lemma {:induction false} ChainAppend(e: Block -> Block, iv: Block, a: Bytes, x: Bytes, n: nat)
    requires |a| % 16 == 0 && 16 * n <= |x|
    ensures |a| / 16 * 16 == |a| && Chain(e, iv, a + x, |a| / 16 + n) == Chain(e, Chain(e, iv, a, |a| / 16), x, n)
    decreases n
  {
    var m := |a| / 16;
    if n == 0 {
      ChainPrefix(e, iv, a, x, m);
    } else {
      ChainAppend(e, iv, a, x, n - 1);
      BlockAppend(a, x, m, n - 1);
    }
  }

  lemma {:induction false} ChainPrefix(e: Block -> Block, iv: Block, a: Bytes, x: Bytes, n: nat)
    requires 16 * n <= |a|
    ensures Chain(e, iv, a + x, n) == Chain(e, iv, a, n)
  {
    if n > 0 {
      ChainPrefix(e, iv, a, x, n - 1);
      assert BlockAt(a + x, n - 1) == BlockAt(a, n - 1);
    }
  }

  lemma ByteAppend(e: Block -> Block, iv: Block, a: Bytes, x: Bytes, k: nat)
    requires |a| % 16 == 0 && |x| % 16 == 0 && k < |x|
    ensures CbcEnc(e, iv, a + x)[|a| + k] == CbcEnc(e, Chain(e, iv, a, |a| / 16), x)[k]
  {
    var m, i := |a| / 16, |a| + k;
    assert i / 16 + 1 == m + (k / 16 + 1) && i % 16 == k % 16;
    ChainAppend(e, iv, a, x, k / 16 + 1);
  }

  lemma CbcAppend(e: Block -> Block, iv: Block, a: Bytes, x: Bytes)
    requires |a| % 16 == 0 && |x| % 16 == 0
    ensures CbcEnc(e, iv, a + x) == CbcEnc(e, iv, a) + CbcEnc(e, Chain(e, iv, a, |a| / 16), x)
  {
    var j := Chain(e, iv, a, |a| / 16);
    forall i | 0 <= i < |a| ensures CbcEnc(e, iv, a + x)[i] == CbcEnc(e, iv, a)[i] {
      ChainPrefix(e, iv, a, x, i / 16 + 1);
    }
    forall k | 0 <= k < |x| ensures CbcEnc(e, iv, a + x)[|a| + k] == CbcEnc(e, j, x)[k] {
      ByteAppend(e, iv, a, x, k);
    }
    Glue(CbcEnc(e, iv, a + x), CbcEnc(e, iv, a), CbcEnc(e, j, x));
  }

  lemma Glue(p: Bytes, q: Bytes, r: Bytes)
    requires |p| == |q| + |r|
    requires forall i :: 0 <= i < |q| ==> p[i] == q[i]
    requires forall k :: 0 <= k < |r| ==> p[|q| + k] == r[k]
    ensures p == q + r
  {
    forall i | |q| <= i < |p| ensures p[i] == r[i - |q|] {
      var k := i - |q|;
      assert p[|q| + k] == r[k];
    }
  }

  lemma PadAppend(a: Bytes, x: Bytes)
    requires |a| % 16 == 0
    ensures Pad(a + x) == a + Pad(x)
  {
    assert |a + x| % 16 == |x| % 16;
  }

  lemma PadLength(x: Bytes)
    ensures |Pad(x)| == 16 * Blocks(|x|) && |x| <= 16 * Blocks(|x|) < |x| + 16
  {}

  lemma BlocksAppend(a: Bytes, x: Bytes)
    requires |a| % 16 == 0
    ensures Blocks(|a + x|) == |a| / 16 + Blocks(|x|)
  {}

  lemma CtsEncIs(e: Block -> Block, iv: Block, y: Bytes, c: Bytes, n: nat)
    requires n == Blocks(|y|) >= 2 && c == CbcEnc(e, iv, Pad(y))
    ensures CtsEnc(e, iv, y) == Steal(c, n, |y|)
  {}

  lemma StealAppend(a: Bytes, c: Bytes, m: nat, n: nat, len: nat)
    requires n >= 2 && |a| == 16 * m && |c| == 16 * n && 16 * (n - 1) < len <= 16 * n
    ensures Steal(a + c, m + n, |a| + len) == a + Steal(c, n, len)
  {}

  /** Whole-block updates and then a last one of 17 bytes or more are one operation on everything. */
  lemma CtsAppend(e: Block -> Block, iv: Block, a: Bytes, x: Bytes)
    requires |a| % 16 == 0 && Blocks(|x|) >= 2
    ensures Blocks(|a + x|) >= 2
    ensures CtsEnc(e, iv, a + x) == CbcEnc(e, iv, a) + CtsEnc(e, Chain(e, iv, a, |a| / 16), x)
  {
    var m, n, y, j := |a| / 16, Blocks(|x|), a + x, Chain(e, iv, a, |a| / 16);
    var ca, cx := CbcEnc(e, iv, a), CbcEnc(e, j, Pad(x));
    assert CbcEnc(e, iv, Pad(y)) == ca + cx by {
      PadAppend(a, x);
      CbcAppend(e, iv, a, Pad(x));
    }
    BlocksAppend(a, x);
    PadLength(x);
    CtsEncIs(e, iv, y, ca + cx, m + n);
    CtsEncIs(e, j, x, cx, n);
    StealAppend(ca, cx, m, n, |x|);
  }

  // ----- one buffer as source and destination

  /** The length of the last block, 1 to 16. */
  function LastLen(len: nat): nat {
    if len % 16 == 0 then 16 else len % 16
  }

  /** Decryption with another block in the place of ciphertext block n - 2 at the very end. */
  function CtsDecWith(d: Block -> Block, iv: Block, c: Bytes, b: Block): (r: Bytes)
    requires Blocks(|c|) >= 2
    ensures |r| == |c|
  {
    CbcDec(d, iv, Unsteal(d, c)[..16 * (Blocks(|c|) - 1)] + b)[..|c|]
  }

  /**
   Decryption in place: by the time block n - 2 is decrypted once more, its plaintext
   stands in the buffer.
   */
  function CtsDecInPlace(d: Block -> Block, iv: Block, c: Bytes): (r: Bytes)
    requires Blocks(|c|) >= 2
    ensures |r| == |c|
  {
    CtsDecWith(d, iv, c, BlockAt(CtsDec(d, iv, c), Blocks(|c|) - 2))
  }

  lemma CtsDecIs(d: Block -> Block, iv: Block, c: Bytes)
    requires Blocks(|c|) >= 2
    ensures CtsDec(d, iv, c) == CtsDecWith(d, iv, c, BlockAt(c, Blocks(|c|) - 2))
  {
    var u, n := Unsteal(d, c), Blocks(|c|);
    assert u == u[..16 * (n - 1)] + BlockAt(c, n - 2);
  }

  /** The head and the completed block do not depend on the block at the end; the tail is its decryption. */
  lemma DecWithParts(d: Block -> Block, iv: Block, c: Bytes, b: Block)
    requires Blocks(|c|) >= 2
    ensures var n, u := Blocks(|c|), Unsteal(d, c);
      CtsDecWith(d, iv, c, b) == CbcDec(d, iv, u[..16 * (n - 1)]) + XorBlock(d(b), BlockAt(u, n - 2))[..|c| - 16 * (n - 1)]
  {
    var n, u := Blocks(|c|), Unsteal(d, c);
    var a := u[..16 * (n - 1)];
    DecAppend(d, iv, a, b);
    assert Before(iv, a, |a| / 16) == BlockAt(u, n - 2);
    DecOne(d, BlockAt(u, n - 2), b);
    CutTail(CbcDec(d, iv, a), XorBlock(d(b), BlockAt(u, n - 2)), |c| - 16 * (n - 1));
  }

  lemma CutTail(p: Bytes, q: Bytes, k: nat)
    requires k <= |q|
    ensures (p + q)[..|p| + k] == p + q[..k]
  {}

  lemma DecOne(d: Block -> Block, iv: Block, b: Block)
    ensures CbcDec(d, iv, b) == XorBlock(d(b), iv)
  {
    assert BlockAt(b, 0) == b;
  }

  lemma SameXor(a: Block, b: Block, m: Block, k: nat)
    requires k <= 16
    ensures XorBlock(a, m)[..k] == XorBlock(b, m)[..k] <==> a[..k] == b[..k]
  {
    forall i | 0 <= i < k ensures a[i] ^ m[i] == b[i] ^ m[i] <==> a[i] == b[i] {
      XorCancels(a[i], b[i], m[i]);
    }
    if XorBlock(a, m)[..k] == XorBlock(b, m)[..k] {
      forall i | 0 <= i < k ensures a[i] == b[i] {
        assert XorBlock(a, m)[..k][i] == XorBlock(b, m)[..k][i];
      }
    }
    if a[..k] == b[..k] {
      forall i | 0 <= i < k ensures XorBlock(a, m)[i] == XorBlock(b, m)[i] {
        assert a[..k][i] == b[..k][i];
      }
    }
  }

  lemma XorCancels(a: bv8, b: bv8, m: bv8)
    ensures a ^ m == b ^ m <==> a == b
  {}

  /** For one key: in place agrees exactly when the plaintext block decrypts, as far as the last block reaches, like its ciphertext. */
  lemma InPlaceDecryptsIff(d: Block -> Block, iv: Block, c: Bytes)
    requires Blocks(|c|) >= 2
    ensures var n := Blocks(|c|); var k := |c| - 16 * (n - 1);
      CtsDecInPlace(d, iv, c) == CtsDec(d, iv, c) <==>
      d(BlockAt(CtsDec(d, iv, c), n - 2))[..k] == d(BlockAt(c, n - 2))[..k]
  {
    var n, u := Blocks(|c|), Unsteal(d, c);
    var p, q, k := BlockAt(CtsDec(d, iv, c), n - 2), BlockAt(c, n - 2), |c| - 16 * (n - 1);
    CtsDecIs(d, iv, c);
    DecWithParts(d, iv, c, p);
    DecWithParts(d, iv, c, q);
    TailsAgree(CbcDec(d, iv, u[..16 * (n - 1)]), d(p), d(q), BlockAt(u, n - 2), k);
  }

  lemma TailsAgree(a: Bytes, p: Block, q: Block, m: Block, k: nat)
    requires k <= 16
    ensures a + XorBlock(p, m)[..k] == a + XorBlock(q, m)[..k] <==> p[..k] == q[..k]
  {
    SameXor(p, q, m, k);
    SameEnd(a, XorBlock(p, m)[..k], XorBlock(q, m)[..k]);
  }

  lemma SameEnd(a: Bytes, b: Bytes, c: Bytes)
    ensures a + b == a + c <==> b == c
  {
    if a + b == a + c {
      assert b == (a + b)[|a|..] == (a + c)[|a|..] == c;
    }
  }

  /** A cipher that is its own inverse. */
  function Masking(m: bv8): Block -> Block {
    (b: Block) => seq(16, i requires 0 <= i < 16 => b[i] ^ m)
  }

  lemma MaskingInverse(m: bv8)
    ensures Inverse(Masking(m), Masking(m))
  {
    forall b: Block ensures Masking(m)(Masking(m)(b)) == b {
      forall i | 0 <= i < 16 ensures Masking(m)(Masking(m)(b))[i] == b[i] {
        XorTwice(b[i], m);
      }
    }
  }

  /** Whatever the data, there is a key for which the tail of a decryption in place is wrong. */
  lemma InPlaceLosesTail(iv: Block, c: Bytes) returns (d: Block -> Block)
    requires Blocks(|c|) >= 2
    ensures Inverse(d, d) && CtsDecInPlace(d, iv, c) != CtsDec(d, iv, c)
  {
    var n := Blocks(|c|);
    var m := c[16 * (n - 1)] ^ Before(iv, c, n - 2)[0] ^ BlockAt(c, n - 2)[0] ^ 1;
    d := Masking(m);
    MaskingInverse(m);
    MaskedTail(iv, c, m, d);
    InPlaceDecryptsIff(d, iv, c);
    FirstByte(d(BlockAt(CtsDec(d, iv, c), n - 2)), d(BlockAt(c, n - 2)), |c| - 16 * (n - 1));
  }

  lemma MaskedTail(iv: Block, c: Bytes, m: bv8, d: Block -> Block)
    requires Blocks(|c|) >= 2 && d == Masking(m)
    requires var n := Blocks(|c|); m == c[16 * (n - 1)] ^ Before(iv, c, n - 2)[0] ^ BlockAt(c, n - 2)[0] ^ 1
    ensures var n := Blocks(|c|); d(BlockAt(CtsDec(d, iv, c), n - 2))[0] != d(BlockAt(c, n - 2))[0]
  {
    var n := Blocks(|c|);
    PlainBlock(d, iv, c);
    MaskDiffers(c[16 * (n - 1)], Before(iv, c, n - 2)[0], BlockAt(c, n - 2)[0]);
  }

  lemma FirstByte(a: Block, b: Block, k: nat)
    requires a[0] != b[0] && 0 < k <= 16
    ensures a[..k] != b[..k]
  {
    assert a[..k][0] != b[..k][0];
  }

  lemma MaskDiffers(t: bv8, v: bv8, w: bv8)
    ensures var m := t ^ v ^ w ^ 1; ((t ^ m) ^ v) ^ m != w ^ m
  {}

  /** Plaintext block n - 2 comes from the completed last block. */
  lemma PlainBlock(d: Block -> Block, iv: Block, c: Bytes)
    requires Blocks(|c|) >= 2
    ensures var n := Blocks(|c|);
      BlockAt(CtsDec(d, iv, c), n - 2) == XorBlock(d(BlockAt(Unsteal(d, c), n - 2)), Before(iv, c, n - 2)) &&
      BlockAt(Unsteal(d, c), n - 2)[0] == c[16 * (n - 1)]
  {
    var n, u := Blocks(|c|), Unsteal(d, c);
    DecBlockAt(d, iv, u, n - 2);
    assert BlockAt(CtsDec(d, iv, c), n - 2) == BlockAt(CbcDec(d, iv, u), n - 2);
    if n > 2 {
      assert BlockAt(u, n - 3) == BlockAt(c, n - 3);
    }
  }

  /** What an update leaves in the destination. */
  function Output(e: Block -> Block, d: Block -> Block, mode: Mode, last: bool, inPlace: bool, iv: Block, x: Bytes): (r: Bytes)
    requires if last then Blocks(|x|) >= 2 else |x| % 16 == 0
    ensures |r| == |x|
  {
    match mode
    case Encrypt => if last then CtsEnc(e, iv, x) else CbcEnc(e, iv, x)
    case Decrypt =>
      if !last then CbcDec(d, iv, x)
      else if inPlace then CtsDecInPlace(d, iv, x)
      else CtsDec(d, iv, x)
  }

  /** In place agrees under every key exactly for encryption and for updates that are not the last. */
  lemma InPlaceSafeIff(mode: Mode, last: bool, iv: Block, x: Bytes)
    requires if last then Blocks(|x|) >= 2 else |x| % 16 == 0
    ensures (forall e: Block -> Block, d: Block -> Block :: Inverse(e, d) && Inverse(d, e) ==>
               Output(e, d, mode, last, true, iv, x) == Output(e, d, mode, last, false, iv, x)) <==> mode.Encrypt? || !last
  {
    if mode.Decrypt? && last {
      var d := InPlaceLosesTail(iv, x);
      assert Output(d, d, mode, last, true, iv, x) != Output(d, d, mode, last, false, iv, x);
    }
  }

  // ----- the cipher object

  /** Source and destination are one place or two buffers. */
  ghost predicate Separate(src: array<bv8>, soff: nat, dst: array<bv8>, doff: nat) {
    src == dst ==> soff == doff
  }

  /** A CBC context and the block cipher it runs. */
  class Cipher {
    const e: Block -> Block
    const d: Block -> Block
    const mode: Mode
    var iv: Block

    constructor (enc: Block -> Block, dec: Block -> Block, m: Mode, start: Block)
      ensures e == enc && d == dec && mode == m && iv == start
    {
      e, d, mode, iv := enc, dec, m, start;
    }

    /** CBC of x in this context's mode. */
    ghost function Cbc(v: Block, x: Bytes): (r: Bytes)
      requires |x| % 16 == 0
      ensures |r| == |x|
    {
      if mode.Encrypt? then CbcEnc(e, v, x) else CbcDec(d, v, x)
    }

    ghost function Next(v: Block, x: Bytes, n: nat): Block
      requires 16 * n <= |x|
    {
      if mode.Encrypt? then Chain(e, v, x, n) else Before(v, x, n)
    }

    /** One block of cbc_encrypt or cbc_decrypt. */
    method CbcBlock(b: Block, ghost v: Block, ghost x: Bytes, ghost n: nat) returns (o: Block)
      requires |x| % 16 == 0 && 16 * n + 16 <= |x| && b == BlockAt(x, n) && iv == Next(v, x, n)
      modifies this
      ensures o == BlockAt(Cbc(v, x), n) && iv == Next(v, x, n + 1)
    {
      if mode.Encrypt? {
        EncBlockAt(e, v, x, n);
        o := e(XorBlock(b, iv));
        iv := o;
      } else {
        DecBlockAt(d, v, x, n);
        o := XorBlock(d(b), iv);
        iv := b;
      }
    }

    /** The CBC cipher underneath, on whole blocks; every block is read before it is written. */
    method CbcUpdate(src: array<bv8>, soff: nat, num: nat, dst: array<bv8>, doff: nat, ghost x: Bytes)
      requires soff + 16 * num <= src.Length && doff + 16 * num <= dst.Length && Separate(src, soff, dst, doff)
      requires |x| == 16 * num && x == src[soff..soff + 16 * num]
      modifies this, dst
      ensures Placed(old(dst[..]), doff, Cbc(old(iv), x), dst[..]) && iv == Next(old(iv), x, num)
    {
      ghost var v, d0, end := iv, dst[..], soff + |x|;
      ghost var out := Cbc(v, x);
      assert out[..0] == [] && out[..|x|] == out && src[soff..end] == x[0..];
      var n, m := 0, 0;
      while n < num
        invariant 0 <= n <= num && m == 16 * n
        invariant CbcDone(src, soff, end, dst, doff, n, m, v, x, out, d0)
      {
        CbcStep(src, soff, end, dst, doff, n, m, v, x, out, d0);
        n, m := n + 1, m + 16;
      }
    }

    /** The first n blocks, m bytes, of x are done; the others still stand in the source. */
    ghost predicate CbcDone(src: array<bv8>, soff: nat, end: nat, dst: array<bv8>, doff: nat, n: nat, m: nat, v: Block, x: Bytes,
                            out: Bytes, d0: Bytes)
      reads this, src, dst
    {
      && soff + |x| == end <= src.Length && doff + |x| <= dst.Length && m == 16 * n <= |x| == |out| && iv == Next(v, x, n)
      && Placed(d0, doff, out[..m], dst[..]) && src[soff + m..end] == x[m..]
    }

    method CbcStep(src: array<bv8>, soff: nat, ghost end: nat, dst: array<bv8>, doff: nat, ghost n: nat, m: nat, ghost v: Block,
                   ghost x: Bytes, ghost out: Bytes, ghost d0: Bytes)
      requires CbcDone(src, soff, end, dst, doff, n, m, v, x, out, d0) && Separate(src, soff, dst, doff)
      requires |x| % 16 == 0 && m + 16 <= |x| && out == Cbc(v, x)
      modifies this, dst
      ensures CbcDone(src, soff, end, dst, doff, n + 1, m + 16, v, x, out, d0)
    {
      SourceBlock(src[..], soff, end, m, x);
      var o := CbcBlock(src[soff + m..soff + m + 16], v, x, n);
      PutBlock(src, soff, end, dst, doff, m, o, x, out, d0);
    }

    static method PutBlock(src: array<bv8>, soff: nat, ghost end: nat, dst: array<bv8>, doff: nat, m: nat, o: Block, ghost x: Bytes,
                           ghost out: Bytes, ghost d0: Bytes)
      requires soff + |x| == end <= src.Length && doff + |x| <= dst.Length && Separate(src, soff, dst, doff)
      requires m + 16 <= |x| == |out| && o == out[m..m + 16]
      requires Placed(d0, doff, out[..m], dst[..]) && src[soff + m..end] == x[m..]
      modifies dst
      ensures Placed(d0, doff, out[..m + 16], dst[..]) && src[soff + m + 16..end] == x[m + 16..]
    {
      ghost var s1, d1 := src[..], dst[..];
      Copy(dst, doff + m, o);
      PlacedNext(d0, doff, out, m, m + 16, d1, dst[..]);
      RestStays(src == dst, s1, src[..], d1, dst[..], soff, doff, m, x, o);
    }

    method EncryptLast(data: array<bv8>, size: nat, dst: array<bv8>, ghost x: Bytes)
      requires mode.Encrypt? && Blocks(size) >= 2 && size <= data.Length && size <= dst.Length && x == data[..size]
      modifies this, dst
      ensures Placed(old(dst[..]), 0, CtsEnc(e, old(iv), x), dst[..])
    {
      var n, len := Blocks(size), LastLen(size);
      Shape(size);
      ghost var iv0, d0 := iv, dst[..];
      ghost var head, pad := x[..16 * (n - 1)], PaddedLast(x, n);
      var tmp := PadLast(data, size, n, x);
      CbcUpdate(data, 0, n - 1, dst, 0, head);
      ghost var c0, c1 := EncParts(e, iv0, x, head, pad, n, iv);
      FinishEncrypt(n, len, tmp, dst, pad, c0, c1, d0);
    }

    /** The last block with zeros up to a whole one. */
    static method PadLast(data: array<bv8>, size: nat, n: nat, ghost x: Bytes) returns (tmp: array<bv8>)
      requires n == Blocks(size) >= 2 && size <= data.Length && x == data[..size]
      ensures fresh(tmp) && tmp.Length == 16 && tmp[..] == PaddedLast(x, n)
    {
      Shape(size);
      tmp := new bv8[16](_ => 0);
      assert data[16 * (n - 1)..size] == x[16 * (n - 1)..];
      Copy(tmp, 0, data[16 * (n - 1)..size]);
    }

    /** Move the last whole block to the end, cut, and put the last ciphertext block in its place. */
    method FinishEncrypt(n: nat, len: nat, tmp: array<bv8>, dst: array<bv8>, ghost pad: Block, ghost c0: Bytes, ghost c1: Bytes,
                         ghost d0: Bytes)
      requires mode.Encrypt? && n >= 2 && 0 < len <= 16 && 16 * (n - 1) + len <= dst.Length
      requires tmp != dst && tmp.Length == 16 && tmp[..] == pad
      requires |c0| == 16 * (n - 1) && Placed(d0, 0, c0, dst[..]) && c1 == CbcEnc(e, iv, pad)
      modifies this, dst
      ensures Placed(d0, 0, Steal(c0 + c1, n, 16 * (n - 1) + len), dst[..])
    {
      ghost var was := dst[..];
      Copy(dst, 16 * (n - 1), dst[16 * (n - 2)..16 * (n - 2) + len]);
      ghost var mid := dst[..];
      assert tmp[0..16] == tmp[..];
      CbcUpdate(tmp, 0, 1, dst, 16 * (n - 2), pad);
      StealBytes(c0, c1, n, len, d0, was, mid, dst[..]);
    }

    method DecryptLast(data: array<bv8>, size: nat, dst: array<bv8>, ghost x: Bytes)
      requires mode.Decrypt? && Blocks(size) >= 2 && size <= data.Length && size <= dst.Length && x == data[..size]
      modifies this, dst
      ensures Placed(old(dst[..]), 0, if data == dst then CtsDecInPlace(d, old(iv), x) else CtsDec(d, old(iv), x), dst[..])
    {
      var n, len := Blocks(size), LastLen(size);
      Shape(size);
      var tmp := Complete(data, size, n, len, x);
      ghost var iv0, d0 := iv, dst[..];
      ghost var head, pad := x[..16 * (n - 2)], BlockAt(Unsteal(d, x), n - 2);
      assert head == data[0..16 * (n - 2)];
      DecryptHead(data, n, dst, tmp, head, pad);
      ghost var p := CbcDec(d, iv0, head + pad);
      ghost var b := if data == dst then BlockAt(p, n - 2) else BlockAt(x, n - 2);
      BlockRead(data == dst, x, data[..], d0, dst[..], p, n);
      DecryptTail(data, n, len, dst, tmp, pad, b, p, d0);
      InPlaceIs(d, iv0, x, data == dst, b);
    }

    /** Decrypt block n - 2 on its own and complete the last block with its tail. */
    method Complete(data: array<bv8>, size: nat, n: nat, len: nat, ghost x: Bytes) returns (tmp: array<bv8>)
      requires n == Blocks(size) >= 2 && len == LastLen(size) && size <= data.Length && x == data[..size]
      ensures fresh(tmp) && tmp.Length == 16 && tmp[..] == BlockAt(Unsteal(d, x), n - 2)
    {
      Shape(size);
      assert data[16 * (n - 2)..16 * (n - 1)] == BlockAt(x, n - 2) && data[16 * (n - 1)..size] == x[16 * (n - 1)..];
      var tmp2 := d(data[16 * (n - 2)..16 * (n - 1)]);
      tmp := new bv8[16](_ => 0);
      Copy(tmp, 0, data[16 * (n - 1)..size]);
      Copy(tmp, len, tmp2[len..]);
      assert tmp[..] == x[16 * (n - 1)..] + tmp2[len..];
      UnstealParts(d, x, n);
    }

    /** Decrypt the head, if there is one, and then the completed block. */
    method DecryptHead(data: array<bv8>, n: nat, dst: array<bv8>, tmp: array<bv8>, ghost head: Bytes, ghost pad: Block)
      requires mode.Decrypt? && n >= 2 && 16 * (n - 1) <= data.Length && 16 * (n - 1) <= dst.Length
      requires |head| == 16 * (n - 2) && head == data[0..16 * (n - 2)] && tmp != dst && tmp.Length == 16 && tmp[..] == pad
      modifies this, dst
      ensures Placed(old(dst[..]), 0, CbcDec(d, old(iv), head + pad), dst[..]) && iv == pad
    {
      ghost var d0, iv0 := dst[..], iv;
      DecryptFront(data, n, dst, head);
      ghost var mid, v := dst[..], iv;
      assert tmp[0..16] == tmp[..];
      CbcUpdate(tmp, 0, 1, dst, 16 * (n - 2), pad);
      assert BlockAt(pad, 0) == pad;
      FrontAndBlock(d, iv0, head, pad, n, v);
      PlacedMore(d0, 0, CbcDec(d, iv0, head), CbcDec(d, v, pad), mid, dst[..]);
    }

    method DecryptFront(data: array<bv8>, n: nat, dst: array<bv8>, ghost head: Bytes)
      requires mode.Decrypt? && n >= 2 && 16 * (n - 2) <= data.Length && 16 * (n - 2) <= dst.Length
      requires |head| == 16 * (n - 2) && head == data[0..16 * (n - 2)]
      modifies this, dst
      ensures Placed(old(dst[..]), 0, CbcDec(d, old(iv), head), dst[..]) && iv == Before(old(iv), head, n - 2)
    {
      if n > 2 {
        CbcUpdate(data, 0, n - 2, dst, 0, head);
      }
    }

    /** Decrypt what stands in the source at block n - 2 and cut it to the length of the last block. */
    method DecryptTail(data: array<bv8>, n: nat, len: nat, dst: array<bv8>, tmp: array<bv8>, ghost pad: Block, ghost b: Block,
                       ghost p: Bytes, ghost d0: Bytes)
      requires mode.Decrypt? && n >= 2 && 0 < len <= 16 && 16 * (n - 1) <= data.Length && 16 * (n - 1) + len <= dst.Length
      requires iv == pad && |p| == 16 * (n - 1) && Placed(d0, 0, p, dst[..])
      requires tmp != dst && tmp != data && tmp.Length == 16 && data[16 * (n - 2)..16 * (n - 2) + 16] == b
      modifies this, dst, tmp
      ensures Placed(d0, 0, p + XorBlock(d(b), pad)[..len], dst[..])
    {
      CbcUpdate(data, 16 * (n - 2), 1, tmp, 0, b);
      DecOne(d, pad, b);
      assert tmp[..] == XorBlock(d(b), pad);
      PutTail(tmp, n, len, dst, XorBlock(d(b), pad), p, d0);
    }

    static method PutTail(tmp: array<bv8>, n: nat, len: nat, dst: array<bv8>, ghost t: Block, ghost p: Bytes, ghost d0: Bytes)
      requires n >= 2 && 0 < len <= 16 && 16 * (n - 1) + len <= dst.Length && tmp.Length == 16 && tmp[..] == t
      requires |p| == 16 * (n - 1) && Placed(d0, 0, p, dst[..])
      modifies dst
      ensures Placed(d0, 0, p + t[..len], dst[..])
    {
      ghost var mid := dst[..];
      var tail := tmp[..len];
      assert tail == t[..len];
      Copy(dst, 16 * (n - 1), tail);
      PlacedMore(d0, 0, p, tail, mid, dst[..]);
    }

    method Update(last: bool, data: array<bv8>, size: nat, dst: array<bv8>, ghost x: Bytes) returns (r: Result<()>)
      requires size <= data.Length && size <= dst.Length && x == data[..size]
      modifies this, dst
      ensures r == if last then (if size <= 16 then Err(BadState) else Ok(()))
                   else (if size % 16 != 0 then Err(BadParameters) else Ok(()))
      ensures r.Err? ==> unchanged(this) && unchanged(dst)
      ensures r.Ok? ==> Placed(old(dst[..]), 0, Output(e, d, mode, last, data == dst, old(iv), x), dst[..])
      ensures r.Ok? && !last ==> iv == Next(old(iv), x, size / 16)
    {
      if !last {
        if size % 16 != 0 {
          return Err(BadParameters);
        }
        assert x == data[0..size];
        CbcUpdate(data, 0, size / 16, dst, 0, x);
        return Ok(());
      }
      if Blocks(size) < 2 {
        return Err(BadState);
      }
      if mode.Encrypt? {
        EncryptLast(data, size, dst, x);
      } else {
        DecryptLast(data, size, dst, x);
      }
      return Ok(());
    }
  }

  lemma FrontAndBlock(d: Block -> Block, iv: Block, head: Bytes, pad: Block, n: nat, v: Block)
    requires n >= 2 && |head| == 16 * (n - 2) && v == Before(iv, head, n - 2)
    ensures CbcDec(d, iv, head + pad) == CbcDec(d, iv, head) + CbcDec(d, v, pad)
  {
    DecAppend(d, iv, head, pad);
    assert |head| / 16 == n - 2;
  }

  /** Block n - 2 of the source after the head and the completed block are written. */
  lemma BlockRead(inPlace: bool, x: Bytes, src: Bytes, d0: Bytes, dst: Bytes, p: Bytes, n: nat)
    requires n == Blocks(|x|) >= 2 && |p| == 16 * (n - 1) && Placed(d0, 0, p, dst)
    requires if inPlace then src == dst else |x| <= |src| && x == src[..|x|]
    ensures 16 * (n - 1) <= |src|
    ensures src[16 * (n - 2)..16 * (n - 2) + 16] == if inPlace then BlockAt(p, n - 2) else BlockAt(x, n - 2)
  {
    Shape(|x|);
  }

  /** The two outcomes of a decryption as one. */
  lemma InPlaceIs(d: Block -> Block, iv: Block, x: Bytes, inPlace: bool, b: Block)
    requires Blocks(|x|) >= 2
    requires var n := Blocks(|x|); var p := CbcDec(d, iv, x[..16 * (n - 2)] + BlockAt(Unsteal(d, x), n - 2));
      b == if inPlace then BlockAt(p, n - 2) else BlockAt(x, n - 2)
    ensures var n := Blocks(|x|); var pad := BlockAt(Unsteal(d, x), n - 2);
      CbcDec(d, iv, x[..16 * (n - 2)] + pad) + XorBlock(d(b), pad)[..LastLen(|x|)] ==
      if inPlace then CtsDecInPlace(d, iv, x) else CtsDec(d, iv, x)
  {
    var n := Blocks(|x|);
    Shape(|x|);
    UnstealParts(d, x, n);
    DecWithParts(d, iv, x, b);
    CtsDecIs(d, iv, x);
    DecWithParts(d, iv, x, BlockAt(x, n - 2));
    var p := CbcDec(d, iv, x[..16 * (n - 2)] + BlockAt(Unsteal(d, x), n - 2));
    assert CtsDec(d, iv, x)[..16 * (n - 1)] == p;
    assert BlockAt(CtsDec(d, iv, x), n - 2) == BlockAt(p, n - 2);
  }

  lemma Shape(len: nat)
    requires Blocks(len) >= 2
    ensures len > 16 && 0 < LastLen(len) <= 16 && len == 16 * (Blocks(len) - 1) + LastLen(len)
  {}

  lemma UnstealParts(d: Block -> Block, x: Bytes, n: nat)
    requires n == Blocks(|x|) >= 2
    ensures Unsteal(d, x)[..16 * (n - 1)] == x[..16 * (n - 2)] + BlockAt(Unsteal(d, x), n - 2)
    ensures BlockAt(Unsteal(d, x), n - 2) == x[16 * (n - 1)..] + d(BlockAt(x, n - 2))[LastLen(|x|)..]
  {
    Shape(|x|);
  }

  function PaddedLast(x: Bytes, n: nat): Block
    requires n == Blocks(|x|) >= 2
  {
    Shape(|x|);
    x[16 * (n - 1)..] + seq(16 - LastLen(|x|), _ => 0)
  }

  lemma SourceBlock(s: Bytes, soff: nat, end: nat, m: nat, x: Bytes)
    requires m + 16 <= |x| && soff + |x| == end <= |s| && s[soff + m..end] == x[m..]
    ensures s[soff + m..soff + m + 16] == x[m..m + 16]
  {
    assert s[soff + m..end][..16] == s[soff + m..soff + m + 16];
  }

  /** The padded data is the head and the completed block. */
  lemma EncParts(e: Block -> Block, iv: Block, x: Bytes, head: Bytes, pad: Block, n: nat, v: Block) returns (c0: Bytes, c1: Bytes)
    requires n == Blocks(|x|) >= 2 && head == x[..16 * (n - 1)] && pad == PaddedLast(x, n) && v == Chain(e, iv, head, n - 1)
    ensures |head| % 16 == 0 && c0 == CbcEnc(e, iv, head) && c1 == CbcEnc(e, v, pad)
    ensures CtsEnc(e, iv, x) == Steal(c0 + c1, n, |x|)
  {
    assert Pad(x) == head + pad;
    c0, c1 := CbcEnc(e, iv, head), CbcEnc(e, v, pad);
    CbcAppend(e, iv, head, pad);
  }

  /** Writing a block leaves what follows it in the source. */
  lemma RestStays(inPlace: bool, s0: Bytes, s1: Bytes, d0: Bytes, d1: Bytes, soff: nat, doff: nat, m: nat, x: Bytes, o: Block)
    requires if inPlace then s0 == d0 && s1 == d1 && soff == doff else s0 == s1
    requires m + 16 <= |x| && soff + |x| <= |s0| && Placed(d0, doff + m, o, d1) && s0[soff + m..soff + |x|] == x[m..]
    ensures |s1| == |s0| && s1[soff + m + 16..soff + |x|] == x[m + 16..]
  {
    forall i | m + 16 <= i < |x| ensures s1[soff + i] == x[i] {
      assert s0[soff + m..soff + |x|][i - m] == x[m..][i - m];
    }
  }

  lemma DecAppend(d: Block -> Block, iv: Block, a: Bytes, x: Bytes)
    requires |a| % 16 == 0 && |x| % 16 == 0
    ensures CbcDec(d, iv, a + x) == CbcDec(d, iv, a) + CbcDec(d, Before(iv, a, |a| / 16), x)
  {
    var c := a + x;
    forall i | 0 <= i < |a| ensures CbcDec(d, iv, c)[i] == CbcDec(d, iv, a)[i] {
      assert BlockAt(c, i / 16) == BlockAt(a, i / 16) && Before(iv, c, i / 16) == Before(iv, a, i / 16);
    }
    forall k | 0 <= k < |x| ensures CbcDec(d, iv, c)[|a| + k] == CbcDec(d, Before(iv, a, |a| / 16), x)[k] {
      DecByte(d, iv, a, x, k);
    }
  }

  lemma DecByte(d: Block -> Block, iv: Block, a: Bytes, x: Bytes, k: nat)
    requires |a| % 16 == 0 && |x| % 16 == 0 && k < |x|
    ensures CbcDec(d, iv, a + x)[|a| + k] == CbcDec(d, Before(iv, a, |a| / 16), x)[k]
  {
    var m, n, c := |a| / 16, k / 16, a + x;
    assert (|a| + k) / 16 == m + n && (|a| + k) % 16 == k % 16;
    BlockAppend(a, x, m, n);
    BeforeAppend(iv, a, x, m, n);
  }

  lemma BlockAppend(a: Bytes, x: Bytes, m: nat, n: nat)
    requires |a| == 16 * m && 16 * n + 16 <= |x|
    ensures BlockAt(a + x, m + n) == BlockAt(x, n)
  {
    forall i | 0 <= i < 16 ensures BlockAt(a + x, m + n)[i] == BlockAt(x, n)[i] {
      assert (a + x)[16 * (m + n) + i] == x[16 * n + i];
    }
  }

  lemma BeforeAppend(iv: Block, a: Bytes, x: Bytes, m: nat, n: nat)
    requires |a| == 16 * m && 16 * n <= |x|
    ensures Before(iv, a + x, m + n) == Before(Before(iv, a, m), x, n)
  {
    if n > 0 {
      BlockAppend(a, x, m, n - 1);
    } else if m > 0 {
      BlockPrefix(a, x, m - 1);
    }
  }

  lemma BlockPrefix(a: Bytes, x: Bytes, n: nat)
    requires 16 * n + 16 <= |a|
    ensures BlockAt(a + x, n) == BlockAt(a, n)
  {}

  /** Decryption too does not see where the whole-block updates were cut. */
  lemma CtsDecAppend(d: Block -> Block, iv: Block, a: Bytes, c: Bytes)
    requires |a| % 16 == 0 && Blocks(|c|) >= 2
    ensures Blocks(|a + c|) >= 2
    ensures CtsDec(d, iv, a + c) == CbcDec(d, iv, a) + CtsDec(d, Before(iv, a, |a| / 16), c)
  {
    UnstealAppend(d, a, c);
    DecAppend(d, iv, a, Unsteal(d, c));
  }

  lemma UnstealAppend(d: Block -> Block, a: Bytes, c: Bytes)
    requires |a| % 16 == 0 && Blocks(|c|) >= 2
    ensures Blocks(|a + c|) == |a| / 16 + Blocks(|c|) && Unsteal(d, a + c) == a + Unsteal(d, c)
  {
    var m, n, x := |a| / 16, Blocks(|c|), a + c;
    assert Blocks(|x|) == m + n;
    assert x[16 * (m + n - 1)..] == c[16 * (n - 1)..];
    assert BlockAt(x, m + n - 2) == BlockAt(c, n - 2);
    assert x[..16 * (m + n - 2)] == a + c[..16 * (n - 2)];
  }

  lemma StealBytes(c0: Bytes, c1: Bytes, n: nat, len: nat, d0: Bytes, was: Bytes, mid: Bytes, after: Bytes)
    requires n >= 2 && 0 < len <= 16 && |c0| == 16 * (n - 1) && |c1| == 16 && 16 * (n - 1) + len <= |was| && Placed(d0, 0, c0, was)
    requires Placed(was, 16 * (n - 1), was[16 * (n - 2)..16 * (n - 2) + len], mid) && Placed(mid, 16 * (n - 2), c1, after)
    ensures Placed(d0, 0, Steal(c0 + c1, n, 16 * (n - 1) + len), after)
  {
    forall i | 0 <= i < 16 * (n - 1) + len ensures after[i] == (c0 + c1)[Swapped(i, n)] {
      if i >= 16 * (n - 1) {
        assert mid[i] == was[i - 16] == c0[i - 16];
      }
    }
  }
}
