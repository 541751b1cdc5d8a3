/**
 Galois/Counter mode as NIST SP 800-38D defines it: GHASH (section 6.4), GCTR
 (section 6.5), and authenticated encryption and decryption (sections 7.1 and 7.2),
 stated on whole inputs.  The block cipher, the product with the hash key, the
 counter increment and the length block are a suite of functions, so that one
 definition serves the standard and the implementation.
 */
module GcmSpec {
  type Bytes = seq<bv8>

  type Block = b: Bytes | |b| == 16 witness seq(16, _ => 0)

  const ZERO_BLOCK: Block := seq(16, _ => 0)

  datatype Suite = Suite(
    aes: Block -> Block,          // the forward cipher under the key
    mul: Block -> Block,          // product with the hash subkey
    inc: Block -> Block,          // counter increment
    lens: (nat, nat) -> Block     // length block of two byte counts
  )

  function XorBytes(a: Bytes, b: Bytes): (r: Bytes)
    requires |a| <= |b|
    ensures |r| == |a| && forall i :: 0 <= i < |a| ==> r[i] == a[i] ^ b[i]
  {
    seq(|a|, i requires 0 <= i < |a| => a[i] ^ b[i])
  }

  function XorBlock(a: Block, b: Block): Block {
    XorBytes(a, b)
  }

  // ----- GHASH

  /** Block n of a byte string. */
  function BlockAt(x: Bytes, n: nat): Block
    requires 16 * n + 16 <= |x|
  {
    x[16 * n..16 * n + 16]
  }

  /** GHASH of the first n blocks of x, from y. */
  function GhashBlocks(s: Suite, y: Block, x: Bytes, n: nat): Block
    requires 16 * n <= |x|
  {
    if n == 0 then y else s.mul(XorBlock(GhashBlocks(s, y, x, n - 1), BlockAt(x, n - 1)))
  }

  function Ghash(s: Suite, y: Block, x: Bytes): Block
    requires |x| % 16 == 0
  {
    GhashBlocks(s, y, x, |x| / 16)
  }

  lemma {:induction false} GhashPrefix(s: Suite, y: Block, x: Bytes, z: Bytes, n: nat)
    requires 16 * n <= |x|
    ensures GhashBlocks(s, y, x + z, n) == GhashBlocks(s, y, x, n)
  {
    if n > 0 {
      GhashPrefix(s, y, x, z, n - 1);
      assert BlockAt(x + z, n - 1) == BlockAt(x, n - 1);
    }
  }

  lemma {:induction false} GhashSuffix(s: Suite, y: Block, x: Bytes, z: Bytes, m: nat, n: nat)
    requires |x| == 16 * m && 16 * n <= |z|
    ensures GhashBlocks(s, y, x + z, m + n) == GhashBlocks(s, GhashBlocks(s, y, x, m), z, n)
    decreases n
  {
    if n == 0 {
      GhashPrefix(s, y, x, z, m);
    } else {
      GhashSuffix(s, y, x, z, m, n - 1);
      assert BlockAt(x + z, m + (n - 1)) == BlockAt(z, n - 1);
    }
  }

  lemma GhashConcat(s: Suite, y: Block, x: Bytes, z: Bytes)
    requires |x| % 16 == 0 && |z| % 16 == 0
    ensures Ghash(s, y, x + z) == Ghash(s, Ghash(s, y, x), z)
  {
    GhashSuffix(s, y, x, z, |x| / 16, |z| / 16);
    assert |x + z| / 16 == |x| / 16 + |z| / 16;
  }

  lemma GhashOne(s: Suite, y: Block, d: Block)
    ensures Ghash(s, y, d) == s.mul(XorBlock(y, d))
  {
    assert BlockAt(d, 0) == d;
    assert GhashBlocks(s, y, d, 1) == s.mul(XorBlock(GhashBlocks(s, y, d, 0), d));
  }

  /** Zero bytes up to the next block boundary. */
  function Pad(x: Bytes): (r: Bytes)
    ensures |r| % 16 == 0 && x <= r
  {
    if |x| % 16 == 0 then x else x + seq(16 - |x| % 16, _ => 0)
  }

  // ----- GCTR

  function Counter(s: Suite, c: Block, n: nat): Block {
    if n == 0 then c else s.inc(Counter(s, c, n - 1))
  }

  function KeyBlock(s: Suite, c: Block, n: nat): Block {
    s.aes(Counter(s, c, n))
  }

  /** Byte i of the key stream that starts at counter block c. */
  function KeyByte(s: Suite, c: Block, i: nat): bv8 {
    KeyBlock(s, c, i / 16)[i % 16]
  }

  /** Bytes x placed at position p of the stream, combined with the key stream. */
  function Gctr(s: Suite, c: Block, p: nat, x: Bytes): (r: Bytes)
    ensures |r| == |x|
  {
    seq(|x|, i requires 0 <= i < |x| => x[i] ^ KeyByte(s, c, p + i))
  }

  lemma GctrConcat(s: Suite, c: Block, p: nat, x: Bytes, y: Bytes)
    ensures Gctr(s, c, p, x + y) == Gctr(s, c, p, x) + Gctr(s, c, p + |x|, y)
  {
    forall i | 0 <= i < |x + y|
      ensures Gctr(s, c, p, x + y)[i] == (Gctr(s, c, p, x) + Gctr(s, c, p + |x|, y))[i]
    {
      if i >= |x| {
        assert (x + y)[i] == y[i - |x|] && p + i == p + |x| + (i - |x|);
      }
    }
  }

  lemma XorTwice(a: bv8, b: bv8)
    ensures (a ^ b) ^ b == a
  {}

  lemma GctrTwice(s: Suite, c: Block, p: nat, x: Bytes)
    ensures Gctr(s, c, p, Gctr(s, c, p, x)) == x
  {
    forall i | 0 <= i < |x| ensures Gctr(s, c, p, Gctr(s, c, p, x))[i] == x[i] {
      XorTwice(x[i], KeyByte(s, c, p + i));
    }
  }

  // ----- the mode

  /** The pre-counter block J0. */
  function PreCounter(s: Suite, nonce: Bytes): Block {
    if |nonce| == 12 then s.inc(nonce + [0, 0, 0, 0])
    else Ghash(s, ZERO_BLOCK, Pad(nonce) + s.lens(0, |nonce|))
  }

  function Cipher(s: Suite, nonce: Bytes, x: Bytes): (r: Bytes)
    ensures |r| == |x|
  {
    Gctr(s, s.inc(PreCounter(s, nonce)), 0, x)
  }

  /**
   Associated data as a state may have taken it in: the bytes that were hashed and
   the number of bytes that were counted.
   */
  datatype Assoc = Assoc(bytes: Bytes, count: nat)

  function AssocOf(aad: Bytes): Assoc {
    Assoc(aad, |aad|)
  }

  function DigestOf(s: Suite, a: Assoc, cipher: Bytes): Block {
    Ghash(s, ZERO_BLOCK, Pad(a.bytes) + Pad(cipher) + s.lens(a.count, |cipher|))
  }

  function TagOf(s: Suite, nonce: Bytes, a: Assoc, cipher: Bytes, tagLen: nat): (t: Bytes)
    requires tagLen <= 16
    ensures |t| == tagLen
  {
    XorBlock(s.aes(PreCounter(s, nonce)), DigestOf(s, a, cipher))[..tagLen]
  }

  function Digest(s: Suite, aad: Bytes, cipher: Bytes): Block {
    DigestOf(s, AssocOf(aad), cipher)
  }

  function Tag(s: Suite, nonce: Bytes, aad: Bytes, cipher: Bytes, tagLen: nat): (t: Bytes)
    requires tagLen <= 16
    ensures |t| == tagLen
  {
    TagOf(s, nonce, AssocOf(aad), cipher, tagLen)
  }

  /** Decryption of the ciphertext is the payload. */
  lemma RoundTrip(s: Suite, nonce: Bytes, payload: Bytes)
    ensures Cipher(s, nonce, Cipher(s, nonce, payload)) == payload
  {
    GctrTwice(s, s.inc(PreCounter(s, nonce)), 0, payload);
  }
}
