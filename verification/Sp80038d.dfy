/**
 NIST SP 800-38D, written out on its own: integers and byte strings (section 5.2),
 inc32 (6.2), GHASH (6.4), GCTR (6.5) and authenticated encryption (7.1).  Nothing in
 it is shared with the streaming implementation but the types and the field product.
 */
module Sp80038d {
  import opened Gf128
  import opened Ghash
  import G = GcmSpec

  type Bytes = G.Bytes
  type Block = G.Block

  // ----- integers as byte strings, most significant byte first

  function Pow256(n: nat): (r: nat)
    ensures r > 0
  {
    if n == 0 then 1 else 256 * Pow256(n - 1)
  }

  /** The k bytes of v. */
  function BytesOf(v: nat, k: nat): (r: Bytes)
    ensures |r| == k
  {
    seq(k, i requires 0 <= i < k => (v / Pow256(k - 1 - i) % 256) as bv8)
  }

  /** The integer that a byte string is. */
  function IntOf(b: Bytes): nat {
    if b == [] then 0 else 256 * IntOf(b[..|b| - 1]) + b[|b| - 1] as nat
  }

  // ----- the functions of section 6

  function Inc32(x: Block): Block {
    x[..12] + BytesOf((IntOf(x[12..]) + 1) % Pow256(4), 4)
  }

  /** Product with the hash subkey, as blocks. */
  function Times(x: Block, h: Block): Block {
    Store(Mul(Load(x), Load(h)))
  }

  function TimesBy(h: Block): Block -> Block {
    (x: Block) => Times(x, h)
  }

  function ZeroBytes(n: nat): (r: Bytes)
    ensures |r| == n
  {
    seq(n, _ => 0)
  }

  /** y combined with block n of x. */
  function Mixed(y: Block, x: Bytes, n: nat): Block
    requires 16 * n + 16 <= |x|
  {
    seq(16, i requires 0 <= i < 16 => y[i] ^ x[16 * n + i])
  }

  /** The value after the first n blocks of x, with the product by the hash subkey. */
  function Hash(times: Block -> Block, x: Bytes, n: nat): Block
    requires 16 * n <= |x|
  {
    if n == 0 then ZeroBytes(16) else times(Mixed(Hash(times, x, n - 1), x, n - 1))
  }

  function CounterBlock(icb: Block, n: nat): Block {
    if n == 0 then icb else Inc32(CounterBlock(icb, n - 1))
  }

  function CounterMode(aes: Block -> Block, icb: Block, x: Bytes): (r: Bytes)
    ensures |r| == |x|
  {
    seq(|x|, i requires 0 <= i < |x| => x[i] ^ aes(CounterBlock(icb, i / 16))[i % 16])
  }

  // ----- the algorithms of section 7

  /** Zero bytes that complete the last block. */
  function Fill(len: nat): Bytes {
    ZeroBytes(16 * ((len + 15) / 16) - len)
  }

  /** The block J0 of a nonce. */
  function FirstBlock(aes: Block -> Block, iv: Bytes): Block {
    if |iv| == 12 then iv + [0, 0, 0, 1]
    else
      var x := iv + Fill(|iv|) + ZeroBytes(8) + BytesOf(8 * |iv|, 8);
      Hash(TimesBy(aes(ZeroBytes(16))), x, |x| / 16)
  }

  function Ciphertext(aes: Block -> Block, iv: Bytes, p: Bytes): (c: Bytes)
    ensures |c| == |p|
  {
    CounterMode(aes, Inc32(FirstBlock(aes, iv)), p)
  }

  /** The tag of t bytes over associated data a and ciphertext c. */
  function Tag(aes: Block -> Block, iv: Bytes, a: Bytes, c: Bytes, t: nat): (r: Bytes)
    requires t <= 16
    ensures |r| == t
  {
    var x := a + Fill(|a|) + c + Fill(|c|) + BytesOf(8 * |a|, 8) + BytesOf(8 * |c|, 8);
    CounterMode(aes, FirstBlock(aes, iv), Hash(TimesBy(aes(ZeroBytes(16))), x, |x| / 16))[..t]
  }

  // ----- integers and byte strings are inverse

  /** Bytes by repeated division. */
  function Shifted(v: nat, k: nat): (r: Bytes)
    ensures |r| == k
  {
    if k == 0 then [] else Shifted(v / 256, k - 1) + [(v % 256) as bv8]
  }

  lemma DivTwice(v: nat, m: nat)
    requires m > 0
    ensures v / 256 / m == v / (256 * m)
  {
    var q, r := v / 256, v % 256;
    var s, t := q / m, q % m;
    assert v == 256 * (m * s + t) + r;
    assert 256 * (m * s + t) + r == (256 * m) * s + (256 * t + r);
    DivIs(v, 256 * m, s, 256 * t + r);
  }

  lemma DivIs(v: nat, m: nat, q: nat, r: nat)
    requires m > 0 && r < m && v == m * q + r
    ensures v / m == q
  {
    var d := v / m;
    assert v == m * d + v % m;
    if d < q {
      Multiples(m, d, q - d - 1);
    } else if q < d {
      Multiples(m, q, d - q - 1);
    }
  }

  lemma Multiples(m: nat, a: nat, d: nat)
    ensures m * (a + 1 + d) == m * a + m + m * d && m * d >= 0
  {}

  lemma {:induction false} ShiftedIs(v: nat, k: nat)
    ensures Shifted(v, k) == BytesOf(v, k)
  {
    if k > 0 {
      ShiftedIs(v / 256, k - 1);
      LastByte(v, k);
    }
  }

  lemma LastByte(v: nat, k: nat)
    requires k > 0
    ensures BytesOf(v, k) == BytesOf(v / 256, k - 1) + [(v % 256) as bv8]
  {
    var q, r := BytesOf(v / 256, k - 1), BytesOf(v, k);
    forall i: nat | i < k - 1 ensures q[i] == r[i] {
      HigherByte(v, k, i);
    }
    assert r[k - 1] == (v / Pow256(0) % 256) as bv8;
  }

  lemma HigherByte(v: nat, k: nat, i: nat)
    requires i + 1 < k
    ensures BytesOf(v / 256, k - 1)[i] == BytesOf(v, k)[i]
  {
    var p := Pow256(k - 2 - i);
    DivTwice(v, p);
    assert Pow256(k - 1 - i) == 256 * p;
  }

  lemma ByteBack(b: bv8)
    ensures (b as nat) as bv8 == b && b as nat < 256
  {}

  lemma DivMod(q: nat, r: nat)
    requires r < 256
    ensures (256 * q + r) / 256 == q && (256 * q + r) % 256 == r
  {}

  lemma {:induction false} IntBound(b: Bytes)
    ensures IntOf(b) < Pow256(|b|)
  {
    if b != [] {
      IntBound(b[..|b| - 1]);
      ByteBack(b[|b| - 1]);
    }
  }

  lemma {:induction false} IntBack(b: Bytes)
    ensures Shifted(IntOf(b), |b|) == b
  {
    if b != [] {
      var n := |b| - 1;
      IntBack(b[..n]);
      ByteBack(b[n]);
      ShiftedMore(IntOf(b[..n]), n, b[..n], b[n] as nat, b[n]);
      LastSplit(b, n);
    }
  }

  lemma LastSplit(b: Bytes, n: nat)
    requires n + 1 == |b|
    ensures b == b[..n] + [b[n]]
  {}

  lemma ShiftedMore(q: nat, k: nat, front: Bytes, r: nat, last: bv8)
    requires r < 256 && r as bv8 == last && Shifted(q, k) == front
    ensures Shifted(256 * q + r, k + 1) == front + [last]
  {
    DivMod(q, r);
  }

  /** A byte string is determined by its integer. */
  lemma FromInt(b: Bytes)
    ensures BytesOf(IntOf(b), |b|) == b
  {
    IntBack(b);
    ShiftedIs(IntOf(b), |b|);
  }

  lemma {:induction false} ModBytes(v: nat, k: nat)
    ensures Shifted(v % Pow256(k), k) == Shifted(v, k)
  {
    if k > 0 {
      ModParts(v, Pow256(k - 1));
      ModBytes(v / 256, k - 1);
    }
  }

  lemma ModParts(v: nat, p: nat)
    requires p > 0
    ensures v % (256 * p) / 256 == v / 256 % p && v % (256 * p) % 256 == v % 256
  {
    var q, r := v / 256, v % 256;
    var s, t := q / p, q % p;
    assert v == 256 * (p * s + t) + r;
    assert 256 * (p * s + t) + r == (256 * p) * s + (256 * t + r);
    DivIs(v, 256 * p, s, 256 * t + r);
    assert v == (256 * p) * (v / (256 * p)) + v % (256 * p);
    DivMod(t, r);
  }

  // ----- counting on byte strings

  /** The carry runs over bytes that are all ones. */
  function Plus1(b: Bytes): (r: Bytes)
    ensures |r| == |b|
  {
    if b == [] then []
    else if b[|b| - 1] == 0xff then Plus1(b[..|b| - 1]) + [0]
    else b[..|b| - 1] + [b[|b| - 1] + 1]
  }

  lemma NextByte(b: bv8)
    ensures b != 0xff ==> (b + 1) as nat == b as nat + 1
    ensures (0xff as bv8) as nat == 255 && (0 as bv8) as nat == 0
  {}

  lemma {:induction false} Plus1Int(b: Bytes)
    ensures IntOf(Plus1(b)) == if IntOf(b) + 1 == Pow256(|b|) then 0 else IntOf(b) + 1
  {
    if b != [] {
      var front, last := b[..|b| - 1], b[|b| - 1];
      Plus1Int(front);
      IntBound(front);
      NextByte(last);
      ByteBack(last);
      var r := Plus1(b);
      assert r[..|b| - 1] == if last == 0xff then Plus1(front) else front;
      Limit(last);
    }
  }

  lemma Limit(b: bv8)
    ensures b as nat == 255 <==> b == 0xff
  {}

  /** Counting on the last four bytes is inc32. */
  lemma CountsInc32(x: Block)
    ensures Inc32(x) == x[..12] + Plus1(x[12..])
  {
    var d := x[12..];
    Plus1Int(d);
    IntBound(d);
    FromInt(Plus1(d));
    Wraps(IntOf(d), Pow256(4));
  }

  lemma Wraps(v: nat, p: nat)
    requires v < p
    ensures (v + 1) % p == if v + 1 == p then 0 else v + 1
  {}

  ghost predicate AllOnes(b: Bytes) {
    forall i :: 0 <= i < |b| ==> b[i] == 0xff
  }

  /** Counting on a string: on its tail, and on its head when the tail is all ones. */
  lemma Plus1Concat(x: Bytes, y: Bytes)
    ensures Plus1(x + y) == if AllOnes(y) then Plus1(x) + ZeroBytes(|y|) else x + Plus1(y)
  {
    if AllOnes(y) { CarryOut(x, y); } else { CarryIn(x, y); }
  }

  lemma Plus1Last(b: Bytes, last: bv8)
    ensures Plus1(b + [last]) == if last == 0xff then Plus1(b) + [0] else b + [last + 1]
  {
    assert (b + [last])[..|b|] == b;
  }

  lemma Assoc(x: Bytes, y: Bytes, z: Bytes)
    ensures x + y + z == x + (y + z)
  {}

  lemma {:induction false} CarryOut(x: Bytes, y: Bytes)
    requires AllOnes(y)
    ensures Plus1(x + y) == Plus1(x) + ZeroBytes(|y|)
  {
    if y == [] {
      NoBytes(x);
      NoBytes(Plus1(x));
    } else {
      var n := |y| - 1;
      var front := y[..n];
      CarryOut(x, front);
      assert y == front + [0xff];
      OneZeroMore(x, front, y, Plus1(x));
    }
  }

  lemma NoBytes(x: Bytes)
    ensures x + [] == x && x + ZeroBytes(0) == x
  {}

  lemma OneZeroMore(x: Bytes, front: Bytes, y: Bytes, p: Bytes)
    requires y == front + [0xff] && Plus1(x + front) == p + ZeroBytes(|front|)
    ensures Plus1(x + y) == p + ZeroBytes(|y|)
  {
    Assoc(x, front, [0xff]);
    Plus1Last(x + front, 0xff);
    Assoc(p, ZeroBytes(|front|), [0]);
    ZerosMore(|front|);
  }

  lemma ZerosMore(n: nat)
    ensures ZeroBytes(n) + [0] == ZeroBytes(n + 1)
  {}

  lemma {:induction false} CarryIn(x: Bytes, y: Bytes)
    requires !AllOnes(y)
    ensures Plus1(x + y) == x + Plus1(y)
  {
    var n := |y| - 1;
    var front, last := y[..n], y[n];
    assert y == front + [last];
    Assoc(x, front, [last]);
    Plus1Last(x + front, last);
    Plus1Last(front, last);
    if last == 0xff {
      OnesFront(y, n);
      CarryIn(x, front);
      Assoc(x, Plus1(front), [0]);
    } else {
      Assoc(x, front, [last + 1]);
    }
  }

  lemma OnesFront(y: Bytes, n: nat)
    requires n + 1 == |y| && y[n] == 0xff && !AllOnes(y)
    ensures !AllOnes(y[..n])
  {
    var i :| 0 <= i < |y| && y[i] != 0xff;
    assert y[..n][i] != 0xff;
  }
}
