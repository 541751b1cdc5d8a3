/**
 The streaming AES-GCM of core/crypto/aes-gcm.c and core/crypto/aes-gcm-sw.c: one
 state object fed with chunks of any size.  Encryption keeps the next key stream
 block ready in bufCryp; decryption computes it when a block starts.
 */
module Gcm {
  import opened Common
  import opened GcmSpec

  datatype Mode = Encrypt | Decrypt

  const MOD32: nat := 0x1_0000_0000

  // ----- byte buffers

  method XorBuf(a: array<bv8>, off: nat, x: Bytes)
    requires off + |x| <= a.Length
    modifies a
    ensures forall i :: 0 <= i < a.Length ==>
      a[i] == if off <= i < off + |x| then old(a[i]) ^ x[i - off] else old(a[i])
  {
    var n := 0;
    while n < |x|
      invariant 0 <= n <= |x|
      invariant forall i :: 0 <= i < a.Length ==>
        a[i] == if off <= i < off + n then old(a[i]) ^ x[i - off] else old(a[i])
    {
      a[off + n] := a[off + n] ^ x[n];
      n := n + 1;
    }
  }

  method Copy(a: array<bv8>, off: nat, x: Bytes)
    requires off + |x| <= a.Length
    modifies a
    ensures Placed(old(a[..]), off, x, a[..])
  {
    forall i | off <= i < off + |x| {
      a[i] := x[i - off];
    }
  }

  lemma AddWraps(m: nat, n: nat)
    ensures (m % MOD32 + n) % MOD32 == (m + n) % MOD32
  {}

  lemma WrapsToZero(n: nat)
    ensures n % MOD32 == 0 ==> n % 16 == 0
  {}

  lemma BlocksEnd(n: nat, q: nat)
    requires q == n / 16
    ensures n - 16 < 16 * q <= n && 16 * q % 16 == 0
  {}

  function Whole(n: nat): nat {
    n - n % 16
  }

  /** What has been hashed and what waits in the buffer, for a stream x. */
  ghost predicate Buffered(s: Suite, y0: Block, x: Bytes, y: Block, buf: Bytes, pos: nat) {
    && |buf| == 16 && pos == |x| % 16
    && y == Ghash(s, y0, x[..Whole(|x|)])
    && buf[..pos] == x[Whole(|x|)..]
  }

  /** The unused bytes of the current key block. */
  ghost predicate KeyReady(s: Suite, j: Block, n: nat, cryp: Bytes)
    requires |cryp| == 16
  {
    forall k :: n % 16 <= k < 16 ==> cryp[k] == KeyBlock(s, j, n / 16)[k]
  }

  /** The key stream position after n payload bytes. */
  ghost predicate Keyed(s: Suite, mode: Mode, j: Block, n: nat, ctr: Block, cryp: Bytes) {
    && |cryp| == 16
    && ctr == Counter(s, j, n / 16 + if mode.Encrypt? then 1 else 0)
    && (mode.Encrypt? || n % 16 > 0 ==> KeyReady(s, j, n, cryp))
  }

  class State {
    const suite: Suite
    var ctr: Block
    var hashState: Block
    const bufTag: array<bv8>
    const bufHash: array<bv8>
    const bufCryp: array<bv8>
    var tagLen: nat
    var aadBytes: nat
    var payloadBytes: nat
    var bufPos: nat

    ghost predicate Valid()
      reads this
    {
      && bufTag.Length == bufHash.Length == bufCryp.Length == 16
      && bufTag != bufHash && bufTag != bufCryp && bufHash != bufCryp
      && tagLen <= 16
    }

    constructor (s: Suite)
      ensures Valid() && suite == s && fresh(bufTag) && fresh(bufHash) && fresh(bufCryp)
    {
      suite, ctr, hashState := s, ZERO_BLOCK, ZERO_BLOCK;
      bufTag := new bv8[16](_ => 0);
      bufHash := new bv8[16](_ => 0);
      bufCryp := new bv8[16](_ => 0);
      tagLen, aadBytes, payloadBytes, bufPos := 0, 0, 0, 0;
    }

    /** Associated data a absorbed, no payload counted. */
    ghost predicate AadRep(a: Assoc)
      reads this, bufHash
    {
      && Valid() && payloadBytes == 0 && aadBytes == a.count % MOD32
      && Buffered(suite, ZERO_BLOCK, a.bytes, hashState, bufHash[..], bufPos)
    }

    /** Associated data a closed and ciphertext c absorbed. */
    ghost predicate PayRep(a: Assoc, c: Bytes)
      reads this, bufHash
    {
      && Valid() && payloadBytes == |c| % MOD32 && aadBytes == a.count % MOD32
      && Buffered(suite, Ghash(suite, ZERO_BLOCK, Pad(a.bytes)), c, hashState, bufHash[..], bufPos)
    }

    /**
     With no payload bytes counted, after an empty payload call or a multiple of 2^32
     bytes, the state takes associated data again: as if what was hashed so far,
     padding included, had been associated data.
     */
    lemma AcceptsAadAgain(a: Assoc, c: Bytes)
      requires PayRep(a, c) && payloadBytes == 0
      ensures AadRep(Assoc(Pad(a.bytes) + c, a.count))
    {
      WrapsToZero(|c|);
      assert c[..Whole(|c|)] == c;
      GhashConcat(suite, ZERO_BLOCK, Pad(a.bytes), c);
      BufferWhole(suite, ZERO_BLOCK, Pad(a.bytes) + c, hashState, bufHash[..]);
    }

    ghost predicate KeyRep(mode: Mode, j: Block, n: nat)
      reads this, bufCryp
    {
      Valid() && Keyed(suite, mode, j, n, ctr, bufCryp[..])
    }

    // ----- internal_aes_gcm_ghash_update

    method GhashBlock(d: Block)
      modifies `hashState
      ensures hashState == suite.mul(XorBlock(old(hashState), d))
    {
      hashState := suite.mul(XorBlock(hashState, d));
    }

    method GhashUpdate(head: Option<Block>, data: Bytes)
      requires |data| % 16 == 0
      modifies `hashState
      ensures hashState == Ghash(suite, old(hashState), HeadBytes(head) + data)
    {
      ghost var y0 := hashState;
      if head.Some? {
        GhashOne(suite, y0, head.value);
        GhashBlock(head.value);
      }
      GhashBlocks(data);
      GhashConcat(suite, y0, HeadBytes(head), data);
    }

    method GhashHead(d: Block)
      modifies `hashState
      ensures hashState == Ghash(suite, old(hashState), d)
    {
      assert d + [] == d;
      GhashUpdate(Some(d), []);
    }

    method GhashBlocks(data: Bytes)
      requires |data| % 16 == 0
      modifies `hashState
      ensures hashState == Ghash(suite, old(hashState), data)
    {
      ghost var y := hashState;
      var n := 0;
      while n < |data| / 16
        invariant 0 <= n <= |data| / 16
        invariant hashState == Ghash(suite, y, data[..16 * n])
      {
        GhashNext(suite, y, data, 16 * n);
        GhashBlock(data[16 * n..16 * n + 16]);
        n := n + 1;
      }
      assert data[..16 * n] == data;
    }

    // ----- __gcm_update_aad

    /** Put bytes after those waiting in bufHash. */
    method Fill(d: Bytes, ghost y0: Block, ghost x: Bytes) returns (full: bool)
      requires Buffered(suite, y0, x, hashState, bufHash[..], bufPos) && bufPos + |d| <= 16
      modifies `bufPos, bufHash
      ensures full <==> old(bufPos) + |d| == 16
      ensures !full ==> Buffered(suite, y0, x + d, hashState, bufHash[..], bufPos)
      ensures full ==> bufPos == 0 && FullBlock(suite, y0, x + d, hashState, bufHash[..])
    {
      ghost var b, pos := bufHash[..], bufPos;
      Copy(bufHash, bufPos, d);
      bufPos := bufPos + |d|;
      full := bufPos == 16;
      if full {
        bufPos := 0;
        BufferFull(suite, y0, x, hashState, b, pos, d, bufHash[..]);
      } else {
        BufferMore(suite, y0, x, hashState, b, pos, d, bufHash[..]);
      }
    }

    /** Hash the full buffer, when there is one, and then whole blocks. */
    method HashRun(head: bool, data: Bytes, ghost y0: Block, ghost x: Bytes)
      requires |data| % 16 == 0 && bufPos == 0
      requires if head then FullBlock(suite, y0, x, hashState, bufHash[..])
               else Buffered(suite, y0, x, hashState, bufHash[..], 0)
      modifies `hashState
      ensures Buffered(suite, y0, x + data, hashState, bufHash[..], 0)
    {
      ghost var y := hashState;
      GhashUpdate(if head then Some(bufHash[..]) else None, data);
      if head {
        RunAfterHead(suite, y0, x, y, bufHash[..], data, hashState);
      } else {
        RunAfterNone(suite, y0, x, y, bufHash[..], data, hashState);
      }
    }

    /** addr is the address of the data; the pointer test of the source looks at it. */
    method UpdateAad(data: Bytes, addr: nat, ghost a: Assoc) returns (r: Result<()>)
      requires Valid() && (payloadBytes == 0 ==> AadRep(a))
      modifies `hashState, `aadBytes, `bufPos, bufHash
      ensures r == if payloadBytes != 0 then Err(BadParameters) else Ok(())
      ensures r.Err? ==> unchanged(this) && unchanged(bufHash)
      ensures r.Ok? ==> AadRep(Assoc(a.bytes + data, a.count + |data|))
    {
      if payloadBytes != 0 {
        return Err(BadParameters);
      }
      aadBytes := (aadBytes + |data|) % MOD32;
      AddWraps(a.count, |data|);
      AbsorbAad(data, addr, a.bytes);
      return Ok(());
    }

    method AbsorbAad(data: Bytes, addr: nat, ghost a: Bytes)
      requires Valid() && Buffered(suite, ZERO_BLOCK, a, hashState, bufHash[..], bufPos)
      modifies `hashState, `bufPos, bufHash
      ensures Buffered(suite, ZERO_BLOCK, a + data, hashState, bufHash[..], bufPos)
    {
      var k := 0;
      var head := false;
      Fed0(a, data);
      while k < |data|
        invariant 0 <= k <= |data|
        invariant Buffered(suite, ZERO_BLOCK, Fed(a, data, k), hashState, bufHash[..], bufPos)
        invariant head ==> bufPos == 0 && (|data| - k < 16 || !Aligned(addr + k))
      {
        if bufPos != 0 || !Aligned(addr + k) || |data| - k < 16 {
          k, head := FillFrom(data, k, a);
          if !head {
            break;
          }
        }
        k := RunAligned(head, data, addr, k, a);
      }
    }

    method FillFrom(data: Bytes, k: nat, ghost a: Bytes) returns (k2: nat, full: bool)
      requires Valid() && k < |data|
      requires Buffered(suite, ZERO_BLOCK, Fed(a, data, k), hashState, bufHash[..], bufPos)
      modifies `bufPos, bufHash
      ensures k < k2 <= |data| && (full || k2 == |data|)
      ensures !full ==> Buffered(suite, ZERO_BLOCK, Fed(a, data, k2), hashState, bufHash[..], bufPos)
      ensures full ==> bufPos == 0 && FullBlock(suite, ZERO_BLOCK, Fed(a, data, k2), hashState, bufHash[..])
    {
      var n := Min(16 - bufPos, |data| - k);
      k2 := k + n;
      FedMore(a, data, k, k2);
      full := Fill(data[k..k2], ZERO_BLOCK, Fed(a, data, k));
    }

    method RunAligned(head: bool, data: Bytes, addr: nat, k: nat, ghost a: Bytes) returns (k2: nat)
      requires Valid() && k <= |data| && bufPos == 0
      requires if head then FullBlock(suite, ZERO_BLOCK, Fed(a, data, k), hashState, bufHash[..])
               else Buffered(suite, ZERO_BLOCK, Fed(a, data, k), hashState, bufHash[..], 0)
      requires !head ==> Aligned(addr + k) && k + 16 <= |data|
      modifies `hashState
      ensures k <= k2 <= |data| && (head || k < k2)
      ensures |data| - k2 < 16 || !Aligned(addr + k2)
      ensures Buffered(suite, ZERO_BLOCK, Fed(a, data, k2), hashState, bufHash[..], 0)
    {
      var m := if Aligned(addr + k) then (|data| - k) / 16 else 0;
      k2 := k + 16 * m;
      FedMore(a, data, k, k2);
      AlignedAfter(addr + k, m);
      HashRun(head, data[k..k2], ZERO_BLOCK, Fed(a, data, k));
    }

    // ----- __gcm_update_payload

    /** The first payload call pads the associated data to a whole block. */
    method CloseAad(ghost a: Assoc, ghost c: Bytes)
      requires (AadRep(a) && c == []) || PayRep(a, c)
      modifies `hashState, `bufPos, bufHash
      ensures PayRep(a, c)
    {
      WrapsToZero(|c|);
      if payloadBytes == 0 && bufPos != 0 {
        PadAad(a);
      } else if c == [] && AadRep(a) {
        AlreadyPadded(a);
      }
    }

    method PadAad(ghost a: Assoc)
      requires AadRep(a) && bufPos != 0
      modifies `hashState, `bufPos, bufHash
      ensures PayRep(a, [])
    {
      var z: Bytes := seq(16 - bufPos, _ => 0);
      var full := Fill(z, ZERO_BLOCK, a.bytes);
      assert Pad(a.bytes) == a.bytes + z;
      GhashHead(bufHash[..]);
    }

    lemma AlreadyPadded(a: Assoc)
      requires AadRep(a) && bufPos == 0
      ensures PayRep(a, [])
    {
      assert a.bytes[..Whole(|a.bytes|)] == a.bytes == Pad(a.bytes);
    }

    method AesInto()
      requires Valid()
      modifies bufCryp
      ensures bufCryp[..] == suite.aes(ctr)
    {
      Copy(bufCryp, 0, suite.aes(ctr));
      assert bufCryp[..] == bufCryp[0..16];
    }

    method IncCtr()
      modifies `ctr
      ensures ctr == suite.inc(old(ctr))
    {
      ctr := suite.inc(ctr);
    }

    /** encrypt_block and decrypt_block. */
    method CryptBlock(mode: Mode, x: Block, ghost j: Block, ghost n: nat) returns (o: Block)
      requires KeyRep(mode, j, n) && n % 16 == 0
      modifies `ctr, `hashState, bufCryp
      ensures KeyRep(mode, j, n + 16)
      ensures o == Gctr(suite, j, n, x)
      ensures hashState == Ghash(suite, old(hashState), if mode.Encrypt? then o else x)
    {
      if mode.Encrypt? {
        XorBuf(bufCryp, 0, x);
        o := bufCryp[..];
        GhashHead(o);
        AesInto();
        IncCtr();
      } else {
        AesInto();
        IncCtr();
        XorBuf(bufCryp, 0, x);
        o := bufCryp[..];
        GhashHead(x);
      }
      Crypted(suite, j, n, x, o);
    }

    /** The key block is there from the start in encryption and computed on demand in decryption. */
    method CryptPart(mode: Mode, x: Bytes, ghost j: Block, ghost n: nat) returns (o: Bytes)
      requires KeyRep(mode, j, n) && bufPos == n % 16 && 0 < |x| && bufPos + |x| <= 16
      modifies bufCryp
      ensures o == Gctr(suite, j, n, x)
      ensures forall k :: n % 16 + |x| <= k < 16 ==> bufCryp[k] == KeyBlock(suite, j, n / 16)[k]
    {
      if bufPos == 0 && mode.Decrypt? {
        AesInto();
      }
      assert KeyReady(suite, j, n, bufCryp[..]);
      XorBuf(bufCryp, bufPos, x);
      o := bufCryp[bufPos..bufPos + |x|];
      Crypted(suite, j, n, x, o);
    }

    method EndBlock(mode: Mode, ghost y0: Block, ghost c: Bytes, ghost j: Block)
      requires Valid() && bufPos == 0 && |c| > 0 && FullBlock(suite, y0, c, hashState, bufHash[..])
      requires ctr == Counter(suite, j, |c| / 16 - if mode.Encrypt? then 0 else 1)
      modifies `ctr, `hashState, bufCryp
      ensures KeyRep(mode, j, |c|)
      ensures Buffered(suite, y0, c, hashState, bufHash[..], bufPos)
    {
      GhashHead(bufHash[..]);
      BufferWhole(suite, y0, c, hashState, bufHash[..]);
      if mode.Encrypt? {
        AesInto();
      }
      IncCtr();
    }

    /**
     A piece that ends no later than the current block.  The bytes to hash in
     decryption are read from src after dst has been written, as in the source.
     */
    method CryptPartial(mode: Mode, src: array<bv8>, dst: array<bv8>, k: nat, k2: nat, ghost y0: Block, ghost j: Block,
                        ghost c: Bytes, ghost x: Bytes, ghost out: Bytes, ghost c2: Bytes)
      requires KeyRep(mode, j, |c|) && Buffered(suite, y0, c, hashState, bufHash[..], bufPos)
      requires Apart(src) && Apart(dst) && k < k2 <= src.Length && k2 <= dst.Length && bufPos + (k2 - k) <= 16
      requires x == src[k..k2] && out == Gctr(suite, j, |c|, x) && |c2| == |c| + |x|
      requires c2 == c + if mode.Encrypt? || src == dst then out else x
      modifies `ctr, `hashState, `bufPos, bufHash, bufCryp, dst
      ensures KeyRep(mode, j, |c2|) && Placed(old(dst[..]), k, out, dst[..])
      ensures Buffered(suite, y0, c2, hashState, bufHash[..], bufPos)
    {
      var o := CryptPart(mode, src[k..k2], j, |c|);
      KeyedMore(suite, mode, j, |c|, |x|, ctr, bufCryp[..]);
      Copy(dst, k, o);
      var h := if mode.Encrypt? then o else src[k..k2];
      assert h == if mode.Encrypt? || src == dst then out else x;
      TakePart(mode, h, y0, j, c, c2);
    }

    /** The bytes to hash go to the buffer; a full buffer ends the block. */
    method TakePart(mode: Mode, h: Bytes, ghost y0: Block, ghost j: Block, ghost c: Bytes, ghost c2: Bytes)
      requires Valid() && Buffered(suite, y0, c, hashState, bufHash[..], bufPos)
      requires bufPos + |h| <= 16 && c2 == c + h && ctr == Counter(suite, j, |c| / 16 + if mode.Encrypt? then 1 else 0)
      requires bufPos + |h| < 16 ==> Keyed(suite, mode, j, |c2|, ctr, bufCryp[..])
      modifies `ctr, `hashState, `bufPos, bufHash, bufCryp
      ensures KeyRep(mode, j, |c2|) && Buffered(suite, y0, c2, hashState, bufHash[..], bufPos)
    {
      PosMore(|c|, |h|);
      var full := Fill(h, y0, c);
      if full {
        EndBlock(mode, y0, c2, j);
      }
    }

    /** Not one of the state's own buffers. */
    ghost predicate Apart(b: array<bv8>)
      reads this
    {
      b != bufHash && b != bufCryp && b != bufTag
    }

    /** encrypt_pl and decrypt_pl: num whole blocks from k on. */
    method CryptBlocks(mode: Mode, src: array<bv8>, dst: array<bv8>, k: nat, num: nat, ghost y0: Block, ghost j: Block,
                       ghost c: Bytes, ghost x: Bytes, ghost out: Bytes, ghost z: Bytes)
      requires KeyRep(mode, j, |c|) && Buffered(suite, y0, c, hashState, bufHash[..], 0) && bufPos == 0
      requires Apart(src) && Apart(dst) && k + 16 * num <= src.Length && k + 16 * num <= dst.Length
      requires x == src[k..k + 16 * num] && out == Gctr(suite, j, |c|, x) && z == Through(suite, mode, j, |c|, x)
      modifies `ctr, `hashState, bufCryp, dst
      ensures KeyRep(mode, j, |c + z|) && Placed(old(dst[..]), k, out, dst[..])
      ensures Buffered(suite, y0, c + z, hashState, bufHash[..], 0)
    {
      Fed0(c, z);
      assert out[..|x|] == out;
      CryptLoop(mode, src, dst, k, num, y0, j, c, x, out, z, dst[..]);
    }

    /** The first m bytes of x, which stand from k to end in the source, are done. */
    ghost predicate Halfway(mode: Mode, src: array<bv8>, dst: array<bv8>, k: nat, end: nat, m: nat, y0: Block, j: Block,
                            c: Bytes, x: Bytes, out: Bytes, z: Bytes, d0: Bytes)
      reads this, bufHash, bufCryp, src, dst
    {
      && Apart(src) && Apart(dst) && |c| % 16 == 0 && m % 16 == 0 && m <= |x| == |out| == |z|
      && k + |x| == end <= src.Length && end <= dst.Length
      && KeyRep(mode, j, |Fed(c, z, m)|) && Placed(d0, k, out[..m], dst[..]) && src[k + m..end] == x[m..]
      && Buffered(suite, y0, Fed(c, z, m), hashState, bufHash[..], 0)
    }

    method CryptLoop(mode: Mode, src: array<bv8>, dst: array<bv8>, k: nat, num: nat, ghost y0: Block, ghost j: Block,
                     ghost c: Bytes, ghost x: Bytes, ghost out: Bytes, ghost z: Bytes, ghost d0: Bytes)
      requires |x| == 16 * num && out == Gctr(suite, j, |c|, x) && z == Through(suite, mode, j, |c|, x)
      requires Halfway(mode, src, dst, k, k + |x|, 0, y0, j, c, x, out, z, d0)
      modifies `ctr, `hashState, bufCryp, dst
      ensures Halfway(mode, src, dst, k, k + |x|, |x|, y0, j, c, x, out, z, d0)
    {
      var n, m := 0, 0;
      ghost var end := k + |x|;
      while n < num
        invariant 0 <= n <= num && m == 16 * n
        invariant Halfway(mode, src, dst, k, end, m, y0, j, c, x, out, z, d0)
      {
        CryptBlockAt(mode, src, dst, k, end, m, y0, j, c, x, out, z, d0);
        n, m := n + 1, m + 16;
      }
    }

    method CryptBlockAt(mode: Mode, src: array<bv8>, dst: array<bv8>, k: nat, ghost end: nat, m: nat, ghost y0: Block, ghost j: Block,
                        ghost c: Bytes, ghost x: Bytes, ghost out: Bytes, ghost z: Bytes, ghost d0: Bytes)
      requires Halfway(mode, src, dst, k, end, m, y0, j, c, x, out, z, d0) && m + 16 <= |x|
      requires out == Gctr(suite, j, |c|, x) && z == Through(suite, mode, j, |c|, x)
      modifies `ctr, `hashState, bufCryp, dst
      ensures Halfway(mode, src, dst, k, end, m + 16, y0, j, c, x, out, z, d0)
    {
      Slices(suite, mode, j, c, x, m, m + 16);
      Suffix(x, m);
      Suffix(out, m);
      CryptNext(mode, src, dst, k + m, end, y0, Fed(c, z, m), j, x[m..], out[m..m + 16], Fed(c, z, m + 16),
                d0, k, out[..m], out[..m + 16]);
    }

    /** The block at p; x is what is left of the source, and the output so far, from off on, grows from o0 to o1. */
    method CryptNext(mode: Mode, src: array<bv8>, dst: array<bv8>, p: nat, ghost end: nat, ghost y0: Block, ghost c: Bytes,
                     ghost j: Block, ghost x: Bytes, ghost out: Bytes, ghost c2: Bytes, ghost d: Bytes, ghost off: nat,
                     ghost o0: Bytes, ghost o1: Bytes)
      requires Placed(d, off, o0, dst[..]) && p == off + |o0| && o1 == o0 + out
      requires Apart(src) && Apart(dst) && p + 16 <= end <= src.Length && end <= dst.Length
      requires src[p..end] == x && |c| % 16 == 0 && Chunk(suite, mode, j, c, x[..16], out, c2)
      requires KeyRep(mode, j, |c|) && Buffered(suite, y0, c, hashState, bufHash[..], 0)
      modifies `ctr, `hashState, bufCryp, dst
      ensures KeyRep(mode, j, |c2|) && Placed(d, off, o1, dst[..]) && src[p + 16..end] == x[16..]
      ensures Buffered(suite, y0, c2, hashState, bufHash[..], 0)
    {
      ghost var s0, d0 := src[..], dst[..];
      var b: Block := src[p..p + 16];
      assert b == x[..16];
      CryptAt(mode, b, dst, p, y0, c, j, out, c2);
      SourceKept(src == dst, s0, src[..], d0, dst[..], p, p + 16, out, s0[..end]);
      PlacedMore(d, off, o0, out, d0, dst[..]);
    }

    method CryptAt(mode: Mode, x: Block, dst: array<bv8>, p: nat, ghost y0: Block, ghost c: Bytes, ghost j: Block,
                   ghost out: Bytes, ghost c2: Bytes)
      requires |c| % 16 == 0 && Chunk(suite, mode, j, c, x, out, c2)
      requires Apart(dst) && p + 16 <= dst.Length
      requires KeyRep(mode, j, |c|) && Buffered(suite, y0, c, hashState, bufHash[..], 0)
      modifies `ctr, `hashState, bufCryp, dst
      ensures KeyRep(mode, j, |c2|) && Placed(old(dst[..]), p, out, dst[..])
      ensures Buffered(suite, y0, c2, hashState, bufHash[..], 0)
    {
      ghost var y := hashState;
      var b := CryptBlock(mode, x, j, |c|);
      Copy(dst, p, b);
      BlockHashed(suite, y0, c, y, bufHash[..], if mode.Encrypt? then out else x, hashState);
    }

    /**
     Payload of any length, from any position of the stream, from one buffer to
     another or in place.  What the hash absorbs is Absorbed.
     */
    method UpdatePayload(mode: Mode, src: array<bv8>, len: nat, dst: array<bv8>, ghost a: Assoc, ghost c: Bytes, ghost j: Block,
                         ghost x: Bytes, ghost out: Bytes, ghost z: Bytes)
      requires (AadRep(a) && c == []) || PayRep(a, c)
      requires KeyRep(mode, j, |c|) && Taken(suite, mode, src == dst, j, |c|, x, out, z)
      requires Apart(src) && Apart(dst) && len <= src.Length && len <= dst.Length && x == src[..len]
      modifies `ctr, `hashState, `payloadBytes, `bufPos, bufHash, bufCryp, dst
      ensures PayRep(a, c + z) && KeyRep(mode, j, |c + z|)
      ensures Placed(old(dst[..]), 0, out, dst[..])
    {
      CloseAad(a, c);
      payloadBytes := (payloadBytes + len) % MOD32;
      AddWraps(|c|, len);
      CryptStream(mode, src, len, dst, Ghash(suite, ZERO_BLOCK, Pad(a.bytes)), c, j, x, out, z);
    }

    method CryptStream(mode: Mode, src: array<bv8>, len: nat, dst: array<bv8>, ghost y0: Block, ghost c: Bytes, ghost j: Block,
                       ghost x: Bytes, ghost out: Bytes, ghost z: Bytes)
      requires KeyRep(mode, j, |c|) && Buffered(suite, y0, c, hashState, bufHash[..], bufPos)
      requires Apart(src) && Apart(dst) && len <= src.Length && len <= dst.Length && x == src[..len]
      requires Taken(suite, mode, src == dst, j, |c|, x, out, z)
      modifies `ctr, `hashState, `bufPos, bufHash, bufCryp, dst
      ensures KeyRep(mode, j, |c + z|) && Placed(old(dst[..]), 0, out, dst[..])
      ensures Buffered(suite, y0, c + z, hashState, bufHash[..], bufPos)
    {
      ghost var d0 := dst[..];
      Fed0(c, z);
      var k := 0;
      while k < len
        invariant 0 <= k <= len && (k == 0 || k == len || Aligned(|c| + k))
        invariant KeyRep(mode, j, |Fed(c, z, k)|)
        invariant Placed(d0, 0, out[..k], dst[..]) && src[k..len] == x[k..]
        invariant Buffered(suite, y0, Fed(c, z, k), hashState, bufHash[..], bufPos)
      {
        k := CryptRound(mode, src, len, k, dst, y0, c, j, x, out, z, d0);
      }
      assert out[..k] == out;
    }

    /** One round of the payload loop; what follows it in the source is still to come. */
    method CryptRound(mode: Mode, src: array<bv8>, len: nat, k: nat, dst: array<bv8>, ghost y0: Block, ghost c: Bytes,
                      ghost j: Block, ghost x: Bytes, ghost out: Bytes, ghost z: Bytes, ghost d0: Bytes)
      returns (k2: nat)
      requires k < len <= src.Length && len <= dst.Length && |x| == len && src[k..len] == x[k..] && (k == 0 || Aligned(|c| + k))
      requires |out| == len && Placed(d0, 0, out[..k], dst[..])
      requires Apart(src) && Apart(dst) && Taken(suite, mode, src == dst, j, |c|, x, out, z)
      requires KeyRep(mode, j, |Fed(c, z, k)|)
      requires Buffered(suite, y0, Fed(c, z, k), hashState, bufHash[..], bufPos)
      modifies `ctr, `hashState, `bufPos, bufHash, bufCryp, dst
      ensures k < k2 <= len && (k2 == len || Aligned(|c| + k2)) && KeyRep(mode, j, |Fed(c, z, k2)|)
      ensures Placed(d0, 0, out[..k2], dst[..]) && src[k2..len] == x[k2..]
      ensures Buffered(suite, y0, Fed(c, z, k2), hashState, bufHash[..], bufPos)
    {
      ghost var s1, d1 := src[..], dst[..];
      k2 := CryptSome(mode, src, len, k, dst, y0, c, j, x, out, z);
      SourceKept(src == dst, s1, src[..], d1, dst[..], k, k2, out[k..k2], x);
      PlacedNext(d0, 0, out, k, k2, d1, dst[..]);
    }

    method CryptSome(mode: Mode, src: array<bv8>, len: nat, k: nat, dst: array<bv8>, ghost y0: Block, ghost c: Bytes,
                     ghost j: Block, ghost x: Bytes, ghost out: Bytes, ghost z: Bytes)
      returns (k2: nat)
      requires k < len <= src.Length && len <= dst.Length && |x| == len && src[k..len] == x[k..] && (k == 0 || Aligned(|c| + k))
      requires Apart(src) && Apart(dst) && Taken(suite, mode, src == dst, j, |c|, x, out, z)
      requires KeyRep(mode, j, |Fed(c, z, k)|)
      requires Buffered(suite, y0, Fed(c, z, k), hashState, bufHash[..], bufPos)
      modifies `ctr, `hashState, `bufPos, bufHash, bufCryp, dst
      ensures k < k2 <= len && (k2 == len || Aligned(|c| + k2)) && KeyRep(mode, j, |Fed(c, z, k2)|)
      ensures Placed(old(dst[..]), k, out[k..k2], dst[..])
      ensures Buffered(suite, y0, Fed(c, z, k2), hashState, bufHash[..], bufPos)
    {
      if bufPos != 0 || len - k < 16 {
        k2 := CryptBegun(mode, src, len, k, dst, y0, c, j, x, out, z);
      } else {
        k2 := CryptWhole(mode, src, len, k, dst, y0, c, j, x, out, z);
      }
    }

    method CryptBegun(mode: Mode, src: array<bv8>, len: nat, k: nat, dst: array<bv8>, ghost y0: Block, ghost c: Bytes,
                      ghost j: Block, ghost x: Bytes, ghost out: Bytes, ghost z: Bytes)
      returns (k2: nat)
      requires k < len <= src.Length && len <= dst.Length && |x| == len && src[k..len] == x[k..]
      requires Apart(src) && Apart(dst) && Taken(suite, mode, src == dst, j, |c|, x, out, z)
      requires if bufPos != 0 then k == 0 else len - k < 16
      requires KeyRep(mode, j, |Fed(c, z, k)|)
      requires Buffered(suite, y0, Fed(c, z, k), hashState, bufHash[..], bufPos)
      modifies `ctr, `hashState, `bufPos, bufHash, bufCryp, dst
      ensures k < k2 <= len && (k2 == len || Aligned(|c| + k2)) && KeyRep(mode, j, |Fed(c, z, k2)|)
      ensures Placed(old(dst[..]), k, out[k..k2], dst[..])
      ensures Buffered(suite, y0, Fed(c, z, k2), hashState, bufHash[..], bufPos)
    {
      k2 := k + Min(16 - bufPos, len - k);
      PartOutside(|c|, len, k, k2);
      assert k2 == len || Aligned(|c| + k2);
      SliceOf(src[k..len], x, k, k2);
      PartialPiece(suite, mode, src == dst, j, c, x, out, z, k, k2);
      CryptPartial(mode, src, dst, k, k2, y0, j, Fed(c, z, k), x[k..k2], out[k..k2], Fed(c, z, k2));
    }

    method CryptWhole(mode: Mode, src: array<bv8>, len: nat, k: nat, dst: array<bv8>, ghost y0: Block, ghost c: Bytes,
                      ghost j: Block, ghost x: Bytes, ghost out: Bytes, ghost z: Bytes)
      returns (k2: nat)
      requires k + 16 <= len <= src.Length && len <= dst.Length && |x| == len && src[k..len] == x[k..] && bufPos == 0
      requires Apart(src) && Apart(dst) && Taken(suite, mode, src == dst, j, |c|, x, out, z)
      requires KeyRep(mode, j, |Fed(c, z, k)|)
      requires Buffered(suite, y0, Fed(c, z, k), hashState, bufHash[..], bufPos)
      modifies `ctr, `hashState, bufCryp, dst
      ensures k < k2 <= len && Aligned(|c| + k2) && KeyRep(mode, j, |Fed(c, z, k2)|)
      ensures Placed(old(dst[..]), k, out[k..k2], dst[..])
      ensures Buffered(suite, y0, Fed(c, z, k2), hashState, bufHash[..], bufPos)
    {
      var num := (len - k) / 16;
      k2 := k + 16 * num;
      BlocksEnd(len - k, num);
      BlocksInside(|c|, len, k, k2);
      SliceOf(src[k..len], x, k, k2);
      WholePiece(suite, mode, src == dst, j, c, x, out, z, k, k2);
      CryptBlocks(mode, src, dst, k, num, y0, j, Fed(c, z, k), x[k..k2], out[k..k2], z[k..k2]);
    }

    // ----- __gcm_init

    /** Whole blocks, then the rest padded with zeros. */
    method GhashPadZero(data: Bytes)
      modifies `hashState
      ensures hashState == Ghash(suite, old(hashState), Pad(data))
    {
      var w := Whole(|data|);
      ghost var y := hashState;
      GhashBlocks(data[..w]);
      if |data| - w != 0 {
        var block: Block := data[w..] + seq(16 - |data| % 16, _ => 0);
        GhashHead(block);
        assert Pad(data) == data[..w] + block;
        GhashConcat(suite, y, data[..w], block);
      } else {
        assert data[..w] == data;
      }
    }

    method InitCounter(nonce: Bytes)
      requires hashState == ZERO_BLOCK
      modifies `ctr, `hashState
      ensures ctr == PreCounter(suite, nonce) && hashState == ZERO_BLOCK
    {
      if |nonce| == 12 {
        ctr := nonce + [0, 0, 0, 0];
        IncCtr();
      } else {
        GhashPadZero(nonce);
        GhashHead(suite.lens(0, |nonce|));
        GhashConcat(suite, ZERO_BLOCK, Pad(nonce), suite.lens(0, |nonce|));
        ctr := hashState;
        hashState := ZERO_BLOCK;
      }
    }

    method Init(mode: Mode, nonce: Bytes, tagLength: nat) returns (r: Result<()>)
      requires Valid()
      modifies this, bufTag, bufHash, bufCryp
      ensures r == if tagLength > 16 then Err(BadParameters) else Ok(())
      ensures r.Err? ==> unchanged(this) && unchanged(bufTag) && unchanged(bufHash) && unchanged(bufCryp)
      ensures r.Ok? ==> AadRep(AssocOf([])) && TagRep(nonce) && tagLen == tagLength
      ensures r.Ok? ==> KeyRep(mode, suite.inc(PreCounter(suite, nonce)), 0)
    {
      if tagLength > 16 {
        return Err(BadParameters);
      }
      hashState, aadBytes, payloadBytes, bufPos, tagLen := ZERO_BLOCK, 0, 0, 0, tagLength;
      Copy(bufHash, 0, ZERO_BLOCK);
      Copy(bufCryp, 0, ZERO_BLOCK);
      InitCounter(nonce);
      ghost var j := suite.inc(ctr);
      Copy(bufTag, 0, suite.aes(ctr));
      assert bufTag[..] == suite.aes(ctr);
      IncCtr();
      assert Counter(suite, j, 0) == j && Counter(suite, j, 1) == suite.inc(j);
      if mode.Encrypt? {
        AesInto();
        IncCtr();
      }
      return Ok(());
    }

    /** bufTag holds the encrypted pre-counter block. */
    ghost predicate TagRep(nonce: Bytes)
      reads this, bufTag
    {
      bufTag[..] == suite.aes(PreCounter(suite, nonce))
    }

    // ----- operation_final and the two finals

    /** The digest of everything; lens sees the wrapped byte counts. */
    method CloseHash(ghost a: Assoc, ghost c: Bytes)
      requires PayRep(a, c) && LensWrap(suite)
      modifies `hashState, bufHash, `bufPos
      ensures Valid() && hashState == DigestOf(suite, a, c)
    {
      ghost var y0 := Ghash(suite, ZERO_BLOCK, Pad(a.bytes));
      if bufPos != 0 {
        var z: Bytes := seq(16 - bufPos, _ => 0);
        var full := Fill(z, y0, c);
        assert Pad(c) == c + z;
        GhashHead(bufHash[..]);
      } else {
        assert c[..Whole(|c|)] == c == Pad(c);
      }
      var l := suite.lens(aadBytes, payloadBytes);
      assert l == suite.lens(a.count, |c|);
      GhashHead(l);
      DigestParts(suite, a, c, l);
    }

    method OperationFinal(mode: Mode, src: array<bv8>, len: nat, dst: array<bv8>, ghost a: Assoc, ghost c: Bytes, ghost j: Block,
                          ghost x: Bytes, ghost out: Bytes, ghost z: Bytes, ghost nonce: Bytes)
      requires (AadRep(a) && c == []) || PayRep(a, c)
      requires KeyRep(mode, j, |c|) && TagRep(nonce) && LensWrap(suite) && Taken(suite, mode, src == dst, j, |c|, x, out, z)
      requires Apart(src) && Apart(dst) && len <= src.Length && len <= dst.Length && x == src[..len]
      modifies this, bufTag, bufHash, bufCryp, dst
      ensures Valid() && tagLen == old(tagLen) && Placed(old(dst[..]), 0, out, dst[..])
      ensures bufTag[..tagLen] == TagOf(suite, nonce, a, c + z, tagLen)
    {
      UpdatePayload(mode, src, len, dst, a, c, j, x, out, z);
      CloseHash(a, c + z);
      MixTag(suite.aes(PreCounter(suite, nonce)), DigestOf(suite, a, c + z));
    }

    method MixTag(ghost e: Block, ghost d: Block)
      requires Valid() && bufTag[..] == e && hashState == d
      modifies bufTag
      ensures bufTag[..tagLen] == XorBlock(e, d)[..tagLen]
    {
      XorBuf(bufTag, 0, hashState[..tagLen]);
      assert forall i :: 0 <= i < tagLen ==> bufTag[i] == e[i] ^ d[i];
    }

    method EncFinal(src: array<bv8>, len: nat, dst: array<bv8>, tagRoom: nat, ghost a: Assoc, ghost c: Bytes, ghost j: Block,
                    ghost x: Bytes, ghost out: Bytes, ghost nonce: Bytes) returns (r: Result<Bytes>)
      requires (AadRep(a) && c == []) || PayRep(a, c)
      requires KeyRep(Encrypt, j, |c|) && TagRep(nonce) && LensWrap(suite) && out == Gctr(suite, j, |c|, x)
      requires Apart(src) && Apart(dst) && len <= src.Length && len <= dst.Length && x == src[..len]
      modifies this, bufTag, bufHash, bufCryp, dst
      ensures Valid()
      ensures r == if tagRoom < old(tagLen) then Err(ShortBuffer) else Ok(TagOf(suite, nonce, a, c + out, old(tagLen)))
      ensures r.Err? ==> unchanged(this) && unchanged(bufTag) && unchanged(bufHash) && unchanged(bufCryp) && unchanged(dst)
      ensures r.Ok? ==> Placed(old(dst[..]), 0, out, dst[..])
    {
      if tagRoom < tagLen {
        return Err(ShortBuffer);
      }
      OperationFinal(Encrypt, src, len, dst, a, c, j, x, out, out, nonce);
      return Ok(bufTag[..tagLen]);
    }

    method DecFinal(src: array<bv8>, len: nat, dst: array<bv8>, tag: Bytes, ghost a: Assoc, ghost c: Bytes, ghost j: Block,
                    ghost x: Bytes, ghost out: Bytes, ghost z: Bytes, ghost nonce: Bytes) returns (r: Result<()>)
      requires (AadRep(a) && c == []) || PayRep(a, c)
      requires KeyRep(Decrypt, j, |c|) && TagRep(nonce) && LensWrap(suite) && Taken(suite, Decrypt, src == dst, j, |c|, x, out, z)
      requires Apart(src) && Apart(dst) && len <= src.Length && len <= dst.Length && x == src[..len]
      modifies this, bufTag, bufHash, bufCryp, dst
      ensures Valid()
      ensures r == if tag == TagOf(suite, nonce, a, c + z, old(tagLen)) then Ok(()) else Err(MacInvalid)
      ensures |tag| == old(tagLen) ==> Placed(old(dst[..]), 0, out, dst[..])
    {
      if |tag| != tagLen {
        return Err(MacInvalid);
      }
      OperationFinal(Decrypt, src, len, dst, a, c, j, x, out, z, nonce);
      if bufTag[..tagLen] != tag {
        return Err(MacInvalid);
      }
      return Ok(());
    }
  }

  /** The length block looks at 32-bit byte counts only. */
  ghost predicate LensWrap(s: Suite) {
    forall m: nat, n: nat {:trigger s.lens(m % MOD32, n % MOD32)} :: s.lens(m % MOD32, n % MOD32) == s.lens(m, n)
  }

  lemma DigestParts(s: Suite, a: Assoc, c: Bytes, l: Block)
    requires l == s.lens(a.count, |c|)
    ensures DigestOf(s, a, c) == Ghash(s, Ghash(s, Ghash(s, ZERO_BLOCK, Pad(a.bytes)), Pad(c)), l)
  {
    GhashConcat(s, ZERO_BLOCK, Pad(a.bytes) + Pad(c), l);
    GhashConcat(s, ZERO_BLOCK, Pad(a.bytes), Pad(c));
  }

  /** The chunk x after ciphertext c gives out, and c grows to c2. */
  ghost predicate Chunk(s: Suite, mode: Mode, j: Block, c: Bytes, x: Bytes, out: Bytes, c2: Bytes) {
    out == Gctr(s, j, |c|, x) && c2 == c + Through(s, mode, j, |c|, x) && |c2| == |c| + |x|
  }

  lemma Slices(s: Suite, mode: Mode, j: Block, c: Bytes, x: Bytes, p: nat, q: nat)
    requires p <= q <= |x|
    ensures Chunk(s, mode, j, Fed(c, Through(s, mode, j, |c|, x), p), x[p..q], Gctr(s, j, |c|, x)[p..q],
                  Fed(c, Through(s, mode, j, |c|, x), q))
  {
    GctrSlice(s, j, |c|, x, p, q);
    FedMore(c, Through(s, mode, j, |c|, x), p, q);
  }

  /** The ciphertext of a chunk: the output when encrypting, the input when decrypting. */
  ghost function Through(s: Suite, mode: Mode, j: Block, p: nat, x: Bytes): (r: Bytes)
    ensures |r| == |x|
  {
    if mode.Encrypt? then Gctr(s, j, p, x) else x
  }

  // ----- one buffer as source and destination

  /** In a call of len bytes at position p of the stream, byte i lies in a block that the call covers. */
  predicate InBlock(p: nat, len: nat, i: nat) {
    (p + i) % 16 <= i && i - (p + i) % 16 + 16 <= len
  }

  /**
   What the hash takes from a payload call at position p: the ciphertext, except that
   decryption in place takes the plaintext of every block the call covers in part.
   */
  ghost function Absorbed(s: Suite, mode: Mode, inPlace: bool, j: Block, p: nat, x: Bytes): (r: Bytes)
    ensures |r| == |x|
  {
    if mode.Decrypt? && inPlace then Rewritten(s, j, p, x) else Through(s, mode, j, p, x)
  }

  ghost function Rewritten(s: Suite, j: Block, p: nat, x: Bytes): (r: Bytes)
    ensures |r| == |x|
  {
    seq(|x|, i requires 0 <= i < |x| => if InBlock(p, |x|, i) then x[i] else Gctr(s, j, p, x)[i])
  }

  /** The chunk x at position p gives out, and z goes into the hash. */
  ghost predicate Taken(s: Suite, mode: Mode, inPlace: bool, j: Block, p: nat, x: Bytes, out: Bytes, z: Bytes) {
    out == Gctr(s, j, p, x) && z == Absorbed(s, mode, inPlace, j, p, x)
  }

  /** A piece of a block that starts before the call or ends after it. */
  lemma PartialPiece(s: Suite, mode: Mode, inPlace: bool, j: Block, c: Bytes, x: Bytes, out: Bytes, z: Bytes, k: nat, k2: nat)
    requires Taken(s, mode, inPlace, j, |c|, x, out, z) && k < k2 <= |x|
    requires Outside(|c|, |x|, k, k2)
    ensures out[k..k2] == Gctr(s, j, |c| + k, x[k..k2])
    ensures Fed(c, z, k2) == Fed(c, z, k) + if mode.Encrypt? || inPlace then out[k..k2] else x[k..k2]
  {
    GctrSlice(s, j, |c|, x, k, k2);
    FedMore(c, z, k, k2);
    if mode.Decrypt? && inPlace {
      RewrittenOutside(s, j, |c|, x, k, k2);
    }
  }

  ghost predicate Outside(p: nat, len: nat, k: nat, k2: nat) {
    forall i :: k <= i < k2 ==> !InBlock(p, len, i)
  }

  ghost predicate Inside(p: nat, len: nat, k: nat, k2: nat) {
    forall i :: k <= i < k2 ==> InBlock(p, len, i)
  }

  lemma RewrittenOutside(s: Suite, j: Block, p: nat, x: Bytes, k: nat, k2: nat)
    requires k <= k2 <= |x| && Outside(p, |x|, k, k2)
    ensures Rewritten(s, j, p, x)[k..k2] == Gctr(s, j, p, x)[k..k2]
  {}

  lemma RewrittenInside(s: Suite, j: Block, p: nat, x: Bytes, k: nat, k2: nat)
    requires k <= k2 <= |x| && Inside(p, |x|, k, k2)
    ensures Rewritten(s, j, p, x)[k..k2] == x[k..k2]
  {}

  /** The piece up to the end of a block that was begun before, or a last piece shorter than a block. */
  lemma PartOutside(p: nat, len: nat, k: nat, k2: nat)
    requires k < k2 <= len && (p + k) % 16 + (k2 - k) <= 16
    requires if (p + k) % 16 == 0 then k2 == len && len - k < 16 else k == 0
    ensures Outside(p, len, k, k2)
    ensures (p + k) % 16 + (k2 - k) == 16 ==> Aligned(p + k2)
  {
    forall i | k <= i < k2 ensures !InBlock(p, len, i) {
      PosMore(p + k, i - k);
    }
  }

  lemma BlocksInside(p: nat, len: nat, k: nat, k2: nat)
    requires k <= k2 <= len && (p + k) % 16 == 0 && (k2 - k) % 16 == 0
    ensures Inside(p, len, k, k2) && Aligned(p + k2)
  {
    forall i | k <= i < k2 ensures InBlock(p, len, i) {
      BlockInside(p, len, k, k2, i);
    }
  }

  lemma BlockInside(p: nat, len: nat, k: nat, k2: nat, i: nat)
    requires k <= i < k2 <= len && (p + k) % 16 == 0 && (k2 - k) % 16 == 0
    ensures InBlock(p, len, i)
  {
    assert p + i == p + k + (i - k);
    assert (p + i) % 16 == (i - k) % 16;
    assert i - k == (i - k) / 16 * 16 + (i - k) % 16;
    assert k2 - k == (k2 - k) / 16 * 16;
  }

  /** Blocks that lie inside the call. */
  lemma WholePiece(s: Suite, mode: Mode, inPlace: bool, j: Block, c: Bytes, x: Bytes, out: Bytes, z: Bytes, k: nat, k2: nat)
    requires Taken(s, mode, inPlace, j, |c|, x, out, z) && k <= k2 <= |x|
    requires Inside(|c|, |x|, k, k2)
    ensures out[k..k2] == Gctr(s, j, |c| + k, x[k..k2])
    ensures z[k..k2] == Through(s, mode, j, |c| + k, x[k..k2])
    ensures Fed(c, z, k2) == Fed(c, z, k) + z[k..k2]
  {
    GctrSlice(s, j, |c|, x, k, k2);
    FedMore(c, z, k, k2);
    if mode.Decrypt? && inPlace {
      RewrittenInside(s, j, |c|, x, k, k2);
    }
  }

  lemma SliceOf(t: Bytes, x: Bytes, k: nat, k2: nat)
    requires k <= k2 <= |x| && t == x[k..]
    ensures t[..k2 - k] == x[k..k2]
  {}

  lemma Suffix(x: Bytes, m: nat)
    requires m + 16 <= |x|
    ensures x[m..][..16] == x[m..m + 16] && x[m..][16..] == x[m + 16..] && x[..m + 16] == x[..m] + x[m..m + 16]
  {}

  /** Writing k..k2 leaves the source after k2 as it was, in place or not. */
  lemma SourceKept(inPlace: bool, s0: Bytes, s1: Bytes, d0: Bytes, d1: Bytes, k: nat, k2: nat, o: Bytes, x: Bytes)
    requires if inPlace then s0 == d0 && s1 == d1 else s0 == s1
    requires k <= k2 <= |x| <= |s0| && |o| == k2 - k && Placed(d0, k, o, d1) && s0[k..|x|] == x[k..]
    ensures |s1| == |s0| && s1[k2..|x|] == x[k2..]
  {
    forall i | k2 <= i < |x| ensures s1[i] == x[i] {
      assert s0[k..|x|][i - k] == x[k..][i - k];
    }
  }

  /** Encryption in place is the same operation. */
  lemma InPlaceEncrypts(s: Suite, j: Block, p: nat, x: Bytes)
    ensures Absorbed(s, Encrypt, true, j, p, x) == Absorbed(s, Encrypt, false, j, p, x)
  {}

  /** The key stream is zero on the blocks that a call covers in part. */
  ghost predicate ZeroKeyOutside(s: Suite, j: Block, p: nat, len: nat) {
    forall i :: 0 <= i < len && !InBlock(p, len, i) ==> KeyByte(s, j, p + i) == 0
  }

  /** Decryption in place hashes the ciphertext only with such a key stream. */
  lemma InPlaceDecryptsIff(s: Suite, j: Block, p: nat, x: Bytes)
    ensures Absorbed(s, Decrypt, true, j, p, x) == Absorbed(s, Decrypt, false, j, p, x) <==> ZeroKeyOutside(s, j, p, |x|)
  {
    var z := Rewritten(s, j, p, x);
    forall i | 0 <= i < |x| && !InBlock(p, |x|, i) ensures z[i] == x[i] <==> KeyByte(s, j, p + i) == 0 {
      XorZero(x[i], KeyByte(s, j, p + i));
    }
    if ZeroKeyOutside(s, j, p, |x|) {
      assert z == x;
    }
  }

  lemma XorZero(a: bv8, b: bv8)
    ensures a ^ b == a <==> b == 0
  {}

  /** So it does, with any key, when the call starts and ends at block boundaries. */
  lemma InPlaceWholeBlocks(s: Suite, j: Block, p: nat, x: Bytes)
    requires p % 16 == 0 && |x| % 16 == 0
    ensures Absorbed(s, Decrypt, true, j, p, x) == x
  {
    BlocksInside(p, |x|, 0, |x|);
    RewrittenInside(s, j, p, x, 0, |x|);
  }

  /** A call covers all its blocks whole exactly when it is empty or starts and ends at block boundaries. */
  lemma InsideIff(p: nat, len: nat)
    ensures Inside(p, len, 0, len) <==> len == 0 || (p % 16 == 0 && len % 16 == 0)
  {
    if p % 16 == 0 && len % 16 == 0 {
      BlocksInside(p, len, 0, len);
    } else if len > 0 && Inside(p, len, 0, len) {
      assert InBlock(p, len, 0) && InBlock(p, len, len - 1);
      assert p % 16 == 0;
      PosMore(p, 0);
    }
  }

  /** The condition a caller can check: it decides whether every key agrees. */
  lemma InPlaceAgreesIff(p: nat, x: Bytes)
    ensures (forall s: Suite, j: Block :: Absorbed(s, Decrypt, true, j, p, x) == Absorbed(s, Decrypt, false, j, p, x)) <==>
      x == [] || (p % 16 == 0 && |x| % 16 == 0)
  {
    InsideIff(p, |x|);
    if Inside(p, |x|, 0, |x|) {
      forall s: Suite, j: Block ensures Absorbed(s, Decrypt, true, j, p, x) == x {
        RewrittenInside(s, j, p, x, 0, |x|);
      }
    } else {
      var s := OnesSuite();
      OnesStream(ZERO_BLOCK, p, |x|);
      InPlaceDecryptsIff(s, ZERO_BLOCK, p, x);
    }
  }

  /** A suite whose key stream has no zero byte. */
  ghost function OnesSuite(): Suite {
    Suite(_ => seq(16, _ => 1), b => b, b => b, (m, n) => ZERO_BLOCK)
  }

  lemma OnesStream(j: Block, p: nat, len: nat)
    requires !Inside(p, len, 0, len)
    ensures !ZeroKeyOutside(OnesSuite(), j, p, len)
  {
    var i :| 0 <= i < len && !InBlock(p, len, i);
    assert KeyByte(OnesSuite(), j, p + i) == 1;
  }

  /** One byte decrypted in place: the plaintext goes into the hash. */
  lemma InPlaceOneByte(s: Suite, j: Block, x: Bytes)
    requires |x| == 1
    ensures Absorbed(s, Decrypt, true, j, 0, x) == Gctr(s, j, 0, x)
    ensures Absorbed(s, Decrypt, true, j, 0, x) == x <==> KeyByte(s, j, 0) == 0
  {
    XorZero(x[0], KeyByte(s, j, 0));
    assert !InBlock(0, 1, 0);
  }

  /** The buffer now is the buffer before with o written at off. */
  ghost predicate Placed(before: Bytes, off: nat, o: Bytes, now: Bytes) {
    && off + |o| <= |before| == |now|
    && forall i :: 0 <= i < |now| ==> now[i] == if off <= i < off + |o| then o[i - off] else before[i]
  }

  lemma PlacedMore(d0: Bytes, off: nat, o0: Bytes, o1: Bytes, d1: Bytes, d2: Bytes)
    requires Placed(d0, off, o0, d1) && Placed(d1, off + |o0|, o1, d2)
    ensures Placed(d0, off, o0 + o1, d2)
  {}

  lemma PlacedNext(d0: Bytes, off: nat, o: Bytes, p: nat, q: nat, d1: Bytes, d2: Bytes)
    requires p <= q <= |o| && Placed(d0, off, o[..p], d1) && Placed(d1, off + p, o[p..q], d2)
    ensures Placed(d0, off, o[..q], d2)
  {
    assert o[..p] + o[p..q] == o[..q];
    PlacedMore(d0, off, o[..p], o[p..q], d1, d2);
  }

  lemma GctrSlice(s: Suite, j: Block, n: nat, x: Bytes, p: nat, q: nat)
    requires p <= q <= |x|
    ensures Gctr(s, j, n + p, x[p..q]) == Gctr(s, j, n, x)[p..q]
  {
    forall i | 0 <= i < q - p ensures Gctr(s, j, n + p, x[p..q])[i] == Gctr(s, j, n, x)[p..q][i] {
      assert n + p + i == n + (p + i);
    }
  }

  lemma BlockHashed(s: Suite, y0: Block, x: Bytes, y: Block, b: Bytes, d: Block, y2: Block)
    requires Buffered(s, y0, x, y, b, 0) && y2 == Ghash(s, y, d)
    ensures Buffered(s, y0, x + d, y2, b, 0)
  {
    assert x[..Whole(|x|)] == x;
    GhashConcat(s, y0, x, d);
    BufferWhole(s, y0, x + d, y2, b);
  }

  lemma PosMore(n: nat, m: nat)
    requires n % 16 + m <= 16
    ensures n % 16 + m < 16 ==> (n + m) / 16 == n / 16 && (n + m) % 16 == n % 16 + m
    ensures n % 16 + m == 16 ==> (n + m) / 16 == n / 16 + 1 && (n + m) % 16 == 0
  {}

  lemma KeyedMore(s: Suite, mode: Mode, j: Block, n: nat, m: nat, ctr: Block, cryp: Bytes)
    requires n % 16 + m <= 16 && |cryp| == 16
    requires ctr == Counter(s, j, n / 16 + if mode.Encrypt? then 1 else 0)
    requires forall k :: n % 16 + m <= k < 16 ==> cryp[k] == KeyBlock(s, j, n / 16)[k]
    ensures n % 16 + m < 16 ==> Keyed(s, mode, j, n + m, ctr, cryp)
  {
    PosMore(n, m);
  }

  lemma XorCommutes(a: bv8, b: bv8)
    ensures a ^ b == b ^ a
  {}

  /** Bytes at position n, combined with the key block they fall into. */
  lemma Crypted(s: Suite, j: Block, n: nat, x: Bytes, o: Bytes)
    requires n % 16 + |x| <= 16 && |o| == |x|
    requires forall i :: 0 <= i < |x| ==> o[i] == KeyBlock(s, j, n / 16)[n % 16 + i] ^ x[i]
    ensures o == Gctr(s, j, n, x)
  {
    forall i | 0 <= i < |x| ensures o[i] == Gctr(s, j, n, x)[i] {
      assert (n + i) / 16 == n / 16 && (n + i) % 16 == n % 16 + i;
      XorCommutes(x[i], KeyByte(s, j, n + i));
    }
  }

  ghost function Fed(a: Bytes, data: Bytes, k: nat): (r: Bytes)
    requires k <= |data|
    ensures |r| == |a| + k
  {
    a + data[..k]
  }

  lemma Fed0(a: Bytes, data: Bytes)
    ensures Fed(a, data, 0) == a && Fed(a, data, |data|) == a + data
  {
    assert data[..|data|] == data;
  }

  lemma FedMore(a: Bytes, data: Bytes, k: nat, n: nat)
    requires k <= n <= |data|
    ensures Fed(a, data, n) == Fed(a, data, k) + data[k..n]
  {
    assert data[..n] == data[..k] + data[k..n];
  }

  predicate Aligned(p: nat) {
    p % 16 == 0
  }

  lemma AlignedAfter(p: nat, m: nat)
    ensures Aligned(p + 16 * m) == Aligned(p)
  {}

  function HeadBytes(head: Option<Block>): (r: Bytes)
    ensures |r| % 16 == 0
  {
    if head.Some? then head.value else []
  }

  lemma GhashNext(s: Suite, y: Block, x: Bytes, p: nat)
    requires p % 16 == 0 && p + 16 <= |x|
    ensures Ghash(s, y, x[..p + 16]) == s.mul(XorBlock(Ghash(s, y, x[..p]), x[p..p + 16]))
  {
    assert x[..p] + x[p..p + 16] == x[..p + 16];
    GhashConcat(s, y, x[..p], x[p..p + 16]);
    GhashOne(s, Ghash(s, y, x[..p]), x[p..p + 16]);
  }

  // ----- the hash buffer

  lemma WholeSplit(x: Bytes, d: Bytes)
    requires |x| % 16 + |d| < 16
    ensures Whole(|x + d|) == Whole(|x|) && |x + d| % 16 == |x| % 16 + |d|
  {}

  lemma BufferMore(s: Suite, y0: Block, x: Bytes, y: Block, b: Bytes, pos: nat, d: Bytes, b2: Bytes)
    requires Buffered(s, y0, x, y, b, pos) && pos + |d| < 16 && |b2| == 16
    requires b2[..pos] == b[..pos] && b2[pos..pos + |d|] == d
    ensures Buffered(s, y0, x + d, y, b2, pos + |d|)
  {
    WholeSplit(x, d);
    var w := Whole(|x|);
    assert (x + d)[..w] == x[..w];
    assert (x + d)[w..] == x[w..] + d;
    assert b2[..pos + |d|] == b2[..pos] + b2[pos..pos + |d|];
  }

  /** The buffer holds the next block to hash. */
  ghost predicate FullBlock(s: Suite, y0: Block, x: Bytes, y: Block, b: Bytes) {
    |b| == 16 && |x| % 16 == 0 && Ghash(s, y0, x) == Ghash(s, y, b)
  }

  lemma BufferFull(s: Suite, y0: Block, x: Bytes, y: Block, b: Bytes, pos: nat, d: Bytes, b2: Block)
    requires Buffered(s, y0, x, y, b, pos) && pos + |d| == 16
    requires b2[..pos] == b[..pos] && b2[pos..] == d
    ensures FullBlock(s, y0, x + d, y, b2)
  {
    var z := x[..Whole(|x|)];
    assert x + d == z + b2 by {
      assert x == z + x[Whole(|x|)..];
      assert b2 == b2[..pos] + b2[pos..];
    }
    GhashConcat(s, y0, z, b2);
  }

  lemma RunAfterHead(s: Suite, y0: Block, x: Bytes, y: Block, b: Block, data: Bytes, y2: Block)
    requires FullBlock(s, y0, x, y, b) && |data| % 16 == 0 && y2 == Ghash(s, y, b + data)
    ensures Buffered(s, y0, x + data, y2, b, 0)
  {
    GhashConcat(s, y, b, data);
    GhashConcat(s, y0, x, data);
    BufferWhole(s, y0, x + data, y2, b);
  }

  lemma RunAfterNone(s: Suite, y0: Block, x: Bytes, y: Block, b: Bytes, data: Bytes, y2: Block)
    requires Buffered(s, y0, x, y, b, 0) && |data| % 16 == 0 && y2 == Ghash(s, y, [] + data)
    ensures Buffered(s, y0, x + data, y2, b, 0)
  {
    assert x[..Whole(|x|)] == x && [] + data == data;
    GhashConcat(s, y0, x, data);
    BufferWhole(s, y0, x + data, y2, b);
  }

  lemma BufferWhole(s: Suite, y0: Block, x: Bytes, y: Block, b: Bytes)
    requires |x| % 16 == 0 && |b| == 16 && y == Ghash(s, y0, x)
    ensures Buffered(s, y0, x, y, b, 0)
  {
    assert x[..Whole(|x|)] == x;
  }
}
