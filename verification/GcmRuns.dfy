/**
 Whole GCM operations: initialise, feed associated data and payload in any pieces,
 finish.  The result depends on the concatenated inputs only.
 */
module GcmRuns {
  import opened Common
  import opened GcmSpec
  import opened Gcm

  /** A piece of associated data and the address it is read from. */
  datatype Piece = Piece(data: Bytes, addr: nat)

  /** The first n pieces appended to a. */
  function AadOf(a: Bytes, ps: seq<Piece>, n: nat): Bytes
    requires n <= |ps|
  {
    if n == 0 then a else AadOf(a, ps, n - 1) + ps[n - 1].data
  }

  function JoinAad(ps: seq<Piece>): Bytes {
    AadOf([], ps, |ps|)
  }

  function BytesOf(xs: seq<Bytes>, n: nat): Bytes
    requires n <= |xs|
  {
    if n == 0 then [] else BytesOf(xs, n - 1) + xs[n - 1]
  }

  function Join(xs: seq<Bytes>): Bytes {
    BytesOf(xs, |xs|)
  }

  lemma {:induction false} BytesOfPrefix(xs: seq<Bytes>, ys: seq<Bytes>, n: nat)
    requires n <= |xs|
    ensures BytesOf(xs + ys, n) == BytesOf(xs, n)
  {
    if n > 0 { BytesOfPrefix(xs, ys, n - 1); }
  }

  /** Associated data a with d appended. */
  function Feed(a: Assoc, d: Bytes): Assoc {
    Assoc(a.bytes + d, a.count + |d|)
  }

  function FeedAll(a: Assoc, ps: seq<Piece>, n: nat): Assoc
    requires n <= |ps|
  {
    if n == 0 then a else Feed(FeedAll(a, ps, n - 1), ps[n - 1].data)
  }

  lemma {:induction false} FedFrom(a: Assoc, ps: seq<Piece>, n: nat)
    requires n <= |ps|
    ensures FeedAll(a, ps, n) == Feed(a, AadOf([], ps, n))
  {
    if n == 0 {
      assert Feed(a, []) == a;
    } else {
      FedFrom(a, ps, n - 1);
      assert a.bytes + AadOf([], ps, n - 1) + ps[n - 1].data == a.bytes + (AadOf([], ps, n - 1) + ps[n - 1].data);
    }
  }

  /** After associated data a, before any payload. */
  ghost predicate Open(st: State, mode: Mode, a: Assoc, j: Block, nonce: Bytes, tagLen: nat)
    reads st, st.bufHash, st.bufCryp, st.bufTag
  {
    st.AadRep(a) && st.KeyRep(mode, j, 0) && st.TagRep(nonce) && st.tagLen == tagLen
  }

  method FeedAadOne(st: State, p: Piece, ghost mode: Mode, ghost a: Assoc, ghost j: Block, ghost nonce: Bytes, ghost n: nat,
                    ghost a2: Assoc)
    requires Open(st, mode, a, j, nonce, n) && a2 == Feed(a, p.data)
    modifies st, st.bufHash
    ensures Open(st, mode, a2, j, nonce, n)
  {
    var r := st.UpdateAad(p.data, p.addr, a);
  }

  method FeedAad(st: State, ps: seq<Piece>, ghost mode: Mode, ghost a0: Assoc, ghost j: Block, ghost nonce: Bytes, ghost n: nat)
    requires Open(st, mode, a0, j, nonce, n)
    modifies st, st.bufHash
    ensures Open(st, mode, Feed(a0, JoinAad(ps)), j, nonce, n)
  {
    var i := 0;
    ghost var a := a0;
    while i < |ps|
      invariant 0 <= i <= |ps| && a == FeedAll(a0, ps, i)
      invariant Open(st, mode, a, j, nonce, n)
    {
      ghost var a2 := FeedAll(a0, ps, i + 1);
      FeedAadOne(st, ps[i], mode, a, j, nonce, n, a2);
      a, i := a2, i + 1;
    }
    FedFrom(a0, ps, |ps|);
  }

  /** After associated data a and ciphertext c. */
  ghost predicate Ready(st: State, mode: Mode, a: Assoc, c: Bytes, j: Block, nonce: Bytes, tagLen: nat)
    reads st, st.bufHash, st.bufCryp, st.bufTag
  {
    && ((st.AadRep(a) && c == []) || st.PayRep(a, c))
    && st.KeyRep(mode, j, |c|) && st.TagRep(nonce) && st.tagLen == tagLen
  }

  /** A source buffer that holds x and a destination: the same one, or another of the same size. */
  method Buffers(x: Bytes, inPlace: bool) returns (src: array<bv8>, dst: array<bv8>)
    ensures fresh(src) && fresh(dst) && |x| == src.Length == dst.Length && src[..|x|] == x && (inPlace <==> src == dst)
  {
    src := new bv8[|x|](i requires 0 <= i < |x| => x[i]);
    dst := src;
    if !inPlace {
      dst := new bv8[|x|](_ => 0);
    }
  }

  /** One payload piece in buffers of its own. */
  method FeedOne(st: State, mode: Mode, inPlace: bool, x: Bytes, ghost a: Assoc, ghost c: Bytes, ghost j: Block, ghost nonce: Bytes,
                 ghost n: nat, ghost out: Bytes, ghost z: Bytes, ghost c2: Bytes) returns (o: Bytes)
    requires Ready(st, mode, a, c, j, nonce, n) && Taken(st.suite, mode, inPlace, j, |c|, x, out, z) && c2 == c + z
    modifies st, st.bufHash, st.bufCryp
    ensures Ready(st, mode, a, c2, j, nonce, n) && st.PayRep(a, c2) && o == out
  {
    var src, dst := Buffers(x, inPlace);
    st.UpdatePayload(mode, src, |x|, dst, a, c, j, x, out, z);
    o := dst[..];
  }

  /** What the hash takes from the first n pieces. */
  ghost function Hashed(s: Suite, mode: Mode, inPlace: bool, j: Block, xs: seq<Bytes>, n: nat): (r: Bytes)
    requires n <= |xs|
    ensures |r| == |BytesOf(xs, n)|
  {
    if n == 0 then []
    else Hashed(s, mode, inPlace, j, xs, n - 1) + Absorbed(s, mode, inPlace, j, |BytesOf(xs, n - 1)|, xs[n - 1])
  }

  /** Every piece is a number of whole blocks. */
  ghost predicate WholeBlocks(xs: seq<Bytes>) {
    forall i :: 0 <= i < |xs| ==> |xs[i]| % 16 == 0
  }

  /** Growing the payload by a piece grows the output by the piece's. */
  lemma Grown(s: Suite, j: Block, x: Bytes, d: Bytes)
    ensures Gctr(s, j, 0, x + d) == Gctr(s, j, 0, x) + Gctr(s, j, |x|, d)
  {
    GctrConcat(s, j, 0, x, d);
  }

  lemma ThroughConcat(s: Suite, mode: Mode, j: Block, x: Bytes, d: Bytes)
    ensures Through(s, mode, j, 0, x + d) == Through(s, mode, j, 0, x) + Through(s, mode, j, |x|, d)
  {
    Grown(s, j, x, d);
  }

  /** Except in decryption in place, the hash takes the ciphertext, however it is cut. */
  lemma {:induction false} HashedCipher(s: Suite, mode: Mode, inPlace: bool, j: Block, xs: seq<Bytes>, n: nat)
    requires n <= |xs| && (mode.Encrypt? || !inPlace)
    ensures Hashed(s, mode, inPlace, j, xs, n) == Through(s, mode, j, 0, BytesOf(xs, n))
  {
    if n > 0 {
      HashedCipher(s, mode, inPlace, j, xs, n - 1);
      ThroughConcat(s, mode, j, BytesOf(xs, n - 1), xs[n - 1]);
    }
  }

  lemma WholeConcat(s: Suite, j: Block, x: Bytes, y: Bytes)
    requires |x| % 16 == 0 && |y| % 16 == 0
    ensures x + Absorbed(s, Decrypt, true, j, |x|, y) == x + y && |x + y| % 16 == 0
  {
    InPlaceWholeBlocks(s, j, |x|, y);
  }

  /** In decryption in place it does when every piece is a number of whole blocks. */
  lemma {:induction false} HashedWhole(s: Suite, j: Block, xs: seq<Bytes>, n: nat)
    requires n <= |xs| && WholeBlocks(xs)
    ensures Hashed(s, Decrypt, true, j, xs, n) == BytesOf(xs, n) && |BytesOf(xs, n)| % 16 == 0
  {
    if n > 0 {
      HashedWhole(s, j, xs, n - 1);
      WholeConcat(s, j, BytesOf(xs, n - 1), xs[n - 1]);
    }
  }

  method FeedNext(st: State, mode: Mode, inPlace: bool, xs: seq<Bytes>, i: nat, ghost a: Assoc, ghost j: Block,
                  ghost nonce: Bytes, ghost n: nat) returns (o: Bytes)
    requires i < |xs| && Ready(st, mode, a, Hashed(st.suite, mode, inPlace, j, xs, i), j, nonce, n)
    modifies st, st.bufHash, st.bufCryp
    ensures o == Gctr(st.suite, j, |BytesOf(xs, i)|, xs[i])
    ensures Ready(st, mode, a, Hashed(st.suite, mode, inPlace, j, xs, i + 1), j, nonce, n)
  {
    ghost var s, p := st.suite, |BytesOf(xs, i)|;
    o := FeedOne(st, mode, inPlace, xs[i], a, Hashed(s, mode, inPlace, j, xs, i), j, nonce, n, Gctr(s, j, p, xs[i]),
                 Absorbed(s, mode, inPlace, j, p, xs[i]), Hashed(s, mode, inPlace, j, xs, i + 1));
  }

  method FeedPayload(st: State, mode: Mode, inPlace: bool, xs: seq<Bytes>, ghost a: Assoc, ghost j: Block, ghost nonce: Bytes,
                     ghost n: nat) returns (o: Bytes)
    requires Ready(st, mode, a, Hashed(st.suite, mode, inPlace, j, xs, 0), j, nonce, n)
    modifies st, st.bufHash, st.bufCryp
    ensures o == Gctr(st.suite, j, 0, Join(xs))
    ensures Ready(st, mode, a, Hashed(st.suite, mode, inPlace, j, xs, |xs|), j, nonce, n)
  {
    o := [];
    var i := 0;
    while i < |xs|
      invariant 0 <= i <= |xs| && o == Gctr(st.suite, j, 0, BytesOf(xs, i))
      invariant Ready(st, mode, a, Hashed(st.suite, mode, inPlace, j, xs, i), j, nonce, n)
    {
      Grown(st.suite, j, BytesOf(xs, i), xs[i]);
      var p := FeedNext(st, mode, inPlace, xs, i, a, j, nonce, n);
      o, i := o + p, i + 1;
    }
  }

  method Start(s: Suite, mode: Mode, nonce: Bytes, tagLen: nat, ps: seq<Piece>) returns (st: State, r: Result<()>)
    ensures fresh(st) && fresh(st.bufHash) && fresh(st.bufCryp) && fresh(st.bufTag) && st.suite == s
    ensures r == if tagLen > 16 then Err(BadParameters) else Ok(())
    ensures r.Ok? ==> Ready(st, mode, AssocOf(JoinAad(ps)), [], s.inc(PreCounter(s, nonce)), nonce, tagLen)
  {
    st := new State(s);
    r := st.Init(mode, nonce, tagLen);
    if r.Ok? {
      FeedAad(st, ps, mode, AssocOf([]), s.inc(PreCounter(s, nonce)), nonce, tagLen);
      assert Feed(AssocOf([]), JoinAad(ps)) == AssocOf(JoinAad(ps));
    }
  }

  method FinishEnc(st: State, inPlace: bool, last: Bytes, tagRoom: nat, ghost a: Assoc, ghost c: Bytes, ghost j: Block,
                   ghost nonce: Bytes, ghost n: nat, ghost out: Bytes) returns (o: Bytes, r: Result<Bytes>)
    requires Ready(st, Encrypt, a, c, j, nonce, n) && n <= 16 && LensWrap(st.suite) && out == Gctr(st.suite, j, |c|, last)
    modifies st, st.bufTag, st.bufHash, st.bufCryp
    ensures r == if tagRoom < n then Err(ShortBuffer) else Ok(TagOf(st.suite, nonce, a, c + out, n))
    ensures r.Ok? ==> o == out
  {
    var src, dst := Buffers(last, inPlace);
    r := st.EncFinal(src, |last|, dst, tagRoom, a, c, j, last, out, nonce);
    o := dst[..];
  }

  method FinishDec(st: State, inPlace: bool, last: Bytes, tag: Bytes, ghost a: Assoc, ghost c: Bytes, ghost j: Block,
                   ghost nonce: Bytes, ghost n: nat, ghost out: Bytes, ghost z: Bytes) returns (o: Bytes, r: Result<()>)
    requires Ready(st, Decrypt, a, c, j, nonce, n) && n <= 16 && LensWrap(st.suite)
    requires Taken(st.suite, Decrypt, inPlace, j, |c|, last, out, z)
    modifies st, st.bufTag, st.bufHash, st.bufCryp
    ensures r == if tag == TagOf(st.suite, nonce, a, c + z, n) then Ok(()) else Err(MacInvalid)
    ensures r.Ok? ==> o == out
  {
    var src, dst := Buffers(last, inPlace);
    r := st.DecFinal(src, |last|, dst, tag, a, c, j, last, out, z, nonce);
    o := dst[..];
  }

  /** Authenticated encryption in pieces, in place or not, is the one-shot definition on the whole. */
  method Seal(s: Suite, inPlace: bool, nonce: Bytes, tagLen: nat, ps: seq<Piece>, xs: seq<Bytes>, last: Bytes, tagRoom: nat)
    returns (r: Result<(Bytes, Bytes)>)
    requires LensWrap(s)
    ensures tagLen > 16 ==> r == Err(BadParameters)
    ensures tagRoom < tagLen <= 16 ==> r == Err(ShortBuffer)
    ensures tagLen <= 16 && tagLen <= tagRoom ==>
      var c := Cipher(s, nonce, Join(xs) + last);
      r == Ok((c, Tag(s, nonce, JoinAad(ps), c, tagLen)))
  {
    var st, i := Start(s, Encrypt, nonce, tagLen, ps);
    if i.Err? {
      return Err(i.error);
    }
    r := SealRest(st, inPlace, xs, last, tagRoom, AssocOf(JoinAad(ps)), s.inc(PreCounter(s, nonce)), nonce, tagLen);
  }

  /** The payload and the tag, after the associated data. */
  method SealRest(st: State, inPlace: bool, xs: seq<Bytes>, last: Bytes, tagRoom: nat, ghost a: Assoc, ghost j: Block,
                  ghost nonce: Bytes, ghost n: nat) returns (r: Result<(Bytes, Bytes)>)
    requires Ready(st, Encrypt, a, [], j, nonce, n) && n <= 16 && LensWrap(st.suite)
    modifies st, st.bufTag, st.bufHash, st.bufCryp
    ensures tagRoom < n ==> r == Err(ShortBuffer)
    ensures n <= tagRoom ==>
      var c := Gctr(st.suite, j, 0, Join(xs) + last);
      r == Ok((c, TagOf(st.suite, nonce, a, c, n)))
  {
    ghost var s := st.suite;
    var o := FeedPayload(st, Encrypt, inPlace, xs, a, j, nonce, n);
    HashedCipher(s, Encrypt, inPlace, j, xs, |xs|);
    Grown(s, j, Join(xs), last);
    var p, t := FinishEnc(st, inPlace, last, tagRoom, a, o, j, nonce, n, Gctr(s, j, |o|, last));
    if t.Err? {
      return Err(t.error);
    }
    return Ok((o + p, t.value));
  }

  /** What the hash takes from a decryption in pieces. */
  ghost function Authenticated(s: Suite, inPlace: bool, nonce: Bytes, cs: seq<Bytes>, last: Bytes): (c: Bytes)
    ensures |c| == |Join(cs) + last|
  {
    var j := s.inc(PreCounter(s, nonce));
    Hashed(s, Decrypt, inPlace, j, cs, |cs|) + Absorbed(s, Decrypt, inPlace, j, |Join(cs)|, last)
  }

  /** It is the ciphertext, except in place with a piece that is not a number of whole blocks. */
  lemma AuthenticatedCipher(s: Suite, inPlace: bool, nonce: Bytes, cs: seq<Bytes>, last: Bytes)
    requires WholeBlocks(cs + [last]) || !inPlace
    ensures Authenticated(s, inPlace, nonce, cs, last) == Join(cs) + last
  {
    var j := s.inc(PreCounter(s, nonce));
    if inPlace {
      assert (cs + [last])[|cs|] == last && forall i :: 0 <= i < |cs| ==> (cs + [last])[i] == cs[i];
      HashedWhole(s, j, cs, |cs|);
      InPlaceWholeBlocks(s, j, |Join(cs)|, last);
    } else {
      HashedCipher(s, Decrypt, inPlace, j, cs, |cs|);
    }
  }

  /** In place the ciphertext is authenticated, whatever the key, exactly when every piece is a number of whole blocks. */
  lemma AuthenticatedInPlaceIff(cs: seq<Bytes>, last: Bytes)
    ensures (forall s: Suite, nonce: Bytes :: Authenticated(s, true, nonce, cs, last) == Join(cs) + last) <==>
      WholeBlocks(cs + [last])
  {
    var xs := cs + [last];
    if WholeBlocks(xs) {
      forall s: Suite, nonce: Bytes ensures Authenticated(s, true, nonce, cs, last) == Join(cs) + last {
        AuthenticatedCipher(s, true, nonce, cs, last);
      }
    } else {
      var s, n := OnesSuite(), FirstPartial(xs, 0);
      var j := s.inc(PreCounter(s, []));
      PartialDiffers(xs, n, j);
      HashedAgree(s, j, xs, n + 1);
      AuthenticatedIs(s, [], cs, last);
    }
  }

  /** The first piece from k on that is not a number of whole blocks. */
  ghost function FirstPartial(xs: seq<Bytes>, k: nat): (n: nat)
    requires k < |xs| && exists i :: k <= i < |xs| && |xs[i]| % 16 != 0
    ensures k <= n < |xs| && |xs[n]| % 16 != 0 && forall i :: k <= i < n ==> |xs[i]| % 16 == 0
    decreases |xs| - k
  {
    if |xs[k]| % 16 != 0 then k else FirstPartial(xs, k + 1)
  }

  /** Under a key stream without zeros that piece is hashed as something else. */
  lemma PartialDiffers(xs: seq<Bytes>, n: nat, j: Block)
    requires n < |xs| && |xs[n]| % 16 != 0 && WholeBlocks(xs[..n])
    ensures Hashed(OnesSuite(), Decrypt, true, j, xs, n + 1) != BytesOf(xs, n + 1)
  {
    var p := |BytesOf(xs, n)|;
    InsideIff(p, |xs[n]|);
    OnesStream(j, p, |xs[n]|);
    InPlaceDecryptsIff(OnesSuite(), j, p, xs[n]);
    SameTail(Hashed(OnesSuite(), Decrypt, true, j, xs, n), Absorbed(OnesSuite(), Decrypt, true, j, p, xs[n]), BytesOf(xs, n), xs[n]);
  }

  lemma SameTail(a: Bytes, b: Bytes, c: Bytes, d: Bytes)
    requires |a| == |c|
    ensures a + b == c + d ==> a == c && b == d
  {
    if a + b == c + d {
      assert a == (a + b)[..|a|] == c && b == (a + b)[|a|..] == d;
    }
  }

  /** Where the hash has taken the ciphertext of all pieces, it has taken that of the first n. */
  lemma {:induction false} HashedAgree(s: Suite, j: Block, xs: seq<Bytes>, n: nat)
    requires n <= |xs| && Hashed(s, Decrypt, true, j, xs, n) != BytesOf(xs, n)
    ensures Hashed(s, Decrypt, true, j, xs, |xs|) != Join(xs)
    decreases |xs| - n
  {
    if n < |xs| {
      SameTail(Hashed(s, Decrypt, true, j, xs, n), Absorbed(s, Decrypt, true, j, |BytesOf(xs, n)|, xs[n]), BytesOf(xs, n), xs[n]);
      HashedAgree(s, j, xs, n + 1);
    }
  }

  lemma AuthenticatedIs(s: Suite, nonce: Bytes, cs: seq<Bytes>, last: Bytes)
    ensures Authenticated(s, true, nonce, cs, last) ==
      Hashed(s, Decrypt, true, s.inc(PreCounter(s, nonce)), cs + [last], |cs + [last]|)
    ensures Join(cs) + last == Join(cs + [last])
  {
    HashedPrefix(s, s.inc(PreCounter(s, nonce)), cs, cs + [last], |cs|);
  }

  lemma {:induction false} HashedPrefix(s: Suite, j: Block, cs: seq<Bytes>, xs: seq<Bytes>, n: nat)
    requires n <= |cs| <= |xs| && forall i :: 0 <= i < |cs| ==> xs[i] == cs[i]
    ensures Hashed(s, Decrypt, true, j, xs, n) == Hashed(s, Decrypt, true, j, cs, n) && BytesOf(xs, n) == BytesOf(cs, n)
  {
    if n > 0 {
      HashedPrefix(s, j, cs, xs, n - 1);
      HashedSame(s, j, cs, xs, n - 1);
    }
  }

  lemma HashedSame(s: Suite, j: Block, cs: seq<Bytes>, xs: seq<Bytes>, n: nat)
    requires n < |cs| && n < |xs| && cs[n] == xs[n] && BytesOf(xs, n) == BytesOf(cs, n)
    requires Hashed(s, Decrypt, true, j, xs, n) == Hashed(s, Decrypt, true, j, cs, n)
    ensures Hashed(s, Decrypt, true, j, xs, n + 1) == Hashed(s, Decrypt, true, j, cs, n + 1)
    ensures BytesOf(xs, n + 1) == BytesOf(cs, n + 1)
  {
    HashedNext(s, j, cs, n);
    HashedNext(s, j, xs, n);
  }

  lemma HashedNext(s: Suite, j: Block, xs: seq<Bytes>, n: nat)
    requires n < |xs|
    ensures Hashed(s, Decrypt, true, j, xs, n + 1) ==
      Hashed(s, Decrypt, true, j, xs, n) + Absorbed(s, Decrypt, true, j, |BytesOf(xs, n)|, xs[n])
    ensures BytesOf(xs, n + 1) == BytesOf(xs, n) + xs[n]
  {}

  /** Authenticated decryption in pieces accepts exactly the tag of what it authenticates. */
  method Unseal(s: Suite, inPlace: bool, nonce: Bytes, tagLen: nat, ps: seq<Piece>, cs: seq<Bytes>, last: Bytes, tag: Bytes)
    returns (r: Result<Bytes>)
    requires LensWrap(s)
    ensures tagLen > 16 ==> r == Err(BadParameters)
    ensures tagLen <= 16 ==>
      var c := Authenticated(s, inPlace, nonce, cs, last);
      r == if tag == Tag(s, nonce, JoinAad(ps), c, tagLen) then Ok(Cipher(s, nonce, Join(cs) + last)) else Err(MacInvalid)
  {
    var st, i := Start(s, Decrypt, nonce, tagLen, ps);
    if i.Err? {
      return Err(i.error);
    }
    ghost var j, a, x := s.inc(PreCounter(s, nonce)), AssocOf(JoinAad(ps)), Join(cs);
    var o := FeedPayload(st, Decrypt, inPlace, cs, a, j, nonce, tagLen);
    Grown(s, j, x, last);
    var p, t := FinishDec(st, inPlace, last, tag, a, Hashed(s, Decrypt, inPlace, j, cs, |cs|), j, nonce, tagLen,
                          Gctr(s, j, |x|, last), Absorbed(s, Decrypt, inPlace, j, |x|, last));
    if t.Err? {
      return Err(t.error);
    }
    return Ok(o + p);
  }

  // ----- an empty payload call between two pieces of associated data

  /** The second piece is hashed after the padding of the first, and both are counted. */
  function Paused(a: Bytes, b: Bytes): Assoc {
    Assoc(Pad(a) + b, |a| + |b|)
  }

  /** The tag is the one-shot one when the same bytes are hashed. */
  lemma PauseHarmless(s: Suite, nonce: Bytes, a: Bytes, b: Bytes, c: Bytes, tagLen: nat)
    requires tagLen <= 16 && (|a| % 16 == 0 || (Zeros(b) && SameBlockCount(a, b)))
    ensures TagOf(s, nonce, Paused(a, b), c, tagLen) == Tag(s, nonce, a + b, c, tagLen)
  {
    PauseKeepsIff(a, b);
  }

  ghost predicate Zeros(b: Bytes) {
    forall i :: 0 <= i < |b| ==> b[i] == 0
  }

  /** The padding of the first piece adds no block to the whole. */
  predicate SameBlockCount(a: Bytes, b: Bytes) {
    |b| % 16 == 0 || |a| % 16 + |b| % 16 > 16
  }

  /** The same bytes are hashed exactly when the first piece is whole blocks, or the padding only moves zeros. */
  lemma PauseKeepsIff(a: Bytes, b: Bytes)
    ensures Pad(Paused(a, b).bytes) == Pad(a + b) <==> |a| % 16 == 0 || (Zeros(b) && SameBlockCount(a, b))
  {
    if |a| % 16 != 0 {
      PausedLength(|a|, |b|);
      if SameBlockCount(a, b) {
        if Zeros(b) {
          PauseMovesZeros(a, b);
        } else if Pad(Pad(a) + b) == Pad(a + b) {
          PauseShifts(a, b, |b|);
        }
      }
    }
  }

  lemma PausedLength(m: nat, n: nat)
    requires m % 16 != 0
    ensures Padded(Padded(m) + n) == Padded(m + n) <==> n % 16 == 0 || m % 16 + n % 16 > 16
  {
    PaddedIs(m / 16, m % 16);
    PaddedIs(m / 16 + 1 + n / 16, n % 16);
    if m % 16 + n % 16 < 16 {
      PaddedIs(m / 16 + n / 16, m % 16 + n % 16);
    } else {
      PaddedIs(m / 16 + n / 16 + 1, m % 16 + n % 16 - 16);
    }
  }

  lemma PaddedIs(q: nat, r: nat)
    requires r < 16
    ensures Padded(16 * q + r) == 16 * q + if r == 0 then 0 else 16
  {
    assert (16 * q + r) % 16 == r;
  }

  /** The length of a padded string. */
  function Padded(n: nat): (r: nat) {
    if n % 16 == 0 then n else n + (16 - n % 16)
  }

  lemma PauseMovesZeros(a: Bytes, b: Bytes)
    requires Zeros(b) && |Pad(Pad(a) + b)| == |Pad(a + b)|
    ensures Pad(Pad(a) + b) == Pad(a + b)
  {
    ZerosBehind(a, b);
    var p, q := Pad(Pad(a) + b), Pad(a + b);
    forall i | 0 <= i < |p| ensures p[i] == q[i] {
      if i < |a| { assert p[i] == a[i] == q[i]; }
    }
  }

  lemma ZerosBehind(a: Bytes, b: Bytes)
    requires Zeros(b)
    ensures forall i :: |a| <= i < |Pad(a + b)| ==> Pad(a + b)[i] == 0
    ensures forall i :: |a| <= i < |Pad(Pad(a) + b)| ==> Pad(Pad(a) + b)[i] == 0
  {}

  /** Equal strings make byte i of b equal to the one a gap before it, so all of them 0. */
  lemma {:induction false} PauseShifts(a: Bytes, b: Bytes, n: nat)
    requires |a| % 16 != 0 && Pad(Pad(a) + b) == Pad(a + b) && n <= |b|
    ensures forall i :: 0 <= i < n ==> b[i] == 0
  {
    if n > 0 {
      PauseShifts(a, b, n - 1);
      var i, gap := n - 1, |Pad(a)| - |a|;
      assert Pad(a + b)[|a| + i] == b[i];
      assert Pad(Pad(a) + b)[|a| + i] == if i < gap then 0 else b[i - gap];
    }
  }

  /** Over all second pieces of one length, the lengths alone decide. */
  lemma PauseSafeIff(a: Bytes, n: nat)
    ensures (forall b: Bytes :: |b| == n ==> Pad(Paused(a, b).bytes) == Pad(a + b)) <==> |a| % 16 == 0 || n == 0
  {
    var ones: Bytes := seq(n, _ => 1);
    PauseKeepsIff(a, ones);
    assert n > 0 ==> ones[0] == 1;
    forall b: Bytes | |b| == n && (|a| % 16 == 0 || n == 0) ensures Pad(Paused(a, b).bytes) == Pad(a + b) {
      PauseKeepsIff(a, b);
    }
  }

  /** Two pieces of one byte: two blocks are hashed in place of one. */
  lemma PauseAddsBlock(a: Bytes, b: Bytes)
    requires |a| == |b| == 1
    ensures |Pad(Paused(a, b).bytes)| == 32 && |Pad(a + b)| == 16
  {}

  method Pause(st: State, mode: Mode, ghost a: Bytes, ghost j: Block, ghost nonce: Bytes, ghost n: nat)
    requires Ready(st, mode, AssocOf(a), [], j, nonce, n)
    modifies st, st.bufHash, st.bufCryp
    ensures Open(st, mode, Assoc(Pad(a), |a|), j, nonce, n)
  {
    ghost var z := Absorbed(st.suite, mode, false, j, 0, []);
    assert z == Gctr(st.suite, j, 0, []) == [];
    var o := FeedOne(st, mode, false, [], AssocOf(a), [], j, nonce, n, [], z, []);
    st.AcceptsAadAgain(AssocOf(a), []);
    assert Pad(a) + [] == Pad(a);
  }

  /** Encryption with an empty payload call between the associated data ps and qs. */
  method SealPaused(s: Suite, nonce: Bytes, tagLen: nat, ps: seq<Piece>, qs: seq<Piece>, xs: seq<Bytes>, last: Bytes)
    returns (r: Result<(Bytes, Bytes)>)
    requires LensWrap(s)
    ensures tagLen > 16 ==> r == Err(BadParameters)
    ensures tagLen <= 16 ==>
      var c := Cipher(s, nonce, Join(xs) + last);
      r == Ok((c, TagOf(s, nonce, Paused(JoinAad(ps), JoinAad(qs)), c, tagLen)))
  {
    var st, i := Start(s, Encrypt, nonce, tagLen, ps);
    if i.Err? {
      return Err(i.error);
    }
    ghost var j, a, b := s.inc(PreCounter(s, nonce)), JoinAad(ps), JoinAad(qs);
    Pause(st, Encrypt, a, j, nonce, tagLen);
    FeedAad(st, qs, Encrypt, Assoc(Pad(a), |a|), j, nonce, tagLen);
    assert Feed(Assoc(Pad(a), |a|), b) == Paused(a, b);
    r := SealRest(st, false, xs, last, tagLen, Paused(a, b), j, nonce, tagLen);
  }

  /** Encryption and decryption with independent pieces give the payload back. */
  method RoundTripInPieces(s: Suite, inPlace: bool, nonce: Bytes, tagLen: nat, ps: seq<Piece>, qs: seq<Piece>, xs: seq<Bytes>,
                           last: Bytes, sizes: seq<nat>) returns (back: Result<Bytes>)
    requires LensWrap(s) && tagLen <= 16 && JoinAad(ps) == JoinAad(qs)
    ensures back == Ok(Join(xs) + last)
  {
    var e := Seal(s, inPlace, nonce, tagLen, ps, xs, last, tagLen);
    var cs, rest := Cut(e.value.0, sizes);
    AuthenticatedCipher(s, false, nonce, cs, rest);
    back := Unseal(s, false, nonce, tagLen, qs, cs, rest, e.value.1);
    RoundTrip(s, nonce, Join(xs) + last);
  }

  /** Pieces of the given sizes, as far as the bytes reach, and the rest. */
  method Cut(x: Bytes, sizes: seq<nat>) returns (ys: seq<Bytes>, rest: Bytes)
    ensures Join(ys) + rest == x
  {
    ys, rest := [], x;
    var i := 0;
    while i < |sizes|
      invariant 0 <= i <= |sizes| && Join(ys) + rest == x
    {
      var n := Min(sizes[i], |rest|);
      BytesOfPrefix(ys, [rest[..n]], |ys|);
      assert Join(ys) + rest == Join(ys) + rest[..n] + rest[n..];
      ys, rest := ys + [rest[..n]], rest[n..];
      i := i + 1;
    }
  }
}
