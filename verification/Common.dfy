/** Result types, powers of two and lists of distinct objects, shared by the models. */
module Common {
  datatype Option<+T> = None | Some(value: T)

  /** The TEE result codes the modelled functions return. */
  datatype Error =
    | Generic
    | CorruptObject
    | Security
    | BadParameters
    | BadState
    | ItemNotFound
    | MacInvalid
    | ShortBuffer

  datatype Result<+T> = Ok(value: T) | Err(error: Error)

  function Max(a: nat, b: nat): nat {
    if a < b then b else a
  }

  function Min(a: nat, b: nat): nat {
    if a < b then a else b
  }

  function Pow2(n: nat): (r: nat)
    ensures r > 0
  {
    if n == 0 then 1 else 2 * Pow2(n - 1)
  }

  // ----- lists of distinct objects

  ghost predicate Distinct<T>(s: seq<T>) {
    forall i, j :: 0 <= i < j < |s| ==> s[i] != s[j]
  }

  /** The list with an object taken out. */
  function Without<T(==, !new)>(s: seq<T>, x: T): (r: seq<T>)
    ensures forall y :: y in r <==> y in s && y != x
  {
    if s == [] then []
    else if s[0] == x then Without(s[1..], x)
    else [s[0]] + Without(s[1..], x)
  }

  lemma {:induction false} WithoutDistinct<T(!new)>(s: seq<T>, x: T)
    requires Distinct(s)
    ensures Distinct(Without(s, x))
  {
    if s != [] {
      assert s[0] !in s[1..];
      WithoutDistinct(s[1..], x);
      var r := Without(s[1..], x);
      assert forall i :: 0 <= i < |r| ==> r[i] in s[1..];
    }
  }

  /** r is s without its entry at k, which is x. */
  ghost predicate TakenOut<T>(s: seq<T>, x: T, k: nat, r: seq<T>) {
    k < |s| && s[k] == x && r == s[..k] + s[k + 1..]
  }

  lemma {:induction false} WithoutAbsent<T(!new)>(s: seq<T>, x: T)
    requires x !in s
    ensures Without(s, x) == s
  {
    if s != [] { WithoutAbsent(s[1..], x); }
  }

  lemma {:induction false} WithoutIs<T(!new)>(s: seq<T>, x: T, k: nat)
    requires k < |s| && s[k] == x && Distinct(s)
    ensures Without(s, x) == s[..k] + s[k + 1..]
  {
    if k == 0 {
      WithoutAbsent(s[1..], x);
    } else {
      WithoutIs(s[1..], x, k - 1);
      assert s[..k] == [s[0]] + s[1..][..k - 1];
      assert s[1..][k..] == s[k + 1..];
    }
  }

  /** From distinct entries the one is taken out and the others stay in order. */
  lemma WithoutTakesOut<T(!new)>(s: seq<T>, x: T)
    requires Distinct(s) && x in s
    ensures exists k: nat :: TakenOut(s, x, k, Without(s, x))
  {
    var k :| 0 <= k < |s| && s[k] == x;
    WithoutIs(s, x, k);
    assert TakenOut(s, x, k, Without(s, x));
  }
}
