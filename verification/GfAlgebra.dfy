/**
 The algebra of shift-and-add multiplication, over any carrier: an addition, a
 linear "multiply by P", and a way to read the coefficients of an element one by
 one.  Bilinearity, commutativity and associativity of the product follow.
 */
module GfAlgebra {
  datatype Ops<!E> = Ops(
    zero: E,
    one: E,
    add: (E, E) -> E,
    mulX: E -> E,       // multiply by P
    top: E -> bool,     // the first coefficient
    rest: E -> E)       // drop it and move the others up

  /** What is needed of the carrier, at given elements. */
  ghost predicate LawsAt<E>(o: Ops<E>, a: E, b: E, c: E) {
    && o.add(a, b) == o.add(b, a)
    && o.add(o.add(a, b), c) == o.add(a, o.add(b, c))
    && o.add(a, o.zero) == a
    && o.add(a, a) == o.zero
    && o.mulX(o.add(a, b)) == o.add(o.mulX(a), o.mulX(b))
    && o.rest(o.add(a, b)) == o.add(o.rest(a), o.rest(b))
    && (o.top(o.add(a, b)) <==> o.top(a) != o.top(b))
  }

  ghost predicate Lawful<E(!new)>(o: Ops<E>) {
    forall a, b, c {:trigger LawsAt(o, a, b, c)} :: LawsAt(o, a, b, c)
  }

  function Pick<E>(o: Ops<E>, b: bool, v: E): E {
    if b then v else o.zero
  }

  /** The first n coefficients of x, times y. */
  function Partial<E>(o: Ops<E>, x: E, y: E, n: nat): E
    decreases n
  {
    if n == 0 then o.zero
    else o.add(Pick(o, o.top(x), y), Partial(o, o.rest(x), o.mulX(y), n - 1))
  }

  function Drop<E>(o: Ops<E>, x: E, n: nat): E {
    if n == 0 then x else o.rest(Drop(o, x, n - 1))
  }

  function MulXn<E>(o: Ops<E>, y: E, n: nat): E {
    if n == 0 then y else o.mulX(MulXn(o, y, n - 1))
  }

  lemma AddFour<E(!new)>(o: Ops<E>, a: E, b: E, c: E, d: E)
    requires Lawful(o)
    ensures o.add(o.add(a, b), o.add(c, d)) == o.add(o.add(a, c), o.add(b, d))
  {
    assert LawsAt(o, a, b, o.add(c, d)) && LawsAt(o, b, c, d) && LawsAt(o, c, b, d) && LawsAt(o, a, c, o.add(b, d));
  }

  lemma ZeroFacts<E(!new)>(o: Ops<E>, a: E)
    requires Lawful(o)
    ensures o.mulX(o.zero) == o.zero && o.rest(o.zero) == o.zero && !o.top(o.zero)
    ensures o.add(o.zero, a) == a && o.add(a, o.zero) == a && o.add(a, a) == o.zero
  {
    var z := o.zero;
    assert LawsAt(o, z, z, z) && LawsAt(o, a, z, z);
    assert LawsAt(o, o.mulX(z), z, z) && LawsAt(o, o.rest(z), z, z);
  }

  // ----- linearity in each argument

  lemma {:induction false} LinearRight<E(!new)>(o: Ops<E>, x: E, a: E, b: E, n: nat)
    requires Lawful(o)
    ensures Partial(o, x, o.add(a, b), n) == o.add(Partial(o, x, a, n), Partial(o, x, b, n))
    decreases n
  {
    ZeroFacts(o, o.zero);
    if n > 0 {
      var t := o.top(x);
      assert LawsAt(o, a, b, a);
      LinearRight(o, o.rest(x), o.mulX(a), o.mulX(b), n - 1);
      AddFour(o, Pick(o, t, a), Pick(o, t, b), Partial(o, o.rest(x), o.mulX(a), n - 1), Partial(o, o.rest(x), o.mulX(b), n - 1));
    }
  }

  lemma PickXor<E(!new)>(o: Ops<E>, s: bool, t: bool, y: E)
    requires Lawful(o)
    ensures Pick(o, s != t, y) == o.add(Pick(o, s, y), Pick(o, t, y))
  {
    ZeroFacts(o, y);
    ZeroFacts(o, o.zero);
  }

  lemma {:induction false} LinearLeft<E(!new)>(o: Ops<E>, a: E, b: E, y: E, n: nat)
    requires Lawful(o)
    ensures Partial(o, o.add(a, b), y, n) == o.add(Partial(o, a, y, n), Partial(o, b, y, n))
    decreases n
  {
    ZeroFacts(o, o.zero);
    if n > 0 {
      assert LawsAt(o, a, b, a);
      LinearLeft(o, o.rest(a), o.rest(b), o.mulX(y), n - 1);
      AddFour(o, Pick(o, o.top(a), y), Pick(o, o.top(b), y),
              Partial(o, o.rest(a), o.mulX(y), n - 1), Partial(o, o.rest(b), o.mulX(y), n - 1));
      PickXor(o, o.top(a), o.top(b), y);
    }
  }

  lemma {:induction false} RightZero<E(!new)>(o: Ops<E>, x: E, n: nat)
    requires Lawful(o)
    ensures Partial(o, x, o.zero, n) == o.zero
    decreases n
  {
    ZeroFacts(o, o.zero);
    if n > 0 { RightZero(o, o.rest(x), n - 1); }
  }

  lemma {:induction false} PartialMulX<E(!new)>(o: Ops<E>, x: E, y: E, n: nat)
    requires Lawful(o)
    ensures Partial(o, x, o.mulX(y), n) == o.mulX(Partial(o, x, y, n))
    decreases n
  {
    ZeroFacts(o, o.zero);
    if n > 0 {
      PartialMulX(o, o.rest(x), o.mulX(y), n - 1);
      assert LawsAt(o, Pick(o, o.top(x), y), Partial(o, o.rest(x), o.mulX(y), n - 1), y);
    }
  }

  lemma PartialPick<E(!new)>(o: Ops<E>, x: E, n: nat, b: bool, a: E)
    requires Lawful(o)
    ensures Partial(o, x, Pick(o, b, a), n) == Pick(o, b, Partial(o, x, a, n))
  {
    RightZero(o, x, n);
  }

  lemma ExchangeStep<E(!new)>(o: Ops<E>, x: E, n: nat, y: E, m: nat, a: E)
    requires Lawful(o)
    requires Partial(o, x, Partial(o, o.rest(y), o.mulX(a), m), n) == Partial(o, o.rest(y), Partial(o, x, o.mulX(a), n), m)
    ensures Partial(o, x, Partial(o, y, a, m + 1), n) == Partial(o, y, Partial(o, x, a, n), m + 1)
  {
    var b, q := o.top(y), Partial(o, o.rest(y), o.mulX(a), m);
    LinearRight(o, x, Pick(o, b, a), q, n);
    PartialPick(o, x, n, b, a);
    PartialMulX(o, x, a, n);
    PartialStep(o, y, a, m);
    PartialStep(o, y, Partial(o, x, a, n), m);
  }

  /** Multiplying by x and multiplying by y can be exchanged. */
  lemma {:induction false} Exchange<E(!new)>(o: Ops<E>, x: E, n: nat, y: E, m: nat, a: E)
    requires Lawful(o)
    ensures Partial(o, x, Partial(o, y, a, m), n) == Partial(o, y, Partial(o, x, a, n), m)
    decreases m
  {
    if m == 0 {
      RightZero(o, x, n);
    } else {
      var j: nat := m - 1;
      Exchange(o, x, n, o.rest(y), j, o.mulX(a));
      ExchangeStep(o, x, n, y, j, a);
    }
  }

  // ----- with a unit, the product is commutative and associative

  ghost predicate HasUnit<E(!new)>(o: Ops<E>, n: nat) {
    forall x :: Partial(o, x, o.one, n) == x
  }

  lemma Commutative<E(!new)>(o: Ops<E>, n: nat, x: E, y: E)
    requires Lawful(o) && HasUnit(o, n)
    ensures Partial(o, x, y, n) == Partial(o, y, x, n)
  {
    Exchange(o, x, n, y, n, o.one);
  }

  lemma Associative<E(!new)>(o: Ops<E>, n: nat, x: E, y: E, z: E)
    requires Lawful(o) && HasUnit(o, n)
    ensures Partial(o, Partial(o, x, y, n), z, n) == Partial(o, x, Partial(o, y, z, n), n)
  {
    Commutative(o, n, Partial(o, x, y, n), z);
    Exchange(o, z, n, x, n, y);
    Commutative(o, n, z, y);
  }

  // ----- taking k coefficients at a time

  lemma HornerStep<E(!new)>(o: Ops<E>, x: E, y: E, j: nat, n: nat)
    requires Lawful(o)
    ensures MulXn(o, Partial(o, Drop(o, o.rest(x), j), o.mulX(y), n), j) == MulXn(o, Partial(o, Drop(o, x, j + 1), y, n), j + 1)
  {
    DropFront(o, x, j);
    PartialMulX(o, Drop(o, x, j + 1), y, n);
    MulXnFront(o, Partial(o, Drop(o, x, j + 1), y, n), j);
  }

  lemma PartialStep<E>(o: Ops<E>, x: E, y: E, n: nat)
    ensures Partial(o, x, y, n + 1) == o.add(Pick(o, o.top(x), y), Partial(o, o.rest(x), o.mulX(y), n))
  {}

  lemma Reassociate<E(!new)>(o: Ops<E>, a: E, b: E, c: E)
    requires Lawful(o)
    ensures o.add(o.add(a, b), c) == o.add(a, o.add(b, c))
  {
    assert LawsAt(o, a, b, c);
  }

  /** One coefficient in front of a product that is already in Horner's form. */
  lemma HornerFront<E(!new)>(o: Ops<E>, x: E, y: E, j: nat, n: nat, p: E, q: E)
    requires Lawful(o) && q == MulXn(o, Partial(o, Drop(o, x, j + 1), y, n), j + 1)
    requires Partial(o, o.rest(x), o.mulX(y), j + n) == o.add(p, MulXn(o, Partial(o, Drop(o, o.rest(x), j), o.mulX(y), n), j))
    ensures Partial(o, x, y, j + n + 1) == o.add(o.add(Pick(o, o.top(x), y), p), q)
  {
    HornerStep(o, x, y, j, n);
    PartialStep(o, x, y, j + n);
    Reassociate(o, Pick(o, o.top(x), y), p, q);
  }

  /** The product in Horner's form, with k coefficients taken out. */
  ghost predicate InHornerForm<E(!new)>(o: Ops<E>, x: E, y: E, k: nat, n: nat) {
    Partial(o, x, y, k + n) == o.add(Partial(o, x, y, k), MulXn(o, Partial(o, Drop(o, x, k), y, n), k))
  }

  lemma HornerMore<E(!new)>(o: Ops<E>, x: E, y: E, j: nat, n: nat)
    requires Lawful(o) && InHornerForm(o, o.rest(x), o.mulX(y), j, n)
    ensures InHornerForm(o, x, y, j + 1, n)
  {
    var p := Partial(o, o.rest(x), o.mulX(y), j);
    HornerFront(o, x, y, j, n, p, MulXn(o, Partial(o, Drop(o, x, j + 1), y, n), j + 1));
    PartialStep(o, x, y, j);
    assert j + 1 + n == j + n + 1;
  }

  lemma HornerBase<E(!new)>(o: Ops<E>, x: E, y: E, n: nat)
    requires Lawful(o)
    ensures InHornerForm(o, x, y, 0, n)
  {
    ZeroFacts(o, Partial(o, x, y, n));
    assert Partial(o, x, y, 0 + n) == Partial(o, x, y, n);
  }

  /** Horner's rule: the first k coefficients, plus P^k times the product of the others. */
  lemma {:induction false} Horner<E(!new)>(o: Ops<E>, x: E, y: E, k: nat, n: nat)
    requires Lawful(o)
    ensures InHornerForm(o, x, y, k, n)
    decreases k
  {
    if k == 0 {
      HornerBase(o, x, y, n);
    } else {
      var j: nat := k - 1;
      Horner(o, o.rest(x), o.mulX(y), j, n);
      HornerMore(o, x, y, j, n);
    }
  }

  lemma {:induction false} DropFront<E>(o: Ops<E>, x: E, k: nat)
    ensures Drop(o, o.rest(x), k) == Drop(o, x, k + 1)
  {
    if k > 0 { DropFront(o, x, k - 1); }
  }

  lemma {:induction false} MulXnFront<E>(o: Ops<E>, y: E, k: nat)
    ensures MulXn(o, o.mulX(y), k) == MulXn(o, y, k + 1)
  {
    if k > 0 { MulXnFront(o, y, k - 1); }
  }

  /** Only the coefficients read matter. */
  lemma {:induction false} PartialReads<E>(o: Ops<E>, x: E, x': E, y: E, n: nat)
    requires forall r: nat :: r < n ==> o.top(Drop(o, x, r)) == o.top(Drop(o, x', r))
    ensures Partial(o, x, y, n) == Partial(o, x', y, n)
    decreases n
  {
    if n > 0 {
      assert o.top(Drop(o, x, 0)) == o.top(Drop(o, x', 0));
      forall r: nat | r < n - 1 ensures o.top(Drop(o, o.rest(x), r)) == o.top(Drop(o, o.rest(x'), r)) {
        DropFront(o, x, r);
        DropFront(o, x', r);
      }
      PartialReads(o, o.rest(x), o.rest(x'), o.mulX(y), n - 1);
    }
  }
}
