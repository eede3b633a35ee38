/** Norms of elements of the coordinate ring, and what their degrees tell. */
module Norms {
  import opened Modular
  import opened Curve
  import opened Polynomials
  import opened CoordinateRing

  const ZERO: Term := Const(0)

  // ---------------------------------------------------------------- the two components

  lemma DominatedBySquare(alpha: int, beta: int, phi: int, n: int)
    requires n == Abs(alpha) + Abs(beta) + Abs(phi) + 1
    ensures Abs(alpha) + Abs(beta) * n < n * n - phi
  {
    SquareDominates(Abs(alpha), Abs(beta), Abs(phi), n);
  }

  lemma SquareDominates(a: nat, b: nat, f: nat, n: nat)
    requires n == a + b + f + 1
    ensures a + b * n + f < n * n
  {
    TimesPositive(a, n);
    TimesPositive(f, n);
    assert n * n == a * n + b * n + f * n + n;
  }

  lemma TimesPositive(a: nat, n: nat)
    requires n > 0
    ensures a * n >= a
  {
  }

  lemma AbsProduct(b: int, n: nat)
    ensures Abs(b * n) == Abs(b) * n
  {
  }

  lemma SmallIsZero(v: int, k: int, m: int)
    requires v == m * k && Abs(v) < m
    ensures v == 0
  {
    SmallMultiple(-v, k, m);
  }

  /** A linear function of y that is a multiple of y^2 - phi far out on both sides is 0. */
  lemma LinearVanishes(alpha: int, beta: int, phi: int, n: int, k: int, l: int)
    requires n == Abs(alpha) + Abs(beta) + Abs(phi) + 1
    requires alpha + beta * n == (n * n - phi) * k
    requires alpha - beta * n == (n * n - phi) * l
    ensures alpha == 0 && beta == 0
  {
    DominatedBySquare(alpha, beta, phi, n);
    AbsProduct(beta, n);
    SmallIsZero(alpha + beta * n, k, n * n - phi);
    SmallIsZero(alpha - beta * n, l, n * n - phi);
    if beta != 0 {
      MulAtLeast(beta, n);
    }
  }

  /** s - p * a */
  function Without(p: int, s: Poly, a: Poly): Poly {
    Sum(s, Scale(-p, a))
  }

  lemma WithoutEval(p: int, s: Poly, a: Poly, x: int)
    ensures Eval(Without(p, s, a), x) == Eval(s, x) + -p * Eval(a, x)
  {
    EvalSum(s, Scale(-p, a), x);
    EvalScale(-p, a, x);
  }

  lemma ComponentIdentity(p: int, h: int, y: int, s: int, t: int, a: int, b: int, u: int, w: int, z: int, q: int,
      r: int, s': int, t': int) returns (k: int)
    requires Differ(p, h, u, 0, z, q) && Differ(p, h, z, w, 0, r)
    requires u == s + t * y && w == a + b * y && s' == s + -p * a && t' == t + -p * b
    ensures s' + t' * y == h * k
  {
    k := p * r + q;
    assert p * z == p * a + (p * b) * y + h * (p * r);
    assert (t + -p * b) * y == t * y - (p * b) * y;
  }

  lemma ComponentsAt(c: EllipticCurve, s: Poly, t: Poly, z: Term, q: Term, a: Poly, b: Poly, r: Term, x: int, y: int)
    returns (k: int)
    requires EqBy(c, Pair(s, t), ZERO, z, q) && EqBy(c, z, Pair(a, b), ZERO, r)
    ensures Eval(Without(c.p, s, a), x) + Eval(Without(c.p, t, b), x) * y == Off(c, x, y) * k
  {
    var u, w := Pair(s, t), Pair(a, b);
    assert Differ(c.p, Off(c, x, y), Val(u, x, y), 0, Val(z, x, y), Val(q, x, y));
    assert Differ(c.p, Off(c, x, y), Val(z, x, y), Val(w, x, y), 0, Val(r, x, y));
    PairVal(s, t, x, y);
    PairVal(a, b, x, y);
    WithoutEval(c.p, s, a, x);
    WithoutEval(c.p, t, b, x);
    k := ComponentIdentity(c.p, Off(c, x, y), y, Eval(s, x), Eval(t, x), Eval(a, x), Eval(b, x), Val(u, x, y),
      Val(w, x, y), Val(z, x, y), Val(q, x, y), Val(r, x, y), Eval(Without(c.p, s, a), x), Eval(Without(c.p, t, b), x));
  }

  lemma ComponentsVanish(c: EllipticCurve, s: Poly, t: Poly, z: Term, q: Term, a: Poly, b: Poly, r: Term, x: int)
    requires EqBy(c, Pair(s, t), ZERO, z, q) && EqBy(c, z, Pair(a, b), ZERO, r)
    ensures Eval(Without(c.p, s, a), x) == 0 && Eval(Without(c.p, t, b), x) == 0
  {
    var alpha, beta := Eval(Without(c.p, s, a), x), Eval(Without(c.p, t, b), x);
    var n := Abs(alpha) + Abs(beta) + Abs(Cubic(c, x)) + 1;
    var k := ComponentsAt(c, s, t, z, q, a, b, r, x, n);
    var l := ComponentsAt(c, s, t, z, q, a, b, r, x, -n);
    assert (-n) * (-n) == n * n;
    LinearVanishes(alpha, beta, Cubic(c, x), n, k, l);
  }

  ghost predicate AllDivisible(p: int, s: Poly)
    requires p != 0
  {
    forall i | 0 <= i < |s| :: Divides(p, s[i])
  }

  lemma DivisibleWhenVanishing(p: int, s: Poly, a: Poly)
    requires p > 0 && forall x {:trigger Eval(Without(p, s, a), x)} :: Eval(Without(p, s, a), x) == 0
    ensures AllDivisible(p, s)
  {
    VanishingIsZero(Without(p, s, a));
    forall i | 0 <= i < |s| ensures Divides(p, s[i]) {
      var q := if i < |a| then a[i] else 0;
      assert Without(p, s, a)[i] == 0;
      assert s[i] == q * p;
      DividesWitness(p, s[i], q);
    }
  }

  /** a(x) + b(x) * y is 0 in the ring only if p divides every coefficient: x and y
      are independent, and no power of y above the first is left. */
  lemma Components(c: EllipticCurve, s: Poly, t: Poly)
    requires Eq(c, Pair(s, t), ZERO)
    ensures AllDivisible(c.p, s) && AllDivisible(c.p, t)
  {
    var z, q :| EqBy(c, Pair(s, t), ZERO, z, q);
    var a, b, r := Normal(c, z);
    forall x ensures Eval(Without(c.p, s, a), x) == 0 && Eval(Without(c.p, t, b), x) == 0 {
      ComponentsVanish(c, s, t, z, q, a, b, r, x);
    }
    DivisibleWhenVanishing(c.p, s, a);
    DivisibleWhenVanishing(c.p, t, b);
  }

  // ---------------------------------------------------------------- conjugates and norms

  /** y replaced by -y. */
  function Conj(e: Term): Term {
    match e
    case Y => Times(Const(-1), Y)
    case Plus(u, v) => Plus(Conj(u), Conj(v))
    case Times(u, v) => Times(Conj(u), Conj(v))
    case _ => e
  }

  lemma {:induction false} ConjVal(e: Term, x: int, y: int)
    ensures Val(Conj(e), x, y) == Val(e, x, -y)
  {
    match e
    case Plus(u, v) => ConjVal(u, x, y); ConjVal(v, x, y);
    case Times(u, v) => ConjVal(u, x, y); ConjVal(v, x, y);
    case _ =>
  }

  function Norm(e: Term): Term {
    Times(e, Conj(e))
  }

  lemma EqConj(c: EllipticCurve, u: Term, v: Term)
    requires Eq(c, u, v)
    ensures Eq(c, Conj(u), Conj(v))
  {
    var z, q :| EqBy(c, u, v, z, q);
    forall x, y
      ensures Differ(c.p, Off(c, x, y), Val(Conj(u), x, y), Val(Conj(v), x, y), Val(Conj(z), x, y), Val(Conj(q), x, y))
    {
      assert Off(c, x, -y) == Off(c, x, y);
      assert Differ(c.p, Off(c, x, -y), Val(u, x, -y), Val(v, x, -y), Val(z, x, -y), Val(q, x, -y));
      ConjVal(u, x, y);
      ConjVal(v, x, y);
      ConjVal(z, x, y);
      ConjVal(q, x, y);
    }
    assert EqBy(c, Conj(u), Conj(v), Conj(z), Conj(q));
  }

  lemma NormEq(c: EllipticCurve, u: Term, v: Term)
    requires Eq(c, u, v)
    ensures Eq(c, Norm(u), Norm(v))
  {
    EqConj(c, u, v);
    EqTimes(c, u, v, Conj(u), Conj(v));
  }

  lemma NormTimes(c: EllipticCurve, u: Term, v: Term)
    ensures Eq(c, Norm(Times(u, v)), Times(Norm(u), Norm(v)))
  {
    forall x, y ensures Val(Norm(Times(u, v)), x, y) == Val(Times(Norm(u), Norm(v)), x, y) {
      Interchange(Val(u, x, y), Val(v, x, y), Val(Conj(u), x, y), Val(Conj(v), x, y));
      assert Val(Conj(Times(u, v)), x, y) == Val(Conj(u), x, y) * Val(Conj(v), x, y);
    }
    EqSame(c, Norm(Times(u, v)), Times(Norm(u), Norm(v)));
  }

  lemma Interchange(a: int, b: int, k: int, l: int)
    ensures (a * b) * (k * l) == (a * k) * (b * l)
  {
  }

  // ---------------------------------------------------------------- degrees

  /** In the ring, e is a polynomial in x of degree exactly d. */
  ghost predicate HasDegree(c: EllipticCurve, e: Term, d: nat) {
    exists s: Poly :: |s| == d + 1 && Leads(c.p, s) && Eq(c, e, Lift(s))
  }

  lemma DegreeEq(c: EllipticCurve, u: Term, v: Term, d: nat)
    requires Eq(c, u, v) && HasDegree(c, u, d)
    ensures HasDegree(c, v, d)
  {
    var s: Poly :| |s| == d + 1 && Leads(c.p, s) && Eq(c, u, Lift(s));
    EqSym(c, u, v);
    EqTrans(c, v, u, Lift(s));
  }

  lemma LiftProduct(c: EllipticCurve, s: Poly, t: Poly)
    ensures Eq(c, Times(Lift(s), Lift(t)), Lift(Product(s, t)))
  {
    forall x, y ensures Val(Times(Lift(s), Lift(t)), x, y) == Val(Lift(Product(s, t)), x, y) {
      EvalProduct(s, t, x);
      LiftVal(s, x, y);
      LiftVal(t, x, y);
      LiftVal(Product(s, t), x, y);
    }
    EqSame(c, Times(Lift(s), Lift(t)), Lift(Product(s, t)));
  }

  lemma DegreeTimes(c: EllipticCurve, u: Term, v: Term, i: nat, j: nat)
    requires IsPrime(c.p) && HasDegree(c, u, i) && HasDegree(c, v, j)
    ensures HasDegree(c, Times(u, v), i + j)
  {
    var s: Poly :| |s| == i + 1 && Leads(c.p, s) && Eq(c, u, Lift(s));
    var t: Poly :| |t| == j + 1 && Leads(c.p, t) && Eq(c, v, Lift(t));
    ProductLeads(c.p, s, t);
    EqTimes(c, u, Lift(s), v, Lift(t));
    LiftProduct(c, s, t);
    EqTrans(c, Times(u, v), Times(Lift(s), Lift(t)), Lift(Product(s, t)));
  }

  lemma NormDegreeTimes(c: EllipticCurve, u: Term, v: Term, i: nat, j: nat)
    requires IsPrime(c.p) && HasDegree(c, Norm(u), i) && HasDegree(c, Norm(v), j)
    ensures HasDegree(c, Norm(Times(u, v)), i + j)
  {
    DegreeTimes(c, Norm(u), Norm(v), i, j);
    NormTimes(c, u, v);
    EqSym(c, Norm(Times(u, v)), Times(Norm(u), Norm(v)));
    DegreeEq(c, Times(Norm(u), Norm(v)), Norm(Times(u, v)), i + j);
  }

  /** t - s as a pair without y part. */
  lemma LiftsEqual(c: EllipticCurve, s: Poly, t: Poly)
    requires Eq(c, Lift(s), Lift(t))
    ensures AllDivisible(c.p, Sum(t, Scale(-1, s)))
  {
    var r := Sum(t, Scale(-1, s));
    var d := Times(Const(-1), Lift(s));
    forall x, y
      ensures Val(Pair(r, []), x, y) == Val(Plus(d, Lift(t)), x, y)
      ensures Val(Plus(d, Lift(s)), x, y) == 0
    {
      PairVal(r, [], x, y);
      EvalSum(t, Scale(-1, s), x);
      EvalScale(-1, s, x);
      LiftVal(s, x, y);
      LiftVal(t, x, y);
      assert Val(d, x, y) == -Eval(s, x);
    }
    EqSym(c, Lift(s), Lift(t));
    EqSame(c, Pair(r, []), Plus(d, Lift(t)));
    EqRefl(c, d);
    EqPlus(c, d, d, Lift(t), Lift(s));
    EqSame(c, Plus(d, Lift(s)), ZERO);
    EqTrans(c, Pair(r, []), Plus(d, Lift(t)), Plus(d, Lift(s)));
    EqTrans(c, Pair(r, []), Plus(d, Lift(s)), ZERO);
    Components(c, r, []);
  }

  lemma LiftsShorter(c: EllipticCurve, s: Poly, t: Poly)
    requires Eq(c, Lift(s), Lift(t)) && Leads(c.p, t)
    ensures |t| <= |s|
  {
    LiftsEqual(c, s, t);
    var r := Sum(t, Scale(-1, s));
    assert Divides(c.p, r[|r| - 1]);
    if |s| < |t| {
      assert false;
    }
  }

  lemma DegreeUnique(c: EllipticCurve, e: Term, i: nat, j: nat)
    requires HasDegree(c, e, i) && HasDegree(c, e, j)
    ensures i == j
  {
    var s: Poly :| |s| == i + 1 && Leads(c.p, s) && Eq(c, e, Lift(s));
    var t: Poly :| |t| == j + 1 && Leads(c.p, t) && Eq(c, e, Lift(t));
    EqSym(c, e, Lift(s));
    EqSym(c, e, Lift(t));
    EqTrans(c, Lift(s), e, Lift(t));
    EqTrans(c, Lift(t), e, Lift(s));
    LiftsShorter(c, s, t);
    LiftsShorter(c, t, s);
  }

  lemma DegreeNotZero(c: EllipticCurve, e: Term, d: nat)
    requires HasDegree(c, e, d)
    ensures !Eq(c, e, ZERO)
  {
    if Eq(c, e, ZERO) {
      var s: Poly :| |s| == d + 1 && Leads(c.p, s) && Eq(c, e, Lift(s));
      EqSym(c, e, ZERO);
      EqTrans(c, ZERO, e, Lift(s));
      assert Lift([]) == ZERO;
      LiftsShorter(c, [], s);
    }
  }

  // ---------------------------------------------------------------- cancellation

  ghost predicate Trimmed(p: int, s: Poly)
    requires p != 0
  {
    s == [] || Leads(p, s)
  }

  /** The normal form with no leading multiples of p. */
  lemma TrimmedNormal(c: EllipticCurve, e: Term) returns (a: Poly, b: Poly)
    ensures Eq(c, e, Pair(a, b)) && Trimmed(c.p, a) && Trimmed(c.p, b)
  {
    var a0, b0, q := Normal(c, e);
    var r, s;
    a, r := Trim(c.p, a0);
    b, s := Trim(c.p, b0);
    forall x, y ensures Differ(c.p, Off(c, x, y), Val(Pair(a0, b0), x, y), Val(Pair(a, b), x, y),
        Val(Pair(r, s), x, y), 0) {
      PairVal(a0, b0, x, y);
      PairVal(a, b, x, y);
      PairVal(r, s, x, y);
      TrimIdentity(c.p, Off(c, x, y), y, Eval(a0, x), Eval(b0, x), Eval(a, x), Eval(b, x), Eval(r, x), Eval(s, x));
    }
    assert EqBy(c, Pair(a0, b0), Pair(a, b), Pair(r, s), ZERO);
    EqTrans(c, e, Pair(a0, b0), Pair(a, b));
  }

  lemma TrimIdentity(p: int, h: int, y: int, a0: int, b0: int, a: int, b: int, r: int, s: int)
    requires a0 == a + p * r && b0 == b + p * s
    ensures Differ(p, h, a0 + b0 * y, a + b * y, r + s * y, 0)
  {
    assert (b + p * s) * y == b * y + p * (s * y);
    assert p * (r + s * y) == p * r + p * (s * y);
  }

  lemma ProductVanishes(c: EllipticCurve, s: Poly, a: Poly)
    requires IsPrime(c.p) && Leads(c.p, s) && Trimmed(c.p, a) && AllDivisible(c.p, Product(s, a))
    ensures a == []
  {
    if a != [] {
      ProductLeads(c.p, s, a);
      var r := Product(s, a);
      assert false;
    }
  }

  lemma LiftTimesPair(c: EllipticCurve, s: Poly, a: Poly, b: Poly)
    ensures Eq(c, Times(Lift(s), Pair(a, b)), Pair(Product(s, a), Product(s, b)))
  {
    forall x, y ensures Val(Times(Lift(s), Pair(a, b)), x, y) == Val(Pair(Product(s, a), Product(s, b)), x, y) {
      PairVal(a, b, x, y);
      PairVal(Product(s, a), Product(s, b), x, y);
      LiftVal(s, x, y);
      EvalProduct(s, a, x);
      EvalProduct(s, b, x);
      Distribute(Eval(s, x), Eval(a, x), Eval(b, x), y);
    }
    EqSame(c, Times(Lift(s), Pair(a, b)), Pair(Product(s, a), Product(s, b)));
  }

  lemma Distribute(s: int, a: int, b: int, y: int)
    ensures s * (a + b * y) == s * a + (s * b) * y
  {
  }

  /** g is no zero divisor when its norm is not 0. */
  lemma CancelFactor(c: EllipticCurve, g: Term, e: Term, d: nat)
    requires IsPrime(c.p) && HasDegree(c, Norm(g), d) && Eq(c, Times(g, e), ZERO)
    ensures Eq(c, e, ZERO)
  {
    var s: Poly :| |s| == d + 1 && Leads(c.p, s) && Eq(c, Norm(g), Lift(s));
    var a, b := TrimmedNormal(c, e);
    var w := Times(Lift(s), Pair(a, b));
    EqTimes(c, Norm(g), Lift(s), e, Pair(a, b));
    EqSym(c, Times(Norm(g), e), w);
    NormTimesZero(c, g, e);
    EqTrans(c, w, Times(Norm(g), e), ZERO);
    LiftTimesPair(c, s, a, b);
    EqSym(c, w, Pair(Product(s, a), Product(s, b)));
    EqTrans(c, Pair(Product(s, a), Product(s, b)), w, ZERO);
    Components(c, Product(s, a), Product(s, b));
    ProductVanishes(c, s, a);
    ProductVanishes(c, s, b);
    EqSame(c, Pair([], []), ZERO) by {
      forall x, y ensures Val(Pair([], []), x, y) == 0 { PairVal([], [], x, y); }
    }
    EqTrans(c, e, Pair(a, b), ZERO);
  }

  lemma NormTimesZero(c: EllipticCurve, g: Term, e: Term)
    requires Eq(c, Times(g, e), ZERO)
    ensures Eq(c, Times(Norm(g), e), ZERO)
  {
    var m := Times(Conj(g), Times(g, e));
    forall x, y ensures Val(Times(Norm(g), e), x, y) == Val(m, x, y) {
      Regroup(Val(g, x, y), Val(Conj(g), x, y), Val(e, x, y));
    }
    EqSame(c, Times(Norm(g), e), m);
    EqScale(c, Conj(g), Times(g, e), ZERO);
    EqSame(c, Times(Conj(g), ZERO), ZERO);
    EqTrans(c, m, Times(Conj(g), ZERO), ZERO);
    EqTrans(c, Times(Norm(g), e), m, ZERO);
  }

  lemma Regroup(a: int, b: int, e: int)
    ensures (a * b) * e == b * (a * e)
  {
  }

  // ---------------------------------------------------------------- which degrees norms have

  lemma NormOfPair(c: EllipticCurve, a: Poly, b: Poly)
    ensures Eq(c, Norm(Pair(a, b)), Lift(ProductX(c, a, b, a, Scale(-1, b))))
  {
    var b' := Scale(-1, b);
    var s, q := ProductX(c, a, b, a, b'), Times(Lift(b), Lift(b'));
    forall x, y
      ensures Differ(c.p, Off(c, x, y), Val(Norm(Pair(a, b)), x, y), Val(Lift(s), x, y), 0, Val(q, x, y))
    {
      PairProduct(c, a, b, a, b', x, y);
      ConjugatePair(a, b, x, y);
      NormPart(c, a, b, x, y);
    }
    assert EqBy(c, Norm(Pair(a, b)), Lift(s), ZERO, q);
  }

  lemma ConjugatePair(a: Poly, b: Poly, x: int, y: int)
    ensures Val(Norm(Pair(a, b)), x, y) == Val(Pair(a, b), x, y) * Val(Pair(a, Scale(-1, b)), x, y)
  {
    ConjVal(Pair(a, b), x, y);
    PairVal(a, b, x, -y);
    PairVal(a, Scale(-1, b), x, y);
    EvalScale(-1, b, x);
    assert (-1 * Eval(b, x)) * y == Eval(b, x) * -y;
  }

  lemma NormPart(c: EllipticCurve, a: Poly, b: Poly, x: int, y: int)
    ensures var b' := Scale(-1, b);
            var s := ProductX(c, a, b, a, b');
            Val(Pair(s, ProductY(a, b, a, b')), x, y) == Val(Lift(s), x, y)
  {
    var b' := Scale(-1, b);
    var s, t := ProductX(c, a, b, a, b'), ProductY(a, b, a, b');
    PairVal(s, t, x, y);
    LiftVal(s, x, y);
    ProductYEval(a, b, a, b', x);
    EvalScale(-1, b, x);
    Opposite(Eval(a, x), Eval(b, x), Eval(b', x), Eval(t, x), y);
  }

  lemma Opposite(a: int, b: int, b': int, t: int, y: int)
    requires b' == -1 * b && t == a * b' + b * a
    ensures t * y == 0
  {
    assert a * (-1 * b) == -(b * a);
  }

  lemma SumLeads(p: int, s: Poly, t: Poly)
    requires p > 0 && |s| != |t| && Leads(p, if |s| < |t| then t else s)
    ensures Leads(p, Sum(s, t))
  {
  }

  lemma NegateDivisible(p: int, l: int)
    requires p > 0 && Divides(p, -1 * l)
    ensures Divides(p, l)
  {
    DividesProduct(p, -1 * l, -1);
  }

  lemma OppositeLeads(p: int, b: Poly)
    requires p > 0 && Leads(p, b)
    ensures Leads(p, Scale(-1, b))
  {
    if Divides(p, -1 * b[|b| - 1]) {
      NegateDivisible(p, b[|b| - 1]);
    }
  }

  lemma CubicLeads(c: EllipticCurve)
    ensures Leads(c.p, CubicPoly(c))
  {
    SmallMod(1, c.p);
  }

  lemma EvenPart(c: EllipticCurve, a: Poly)
    requires IsPrime(c.p) && Trimmed(c.p, a)
    ensures Trimmed(c.p, Product(a, a)) && |Product(a, a)| == if a == [] then 0 else 2 * |a| - 1
  {
    if a != [] {
      ProductLeads(c.p, a, a);
    }
  }

  lemma OddPart(c: EllipticCurve, b: Poly)
    requires IsPrime(c.p) && Trimmed(c.p, b)
    ensures var s := Product(Product(b, Scale(-1, b)), CubicPoly(c));
            Trimmed(c.p, s) && |s| == if b == [] then 0 else 2 * |b| + 2
  {
    if b != [] {
      OppositeLeads(c.p, b);
      ProductLeads(c.p, b, Scale(-1, b));
      CubicLeads(c);
      ProductLeads(c.p, Product(b, Scale(-1, b)), CubicPoly(c));
    }
  }

  lemma SumOfParts(p: int, s: Poly, t: Poly, m: nat, n: nat)
    requires p > 0 && Trimmed(p, s) && Trimmed(p, t) && m + n > 0
    requires |s| == (if m == 0 then 0 else 2 * m - 1) && |t| == (if n == 0 then 0 else 2 * n + 2)
    ensures Leads(p, Sum(s, t)) && |Sum(s, t)| != 2 && (|Sum(s, t)| == 3 ==> m == 2 && n == 0)
  {
    SumLeads(p, s, t);
  }

  /** The degree of a(x)^2 - b(x)^2 * cubic(x): even from a, odd and at least 3 from b. */
  lemma NormPartDegree(c: EllipticCurve, a: Poly, b: Poly)
    requires IsPrime(c.p) && Trimmed(c.p, a) && Trimmed(c.p, b) && !(a == [] && b == [])
    ensures var s := ProductX(c, a, b, a, Scale(-1, b));
            Leads(c.p, s) && |s| != 2 && (|s| == 3 ==> |a| == 2 && b == [])
  {
    EvenPart(c, a);
    OddPart(c, b);
    SumOfParts(c.p, Product(a, a), Product(Product(b, Scale(-1, b)), CubicPoly(c)), |a|, |b|);
  }

  /** An element other than 0 has a norm; its degree is never 1, and it is 2 only for
      a linear polynomial in x. */
  lemma NormShape(c: EllipticCurve, e: Term) returns (d: nat, k: int, l: int)
    requires IsPrime(c.p) && !Eq(c, e, ZERO)
    ensures HasDegree(c, Norm(e), d) && d != 1
    ensures d == 2 ==> !Divides(c.p, l) && Eq(c, e, Lift([k, l]))
  {
    var a, b := TrimmedNormal(c, e);
    var s := ProductX(c, a, b, a, Scale(-1, b));
    if a == [] && b == [] {
      PairOfNothing(c, e);
      assert false;
    }
    NormPartDegree(c, a, b);
    NormEq(c, e, Pair(a, b));
    NormOfPair(c, a, b);
    EqTrans(c, Norm(e), Norm(Pair(a, b)), Lift(s));
    d := |s| - 1;
    if d == 2 {
      k, l := a[0], a[1];
      assert a == [k, l];
      PairWithoutY(c, e, a);
    } else {
      k, l := 0, 0;
    }
  }

  lemma PairWithoutY(c: EllipticCurve, e: Term, a: Poly)
    requires Eq(c, e, Pair(a, []))
    ensures Eq(c, e, Lift(a))
  {
    forall x, y ensures Val(Pair(a, []), x, y) == Val(Lift(a), x, y) {
      PairVal(a, [], x, y);
      LiftVal(a, x, y);
    }
    EqSame(c, Pair(a, []), Lift(a));
    EqTrans(c, e, Pair(a, []), Lift(a));
  }

  lemma PairOfNothing(c: EllipticCurve, e: Term)
    requires Eq(c, e, Pair([], []))
    ensures Eq(c, e, ZERO)
  {
    PairWithoutY(c, e, []);
  }
}
