/** The coordinate ring of the curve: polynomial expressions in two variables,
    modulo p and modulo y^2 - x^3 - a*x - b. */
module CoordinateRing {
  import opened Modular
  import opened Curve
  import opened Polynomials

  datatype Term = X | Y | Const(k: int) | Plus(u: Term, v: Term) | Times(u: Term, v: Term)

  function Val(e: Term, x: int, y: int): int {
    match e
    case X => x
    case Y => y
    case Const(k) => k
    case Plus(u, v) => Val(u, x, y) + Val(v, x, y)
    case Times(u, v) => Val(u, x, y) * Val(v, x, y)
  }

  lemma Vals()
    ensures forall x, y {:trigger Val(X, x, y)} :: Val(X, x, y) == x
    ensures forall x, y {:trigger Val(Y, x, y)} :: Val(Y, x, y) == y
    ensures forall k, x, y {:trigger Val(Const(k), x, y)} :: Val(Const(k), x, y) == k
    ensures forall u, v, x, y {:trigger Val(Plus(u, v), x, y)} :: Val(Plus(u, v), x, y) == Val(u, x, y) + Val(v, x, y)
    ensures forall u, v, x, y {:trigger Val(Times(u, v), x, y)} :: Val(Times(u, v), x, y) == Val(u, x, y) * Val(v, x, y)
  {
  }

  // ---------------------------------------------------------------- equality in the ring

  /** How far a pair of coordinates is off the curve. */
  function Off(c: EllipticCurve, x: int, y: int): int {
    y * y - Cubic(c, x)
  }

  predicate Differ(p: int, h: int, u: int, v: int, z: int, q: int) {
    u == v + p * z + h * q
  }

  ghost predicate EqBy(c: EllipticCurve, u: Term, v: Term, z: Term, q: Term) {
    forall x, y {:trigger Val(u, x, y)} {:trigger Val(v, x, y)} ::
      Differ(c.p, Off(c, x, y), Val(u, x, y), Val(v, x, y), Val(z, x, y), Val(q, x, y))
  }

  /** u and v are the same function on the curve modulo p. */
  ghost predicate Eq(c: EllipticCurve, u: Term, v: Term) {
    exists z, q :: EqBy(c, u, v, z, q)
  }

  ghost predicate SameValues(u: Term, v: Term) {
    forall x, y {:trigger Val(u, x, y)} {:trigger Val(v, x, y)} :: Val(u, x, y) == Val(v, x, y)
  }

  lemma EqSame(c: EllipticCurve, u: Term, v: Term)
    requires SameValues(u, v)
    ensures Eq(c, u, v)
  {
    forall x, y ensures Differ(c.p, Off(c, x, y), Val(u, x, y), Val(v, x, y), 0, 0) {
      assert Val(u, x, y) == Val(v, x, y);
      assert c.p * 0 == 0 && Off(c, x, y) * 0 == 0;
    }
    assert EqBy(c, u, v, Const(0), Const(0));
  }

  lemma DifferSym(p: int, h: int, u: int, v: int, z: int, q: int)
    requires Differ(p, h, u, v, z, q)
    ensures Differ(p, h, v, u, -1 * z, -1 * q)
  {
    assert p * (-1 * z) == -(p * z) && h * (-1 * q) == -(h * q);
  }

  lemma EqSym(c: EllipticCurve, u: Term, v: Term)
    requires Eq(c, u, v)
    ensures Eq(c, v, u)
  {
    var z, q :| EqBy(c, u, v, z, q);
    var z', q' := Times(Const(-1), z), Times(Const(-1), q);
    forall x, y
      ensures Differ(c.p, Off(c, x, y), Val(v, x, y), Val(u, x, y), Val(z', x, y), Val(q', x, y))
    {
      DifferSym(c.p, Off(c, x, y), Val(u, x, y), Val(v, x, y), Val(z, x, y), Val(q, x, y));
    }
    assert EqBy(c, v, u, z', q');
  }

  lemma DifferTrans(p: int, h: int, u: int, v: int, w: int, z: int, q: int, r: int, s: int)
    requires Differ(p, h, u, v, z, q) && Differ(p, h, v, w, r, s)
    ensures Differ(p, h, u, w, z + r, q + s)
  {
    assert p * (z + r) == p * z + p * r && h * (q + s) == h * q + h * s;
  }

  lemma EqTrans(c: EllipticCurve, u: Term, v: Term, w: Term)
    requires Eq(c, u, v) && Eq(c, v, w)
    ensures Eq(c, u, w)
  {
    var z, q :| EqBy(c, u, v, z, q);
    var r, s :| EqBy(c, v, w, r, s);
    forall x, y
      ensures Differ(c.p, Off(c, x, y), Val(u, x, y), Val(w, x, y), Val(Plus(z, r), x, y), Val(Plus(q, s), x, y))
    {
      DifferTrans(c.p, Off(c, x, y), Val(u, x, y), Val(v, x, y), Val(w, x, y),
        Val(z, x, y), Val(q, x, y), Val(r, x, y), Val(s, x, y));
    }
    assert EqBy(c, u, w, Plus(z, r), Plus(q, s));
  }

  lemma DifferPlus(p: int, h: int, u: int, u': int, z: int, q: int, v: int, v': int, r: int, s: int)
    requires Differ(p, h, u, u', z, q) && Differ(p, h, v, v', r, s)
    ensures Differ(p, h, u + v, u' + v', z + r, q + s)
  {
    assert p * (z + r) == p * z + p * r && h * (q + s) == h * q + h * s;
  }

  lemma EqPlus(c: EllipticCurve, u: Term, u': Term, v: Term, v': Term)
    requires Eq(c, u, u') && Eq(c, v, v')
    ensures Eq(c, Plus(u, v), Plus(u', v'))
  {
    var z, q :| EqBy(c, u, u', z, q);
    var r, s :| EqBy(c, v, v', r, s);
    forall x, y
      ensures Differ(c.p, Off(c, x, y), Val(Plus(u, v), x, y), Val(Plus(u', v'), x, y), Val(Plus(z, r), x, y),
          Val(Plus(q, s), x, y))
    {
      DifferPlus(c.p, Off(c, x, y), Val(u, x, y), Val(u', x, y), Val(z, x, y), Val(q, x, y),
        Val(v, x, y), Val(v', x, y), Val(r, x, y), Val(s, x, y));
    }
    assert EqBy(c, Plus(u, v), Plus(u', v'), Plus(z, r), Plus(q, s));
  }

  lemma DifferTimes(p: int, h: int, u: int, u': int, z: int, q: int, v: int, v': int, r: int, s: int)
    requires Differ(p, h, u, u', z, q) && Differ(p, h, v, v', r, s)
    ensures Differ(p, h, u * v, u' * v', z * v + u' * r, q * v + u' * s)
  {
    assert u * v == u' * v + p * (z * v) + h * (q * v);
    assert u' * v == u' * v' + p * (u' * r) + h * (u' * s);
    assert p * (z * v + u' * r) == p * (z * v) + p * (u' * r);
    assert h * (q * v + u' * s) == h * (q * v) + h * (u' * s);
  }

  lemma EqTimes(c: EllipticCurve, u: Term, u': Term, v: Term, v': Term)
    requires Eq(c, u, u') && Eq(c, v, v')
    ensures Eq(c, Times(u, v), Times(u', v'))
  {
    var z, q :| EqBy(c, u, u', z, q);
    var r, s :| EqBy(c, v, v', r, s);
    var z', q' := Plus(Times(z, v), Times(u', r)), Plus(Times(q, v), Times(u', s));
    forall x, y
      ensures Differ(c.p, Off(c, x, y), Val(Times(u, v), x, y), Val(Times(u', v'), x, y), Val(z', x, y), Val(q', x, y))
    {
      DifferTimes(c.p, Off(c, x, y), Val(u, x, y), Val(u', x, y), Val(z, x, y), Val(q, x, y),
        Val(v, x, y), Val(v', x, y), Val(r, x, y), Val(s, x, y));
      ValTimesSum(z, v, u', r, x, y);
      ValTimesSum(q, v, u', s, x, y);
    }
    assert EqBy(c, Times(u, v), Times(u', v'), z', q');
  }

  lemma ValTimesSum(a: Term, b: Term, d: Term, e: Term, x: int, y: int)
    ensures Val(Plus(Times(a, b), Times(d, e)), x, y)
         == Val(a, x, y) * Val(b, x, y) + Val(d, x, y) * Val(e, x, y)
  {
  }

  lemma EqRefl(c: EllipticCurve, u: Term)
    ensures Eq(c, u, u)
  {
    EqSame(c, u, u);
  }

  /** Multiplying both sides. */
  lemma EqScale(c: EllipticCurve, k: Term, u: Term, v: Term)
    requires Eq(c, u, v)
    ensures Eq(c, Times(k, u), Times(k, v))
  {
    EqRefl(c, k);
    EqTimes(c, k, k, u, v);
  }

  /** Replacing m by an equal n in u, where its cofactor is k. */
  lemma EqReplace(c: EllipticCurve, u: Term, m: Term, n: Term, k: Term, r: Term)
    requires Eq(c, m, n)
    requires forall x, y {:trigger Val(r, x, y)} ::
        Val(r, x, y) == Val(u, x, y) + (Val(n, x, y) - Val(m, x, y)) * Val(k, x, y)
    ensures Eq(c, u, r)
  {
    var z, q :| EqBy(c, m, n, z, q);
    forall x, y
      ensures Differ(c.p, Off(c, x, y), Val(u, x, y), Val(r, x, y), Val(Times(z, k), x, y), Val(Times(q, k), x, y))
    {
      DifferReplace(c.p, Off(c, x, y), Val(u, x, y), Val(m, x, y), Val(n, x, y), Val(k, x, y), Val(r, x, y),
        Val(z, x, y), Val(q, x, y));
    }
    assert EqBy(c, u, r, Times(z, k), Times(q, k));
  }

  lemma DifferReplace(p: int, h: int, u: int, m: int, n: int, k: int, r: int, z: int, q: int)
    requires Differ(p, h, m, n, z, q) && r == u + (n - m) * k
    ensures Differ(p, h, u, r, z * k, q * k)
  {
    assert (p * z + h * q) * k == p * (z * k) + h * (q * k);
  }

  lemma DifferCongruent(p: int, h: int, u: int, v: int, z: int, q: int)
    requires p > 0 && Divides(p, h) && Differ(p, h, u, v, z, q)
    ensures Congruent(u, v, p)
  {
    DividesWitness(p, p * z, z);
    DividesProduct(p, h, q);
    DividesSum(p, p * z, h * q);
  }

  /** At a point of the curve, equal functions have congruent values. */
  lemma EqAt(c: EllipticCurve, u: Term, v: Term, x: int, y: int)
    requires Eq(c, u, v) && IsOnCurve(c, Affine(x, y))
    ensures Congruent(Val(u, x, y), Val(v, x, y), c.p)
  {
    var z, q :| EqBy(c, u, v, z, q);
    OnCurveCubic(c, x, y);
    DifferCongruent(c.p, Off(c, x, y), Val(u, x, y), Val(v, x, y), Val(z, x, y), Val(q, x, y));
  }

  // ---------------------------------------------------------------- polynomials in x, and the normal form

  function Lift(s: Poly): Term {
    if |s| == 0 then Const(0) else Plus(Const(s[0]), Times(X, Lift(s[1..])))
  }

  lemma {:induction false} LiftVal(s: Poly, x: int, y: int)
    ensures Val(Lift(s), x, y) == Eval(s, x)
  {
    Vals();
    if |s| > 0 {
      LiftVal(s[1..], x, y);
    }
  }

  lemma LiftVals()
    ensures forall s, x, y {:trigger Val(Lift(s), x, y)} :: Val(Lift(s), x, y) == Eval(s, x)
  {
    forall s, x, y ensures Val(Lift(s), x, y) == Eval(s, x) { LiftVal(s, x, y); }
  }

  /** a(x) + b(x) * y */
  function Pair(a: Poly, b: Poly): Term {
    Plus(Lift(a), Times(Lift(b), Y))
  }

  lemma PairVal(a: Poly, b: Poly, x: int, y: int)
    ensures Val(Pair(a, b), x, y) == Eval(a, x) + Eval(b, x) * y
  {
    Vals();
    LiftVals();
  }

  function CubicPoly(c: EllipticCurve): Poly {
    [c.b, c.a, 0, 1]
  }

  lemma CubicEval(c: EllipticCurve, t: int)
    ensures Eval(CubicPoly(c), t) == Cubic(c, t)
  {
    var s := CubicPoly(c);
    assert s[1..] == [c.a, 0, 1] && s[1..][1..] == [0, 1] && s[1..][1..][1..] == [1] && [1][1..] == [];
    assert Eval([1], t) == 1;
    assert Eval([0, 1], t) == t;
    assert Eval([c.a, 0, 1], t) == c.a + t * t;
    assert t * (c.a + t * t) == c.a * t + t * t * t;
  }

  /** Every expression is some a(x) + b(x) * y plus a multiple of y^2 - cubic. */
  lemma {:induction false} Normal(c: EllipticCurve, e: Term) returns (a: Poly, b: Poly, q: Term)
    ensures EqBy(c, e, Pair(a, b), Const(0), q)
  {
    Vals();
    match e
    case X =>
      a, b, q := [0, 1], [], Const(0);
      forall x, y ensures Val(Pair(a, b), x, y) == x {
        PairVal(a, b, x, y);
        assert Eval([1], x) == 1 && a[1..] == [1];
      }
    case Y =>
      a, b, q := [], [1], Const(0);
      forall x, y ensures Val(Pair(a, b), x, y) == y {
        PairVal(a, b, x, y);
        assert Eval([1], x) == 1;
      }
    case Const(k) =>
      a, b, q := [k], [], Const(0);
      forall x, y ensures Val(Pair(a, b), x, y) == k {
        PairVal(a, b, x, y);
        assert Eval([k], x) == k;
      }
    case Plus(u, v) =>
      var a1, b1, q1 := Normal(c, u);
      var a2, b2, q2 := Normal(c, v);
      a, b, q := Sum(a1, a2), Sum(b1, b2), Plus(q1, q2);
      forall x, y ensures Val(Pair(a, b), x, y) == Val(Pair(a1, b1), x, y) + Val(Pair(a2, b2), x, y) {
        PairSum(a1, b1, a2, b2, x, y);
      }
      NormalPlus(c, u, Pair(a1, b1), q1, v, Pair(a2, b2), q2, Pair(a, b));
    case Times(u, v) =>
      var a1, b1, q1 := Normal(c, u);
      var a2, b2, q2 := Normal(c, v);
      var n1, n2, k := Pair(a1, b1), Pair(a2, b2), Times(Lift(b1), Lift(b2));
      a, b, q := ProductX(c, a1, b1, a2, b2), ProductY(a1, b1, a2, b2), Plus(Plus(Times(q1, v), Times(n1, q2)), k);
      forall x, y ensures Differ(c.p, Off(c, x, y), Val(n1, x, y) * Val(n2, x, y), Val(Pair(a, b), x, y), 0,
          Val(k, x, y)) {
        PairProduct(c, a1, b1, a2, b2, x, y);
      }
      NormalTimes(c, u, n1, q1, v, n2, q2, Pair(a, b), k);
  }

  lemma NormalPlus(c: EllipticCurve, u: Term, n1: Term, q1: Term, v: Term, n2: Term, q2: Term, w: Term)
    requires EqBy(c, u, n1, Const(0), q1) && EqBy(c, v, n2, Const(0), q2)
    requires forall x, y {:trigger Val(w, x, y)} :: Val(w, x, y) == Val(n1, x, y) + Val(n2, x, y)
    ensures EqBy(c, Plus(u, v), w, Const(0), Plus(q1, q2))
  {
    forall x, y
      ensures Differ(c.p, Off(c, x, y), Val(Plus(u, v), x, y), Val(w, x, y), 0, Val(Plus(q1, q2), x, y))
    {
      DifferPlus(c.p, Off(c, x, y), Val(u, x, y), Val(n1, x, y), 0, Val(q1, x, y),
        Val(v, x, y), Val(n2, x, y), 0, Val(q2, x, y));
    }
  }

  lemma PairSum(a1: Poly, b1: Poly, a2: Poly, b2: Poly, x: int, y: int)
    ensures Val(Pair(Sum(a1, a2), Sum(b1, b2)), x, y) == Val(Pair(a1, b1), x, y) + Val(Pair(a2, b2), x, y)
  {
    PairVal(a1, b1, x, y);
    PairVal(a2, b2, x, y);
    PairVal(Sum(a1, a2), Sum(b1, b2), x, y);
    EvalSum(a1, a2, x);
    EvalSum(b1, b2, x);
    assert (Eval(b1, x) + Eval(b2, x)) * y == Eval(b1, x) * y + Eval(b2, x) * y;
  }

  lemma NormalTimes(c: EllipticCurve, u: Term, n1: Term, q1: Term, v: Term, n2: Term, q2: Term, w: Term, k: Term)
    requires EqBy(c, u, n1, Const(0), q1) && EqBy(c, v, n2, Const(0), q2)
    requires forall x, y {:trigger Val(w, x, y)} ::
               Differ(c.p, Off(c, x, y), Val(n1, x, y) * Val(n2, x, y), Val(w, x, y), 0, Val(k, x, y))
    ensures EqBy(c, Times(u, v), w, Const(0), Plus(Plus(Times(q1, v), Times(n1, q2)), k))
  {
    var q := Plus(Times(q1, v), Times(n1, q2));
    forall x, y
      ensures Differ(c.p, Off(c, x, y), Val(Times(u, v), x, y), Val(w, x, y), 0, Val(Plus(q, k), x, y))
    {
      var h := Off(c, x, y);
      DifferTimes(c.p, h, Val(u, x, y), Val(n1, x, y), 0, Val(q1, x, y), Val(v, x, y), Val(n2, x, y), 0, Val(q2, x, y));
      ValTimesSum(q1, v, n1, q2, x, y);
      DifferTrans(c.p, h, Val(Times(u, v), x, y), Val(n1, x, y) * Val(n2, x, y), Val(w, x, y),
        0, Val(q, x, y), 0, Val(k, x, y));
    }
  }

  /** The two parts of a product of pairs, y^2 being replaced by the cubic. */
  function ProductX(c: EllipticCurve, a1: Poly, b1: Poly, a2: Poly, b2: Poly): Poly {
    Sum(Product(a1, a2), Product(Product(b1, b2), CubicPoly(c)))
  }

  function ProductY(a1: Poly, b1: Poly, a2: Poly, b2: Poly): Poly {
    Sum(Product(a1, b2), Product(b1, a2))
  }

  lemma ProductXEval(c: EllipticCurve, a1: Poly, b1: Poly, a2: Poly, b2: Poly, x: int)
    ensures Eval(ProductX(c, a1, b1, a2, b2), x)
         == Eval(a1, x) * Eval(a2, x) + (Eval(b1, x) * Eval(b2, x)) * Cubic(c, x)
  {
    EvalSum(Product(a1, a2), Product(Product(b1, b2), CubicPoly(c)), x);
    EvalProduct(a1, a2, x);
    EvalProduct(b1, b2, x);
    EvalProduct(Product(b1, b2), CubicPoly(c), x);
    CubicEval(c, x);
  }

  lemma ProductYEval(a1: Poly, b1: Poly, a2: Poly, b2: Poly, x: int)
    ensures Eval(ProductY(a1, b1, a2, b2), x) == Eval(a1, x) * Eval(b2, x) + Eval(b1, x) * Eval(a2, x)
  {
    EvalSum(Product(a1, b2), Product(b1, a2), x);
    EvalProduct(a1, b2, x);
    EvalProduct(b1, a2, x);
  }

  lemma PairProduct(c: EllipticCurve, a1: Poly, b1: Poly, a2: Poly, b2: Poly, x: int, y: int)
    ensures Differ(c.p, Off(c, x, y), Val(Pair(a1, b1), x, y) * Val(Pair(a2, b2), x, y),
                   Val(Pair(ProductX(c, a1, b1, a2, b2), ProductY(a1, b1, a2, b2)), x, y),
                   0, Val(Times(Lift(b1), Lift(b2)), x, y))
  {
    var a, b := ProductX(c, a1, b1, a2, b2), ProductY(a1, b1, a2, b2);
    PairVal(a1, b1, x, y);
    PairVal(a2, b2, x, y);
    PairVal(a, b, x, y);
    ProductXEval(c, a1, b1, a2, b2, x);
    ProductYEval(a1, b1, a2, b2, x);
    LiftVal(b1, x, y);
    LiftVal(b2, x, y);
    PairIdentity(c.p, Eval(a1, x), Eval(b1, x), Eval(a2, x), Eval(b2, x), y, Cubic(c, x), Eval(a, x), Eval(b, x),
      Val(Pair(a1, b1), x, y), Val(Pair(a2, b2), x, y), Off(c, x, y), Val(Pair(a, b), x, y));
  }

  lemma PairIdentity(p: int, a1: int, b1: int, a2: int, b2: int, y: int, f: int, a: int, b: int, n1: int, n2: int,
      h: int, w: int)
    requires a == a1 * a2 + (b1 * b2) * f && b == a1 * b2 + b1 * a2
    requires n1 == a1 + b1 * y && n2 == a2 + b2 * y && w == a + b * y && h == y * y - f
    ensures Differ(p, h, n1 * n2, w, 0, b1 * b2)
  {
    assert (a1 + b1 * y) * (a2 + b2 * y) == a1 * a2 + (a1 * b2 + b1 * a2) * y + (b1 * b2) * (y * y);
    assert h * (b1 * b2) == (b1 * b2) * (y * y) - (b1 * b2) * f;
  }
}
