/** `point_add` is associative: both sums of three points leave the same class of ideals
    modulo the principal ones, and a class holds at most one point. */
module Associativity {
  import opened Wrappers
  import opened Modular
  import opened Curve
  import opened Polynomials
  import opened CoordinateRing
  import opened Norms
  import opened Ideals
  import opened Lines

  // ---------------------------------------------------------------- opposite points

  function Opposed(c: EllipticCurve, point: Point): Point {
    match point
    case Infinity => Infinity
    case Affine(x, y) => Affine(x, -y % c.p)
  }

  lemma OpposedValid(c: EllipticCurve, point: Point)
    requires Valid(c, point)
    ensures Valid(c, Opposed(c, point)) && PointNeg(c, point) == Ok(Opposed(c, point))
  {
    NegClosed(c, point);
  }

  lemma OpposedMirrors(c: EllipticCurve, point: Point)
    requires NeverVertical(c) && Valid(c, point) && point.Affine?
    ensures var mirror := Opposed(c, point);
            Mirrors(c, point, mirror) && !Divides(c.p, point.y - mirror.y)
  {
    var (v, w) := (point.y, -point.y % c.p);
    CongruentMod(-v, c.p);
    assert w - -v == v + w;
    if Divides(c.p, v - w) {
      DoubleDivisible(c.p, v, w);
      assert false;
    }
  }

  lemma DoubleDivisible(p: int, v: int, w: int)
    requires p > 0 && Divides(p, v + w) && Divides(p, v - w)
    ensures Divides(p, 2 * v)
  {
    DividesSum(p, v + w, v - w);
  }

  lemma OpposedInjective(c: EllipticCurve, p: Point, q: Point)
    requires Valid(c, p) && Valid(c, q) && Opposed(c, p) == Opposed(c, q)
    ensures p == q
  {
    if p.Affine? {
      CongruentIffSameMod(-p.y, -q.y, c.p);
      CongruentSym(-p.y, -q.y, c.p);
      ResiduesApart(c.p, p.y, q.y);
    }
  }

  lemma NothingGenerated(c: EllipticCurve)
    ensures Generates(c, [], ONE)
  {
    forall u ensures Multiple(c, u, ONE) {
      forall x, y ensures Val(u, x, y) == Val(Times(ONE, u), x, y) {}
      EqSame(c, u, Times(ONE, u));
    }
    forall x, y ensures Val(Norm(ONE), x, y) == Val(Lift([1]), x, y) {
      LiftVal([1], x, y);
      assert Eval([1], x) == 1;
    }
    EqSame(c, Norm(ONE), Lift([1]));
    SmallMod(1, c.p);
    assert Leads(c.p, [1]);
  }

  /** Infinity adds nothing to a list. */
  lemma GeneratesWithInfinity(c: EllipticCurve, points: seq<Point>, g: Term)
    requires Generates(c, points, g)
    ensures Generates(c, [Infinity] + points, g)
  {
    assert ([Infinity] + points)[1..] == points;
    assert forall u :: In(c, [Infinity] + points, u) <==> In(c, points, u);
    assert Finite([Infinity] + points) == Finite(points);
  }

  /** The ideal of a point and its opposite is principal. */
  lemma OppositesGenerated(c: EllipticCurve, point: Point) returns (g: Term)
    requires NeverVertical(c) && Valid(c, point)
    ensures Generates(c, [point, Opposed(c, point)], g)
  {
    if point.Infinity? {
      g := ONE;
      NothingGenerated(c);
      GeneratesWithInfinity(c, [], g);
      assert [Infinity] + [] == [Infinity];
      GeneratesWithInfinity(c, [Infinity], g);
      assert [Infinity] + [Infinity] == [Infinity, Infinity];
    } else {
      g := XAt(point);
      OpposedMirrors(c, point);
      PairGenerated(c, point, Opposed(c, point));
    }
  }

  // ---------------------------------------------------------------- the line of an addition

  /** p divides the coefficients of a quadratic when it divides its values. */
  lemma QuadraticVanishes(p: int, d0: int, d1: int, d2: int)
    requires IsPrime(p) && p > 2
    requires Divides(p, d0) && Divides(p, d0 + d1 + d2) && Divides(p, d0 - d1 + d2)
    ensures Divides(p, d1) && Divides(p, d2)
  {
    SmallMod(2, p);
    DividesSum(p, d0 + d1 + d2, d0 - d1 + d2);
    DividesSum(p, d0 + d1 + d2 + (d0 - d1 + d2), d0 + d0) by { DividesSum(p, d0, d0); }
    assert d0 + d1 + d2 + (d0 - d1 + d2) - (d0 + d0) == 2 * d2;
    assert d0 + d1 + d2 - (d0 - d1 + d2) == 2 * d1;
    PrimeDividesProduct(p, 2, d1);
    PrimeDividesProduct(p, 2, d2);
  }

  /** cubic(t) - (m*t + k)^2 - (t - x1)(t - x2)(t - x3), by its three coefficients. */
  function Difference(c: EllipticCurve, m: int, k: int, x1: int, x2: int, x3: int): (int, int, int) {
    (c.b - k * k + x1 * (x2 * x3), c.a - 2 * (m * k) - (x1 * x2 + x1 * x3 + x2 * x3), x1 + x2 + x3 - m * m)
  }

  function Quadratic(d: (int, int, int), t: int): int {
    d.0 + t * (d.1 + t * d.2)
  }

  lemma ThreeFactors(t: int, x1: int, x2: int, x3: int)
    ensures (t - x1) * ((t - x2) * (t - x3))
         == t * t * t - (x1 + x2 + x3) * (t * t) + (x1 * x2 + x1 * x3 + x2 * x3) * t - x1 * (x2 * x3)
  {
    assert (t - x2) * (t - x3) == t * t - (x2 + x3) * t + x2 * x3;
  }

  lemma LineSquare(m: int, k: int, t: int)
    ensures (m * t + k) * (m * t + k) == (m * m) * (t * t) + (2 * (m * k)) * t + k * k
  {
  }

  lemma CollectQuadratic(t: int, a: int, b: int, m2: int, mk: int, k2: int, e1: int, e2: int, e3: int)
    ensures a * t + b - (m2 * (t * t) + mk * t + k2) + e1 * (t * t) - e2 * t + e3
         == (b - k2 + e3) + t * ((a - mk - e2) + t * (e1 - m2))
  {
  }

  lemma DifferenceAt(c: EllipticCurve, m: int, k: int, x1: int, x2: int, x3: int, t: int)
    ensures Cubic(c, t) - (m * t + k) * (m * t + k) - (t - x1) * ((t - x2) * (t - x3))
         == Quadratic(Difference(c, m, k, x1, x2, x3), t)
  {
    ThreeFactors(t, x1, x2, x3);
    LineSquare(m, k, t);
    CollectQuadratic(t, c.a, c.b, m * m, 2 * (m * k), k * k, x1 + x2 + x3, x1 * x2 + x1 * x3 + x2 * x3, x1 * (x2 * x3));
  }

  lemma LineForm(m: int, x1: int, y1: int, t: int)
    ensures Line(m, x1, y1, t) == m * t + (y1 - m * x1)
  {
    assert m * (t - x1) == m * t - m * x1;
  }

  lemma DifferenceDivisible(c: EllipticCurve, m: int, x1: int, y1: int, x2: int, x3: int, t: int)
    requires MeetsIn(c, m, x1, y1, x2, x3)
    ensures Divides(c.p, Quadratic(Difference(c, m, y1 - m * x1, x1, x2, x3), t))
  {
    var l := Line(m, x1, y1, t);
    assert Congruent(Cubic(c, t) - l * l, (t - x1) * (t - x2) * (t - x3), c.p);
    LineForm(m, x1, y1, t);
    assert (t - x1) * (t - x2) * (t - x3) == (t - x1) * ((t - x2) * (t - x3));
    DifferenceAt(c, m, y1 - m * x1, x1, x2, x3, t);
  }

  /** The congruence of values is one of coefficients. */
  lemma MeetsInCoefficients(c: EllipticCurve, m: int, x1: int, y1: int, x2: int, x3: int) returns (e: (int, int, int))
    requires IsPrime(c.p) && c.p > 2 && MeetsIn(c, m, x1, y1, x2, x3)
    ensures Difference(c, m, y1 - m * x1, x1, x2, x3) == (c.p * e.0, c.p * e.1, c.p * e.2)
  {
    var d := Difference(c, m, y1 - m * x1, x1, x2, x3);
    DifferenceDivisible(c, m, x1, y1, x2, x3, 0);
    DifferenceDivisible(c, m, x1, y1, x2, x3, 1);
    DifferenceDivisible(c, m, x1, y1, x2, x3, -1);
    assert Quadratic(d, 0) == d.0 && Quadratic(d, 1) == d.0 + d.1 + d.2 && Quadratic(d, -1) == d.0 - d.1 + d.2;
    QuadraticVanishes(c.p, d.0, d.1, d.2);
    e := (Quotient(d.0, c.p), Quotient(d.1, c.p), Quotient(d.2, c.p));
  }

  lemma ThreeXVal(p: Point, q: Point, r: Point, x: int, y: int)
    requires p.Affine? && q.Affine? && r.Affine?
    ensures Val(ThreeX(p, q, r), x, y) == (x - p.x) * ((x - q.x) * (x - r.x))
  {
    AtVal(p, x, y);
    AtVal(q, x, y);
    AtVal(r, x, y);
    assert Val(Times(XAt(q), XAt(r)), x, y) == (x - q.x) * (x - r.x);
  }

  lemma ThreeXIdentity(p: int, h: int, f: int, y: int, l: int, three: int, d: int, e: int)
    requires h == y * y - f && f - l * l - three == d && d == p * e
    ensures Differ(p, h, three, (y - l) * (y + l), -e, -1)
  {
    assert (y - l) * (y + l) == y * y - l * l;
    assert p * -e == -(p * e);
  }

  lemma QuadraticMultiple(p: int, d: (int, int, int), e: (int, int, int), t: int)
    requires d == (p * e.0, p * e.1, p * e.2)
    ensures Quadratic(d, t) == p * Quadratic(e, t)
  {
    assert t * (p * e.1 + t * (p * e.2)) == p * (t * (e.1 + t * e.2));
  }

  lemma MeetsInProduct(c: EllipticCurve, m: int, p: Point, q: Point, r: Point)
    requires IsPrime(c.p) && c.p > 2 && p.Affine? && q.Affine? && r.Affine?
    requires MeetsIn(c, m, p.x, p.y, q.x, r.x)
    ensures var k := p.y - m * p.x; Eq(c, ThreeX(p, q, r), Times(LineTerm(m, k), LineMirror(m, k)))
  {
    var k := p.y - m * p.x;
    var d := Difference(c, m, k, p.x, q.x, r.x);
    var e := MeetsInCoefficients(c, m, p.x, p.y, q.x, r.x);
    var u, v, z := ThreeX(p, q, r), Times(LineTerm(m, k), LineMirror(m, k)), Lift([-e.0, -e.1, -e.2]);
    forall x, y ensures Differ(c.p, Off(c, x, y), Val(u, x, y), Val(v, x, y), Val(z, x, y), -1) {
      ThreeXVal(p, q, r, x, y);
      LineVal(m, k, x, y);
      DifferenceAt(c, m, k, p.x, q.x, r.x, x);
      QuadraticMultiple(c.p, d, e, x);
      NegativeLift(e, x, y);
      ThreeXIdentity(c.p, Off(c, x, y), Cubic(c, x), y, m * x + k, Val(u, x, y), Quadratic(d, x), Quadratic(e, x));
    }
    assert EqBy(c, u, v, z, Const(-1));
  }

  lemma NegativeLift(e: (int, int, int), x: int, y: int)
    ensures Val(Lift([-e.0, -e.1, -e.2]), x, y) == -Quadratic(e, x)
  {
    LiftVal([-e.0, -e.1, -e.2], x, y);
    EvalThree(-e.0, -e.1, -e.2, x);
    assert x * (-e.1 + x * -e.2) == -(x * (e.1 + x * e.2));
  }

  lemma OrdinateInvertible(c: EllipticCurve, point: Point)
    requires NeverVertical(c) && Valid(c, point) && point.Affine?
    ensures !Divides(c.p, point.y) && c.p > 2
  {
    if Divides(c.p, point.y) || c.p == 2 {
      EvenOrVanishing(c.p, point.y);
      assert false;
    }
  }

  lemma EvenOrVanishing(p: int, y: int)
    requires p > 1 && (Divides(p, y) || p == 2)
    ensures Divides(p, 2 * y)
  {
    if Divides(p, y) {
      DividesProduct(p, y, 2);
    } else {
      DividesWitness(p, 2 * y, y);
    }
  }

  /** Two points and the opposite of their sum are collinear. */
  lemma AdditionCollinear(c: EllipticCurve, p: Point, q: Point, sum: Point, m: int)
    requires NeverVertical(c) && Valid(c, p) && Valid(c, q) && Valid(c, sum)
    requires p.Affine? && q.Affine? && sum.Affine? && OnOneLine(c, m, p, q, sum)
    ensures Collinear(c, m, p.y - m * p.x, p, q, Opposed(c, sum)) && c.p > 2
  {
    var k, r := p.y - m * p.x, Opposed(c, sum);
    OpposedValid(c, sum);
    OrdinateInvertible(c, p);
    OrdinateInvertible(c, q);
    OrdinateInvertible(c, r);
    LineForm(m, p.x, p.y, q.x);
    LineForm(m, p.x, p.y, sum.x);
    DividesWitness(c.p, p.y - (m * p.x + k), 0);
    CongruentSym(m * q.x + k, q.y, c.p);
    CongruentMod(-sum.y, c.p);
    CongruentTrans(m * sum.x + k, -sum.y, r.y, c.p);
    CongruentSym(m * sum.x + k, r.y, c.p);
    MeetsInProduct(c, m, p, q, r);
  }

  lemma PermutedExists(c: EllipticCurve, a: Point, b: Point, d: Point, from: seq<Point>, g: Term)
    requires Generates(c, from, g) && multiset(from) == multiset{a, b, d}
    ensures Generates(c, [a, b, d], g)
  {
    GeneratesPermuted(c, from, [a, b, d], g);
  }

  lemma WithInfinityGenerated(c: EllipticCurve, point: Point) returns (g: Term)
    requires NeverVertical(c) && Valid(c, point)
    ensures Generates(c, [Infinity, point, Opposed(c, point)], g)
  {
    var rest := [point, Opposed(c, point)];
    g := OppositesGenerated(c, point);
    GeneratesWithInfinity(c, rest, g);
    assert [Infinity] + rest == [Infinity, point, Opposed(c, point)];
  }

  lemma SlopeGenerated(c: EllipticCurve, p: Point, q: Point, sum: Point) returns (g: Term)
    requires NeverVertical(c) && Valid(c, p) && Valid(c, q) && PointAdd(c, p, q) == Ok(sum) && NeedsSlope(p, q)
    ensures Generates(c, [p, q, Opposed(c, sum)], g)
  {
    AddFailsExactly(c, p, q);
    AddIsThirdIntersection(c, p, q);
    var m :| OnOneLine(c, m, p, q, sum);
    AdditionCollinear(c, p, q, sum, m);
    g := LineTerm(m, p.y - m * p.x);
    LineGenerated(c, m, p.y - m * p.x, p, q, Opposed(c, sum));
  }

  lemma OppositeWhenVertical(c: EllipticCurve, p: Point, q: Point)
    requires IsPrime(c.p) && Valid(c, p) && Valid(c, q) && p.Affine? && q.Affine? && !NeedsSlope(p, q)
    ensures PointAdd(c, p, q) == Ok(Infinity) && q == Opposed(c, p)
  {
    AddIsInfinityExactly(c, p, q);
    OpposedValid(c, p);
  }

  /** An addition makes an ideal principal: of both operands and the opposite of the sum. */
  lemma AdditionGenerated(c: EllipticCurve, p: Point, q: Point, sum: Point) returns (g: Term)
    requires NeverVertical(c) && Valid(c, p) && Valid(c, q) && PointAdd(c, p, q) == Ok(sum)
    ensures Generates(c, [p, q, Opposed(c, sum)], g)
  {
    if p.Infinity? {
      g := WithInfinityGenerated(c, q);
    } else if q.Infinity? {
      g := WithInfinityGenerated(c, p);
      PermutedExists(c, p, q, Opposed(c, p), [Infinity, p, Opposed(c, p)], g);
    } else if NeedsSlope(p, q) {
      g := SlopeGenerated(c, p, q, sum);
    } else {
      OppositeWhenVertical(c, p, q);
      g := WithInfinityGenerated(c, p);
      PermutedExists(c, p, q, Infinity, [Infinity, p, q], g);
    }
  }

  // ---------------------------------------------------------------- at most one point in a class

  /** From generators of U*J and V*J, an element of V gives one of U with
      proportional values. */
  lemma Transfer(c: EllipticCurve, u: Point, v: Point, rest: seq<Point>, g1: Term, g2: Term, s: Term) returns (k: Term)
    requires Generates(c, [u] + rest, g1) && Generates(c, [v] + rest, g2) && In(c, [v], s)
    ensures In(c, [u], k) && Eq(c, Times(s, g1), Times(g2, k))
  {
    InTimes(c, [v], [u] + rest, s, g1);
    InPermuted(c, [v] + ([u] + rest), [u] + ([v] + rest), Times(s, g1));
    k := FactorOut(c, [u], [v] + rest, g2, Times(s, g1));
  }

  /** The degree of the transferred element's norm. */
  lemma TransferDegree(c: EllipticCurve, s: Term, g1: Term, g2: Term, e: Term, i: nat, j: nat, n: nat)
    returns (k: int, l: int)
    requires IsPrime(c.p) && Eq(c, Times(s, g1), Times(g2, e))
    requires HasDegree(c, Norm(s), i) && HasDegree(c, Norm(g1), j) && HasDegree(c, Norm(g2), n)
    ensures i + j != n + 1
    ensures i + j == n + 2 ==> !Divides(c.p, l) && Eq(c, e, Lift([k, l]))
  {
    NormDegreeTimes(c, s, g1, i, j);
    NormEq(c, Times(s, g1), Times(g2, e));
    DegreeEq(c, Norm(Times(s, g1)), Norm(Times(g2, e)), i + j);
    TransferNotZero(c, g2, e, i + j);
    var d;
    d, k, l := NormShape(c, e);
    NormDegreeTimes(c, g2, e, n, d);
    DegreeUnique(c, Norm(Times(g2, e)), i + j, n + d);
  }

  lemma TransferNotZero(c: EllipticCurve, g: Term, e: Term, d: nat)
    requires HasDegree(c, Norm(Times(g, e)), d)
    ensures !Eq(c, e, ZERO)
  {
    if Eq(c, e, ZERO) {
      EqScale(c, g, e, ZERO);
      NormEq(c, Times(g, e), Times(g, ZERO));
      forall x, y ensures Val(Norm(Times(g, ZERO)), x, y) == Val(ZERO, x, y) {
        assert Val(Times(g, ZERO), x, y) == 0;
      }
      EqSame(c, Norm(Times(g, ZERO)), ZERO);
      EqTrans(c, Norm(Times(g, e)), Norm(Times(g, ZERO)), ZERO);
      DegreeNotZero(c, Norm(Times(g, e)), d);
      assert false;
    }
  }

  /** Infinity and an affine point are in different classes: a norm never has degree 1. */
  lemma InfinityApart(c: EllipticCurve, u: Point, rest: seq<Point>, g1: Term, g2: Term)
    requires IsPrime(c.p) && Generates(c, [u] + rest, g1) && Generates(c, [Infinity] + rest, g2)
    ensures u.Infinity?
  {
    if u.Affine? {
      var e := Transfer(c, u, Infinity, rest, g1, g2, ONE);
      var n := Finite([Infinity] + rest);
      assert Finite([u] + rest) == n + 1;
      NothingGenerated(c);
      var k, l := TransferDegree(c, ONE, g1, g2, e, 0, n + 1, n);
      assert false;
    }
  }

  function Less(u: Term, v: Term): Term {
    Plus(u, Times(Const(-1), v))
  }

  lemma LessVal(u: Term, v: Term, x: int, y: int)
    ensures Val(Less(u, v), x, y) == Val(u, x, y) - Val(v, x, y)
  {
    assert Val(Times(Const(-1), v), x, y) == -Val(v, x, y);
  }

  lemma CrossIdentity(s: int, t: int, g1: int, g2: int, s': int, t': int)
    ensures s * g1 * t' + (g2 * s' - s * g1) * t' == g2 * s' * t'
    ensures g1 * (s * t' - t * s') + (g2 * s' - s * g1) * t' + (t * g1 - g2 * t') * s' == 0
  {
    assert (g2 * s' - s * g1) * t' == g2 * s' * t' - s * g1 * t';
    assert (t * g1 - g2 * t') * s' == t * g1 * s' - g2 * s' * t';
    assert g1 * (s * t' - t * s') == s * g1 * t' - t * g1 * s';
  }

  /** Proportional pairs: s*t' = t*s'. */
  lemma CrossMultiply(c: EllipticCurve, s: Term, t: Term, g1: Term, g2: Term, s': Term, t': Term, d: nat)
    requires IsPrime(c.p) && HasDegree(c, Norm(g1), d)
    requires Eq(c, Times(s, g1), Times(g2, s')) && Eq(c, Times(t, g1), Times(g2, t'))
    ensures Eq(c, Less(Times(s, t'), Times(t, s')), ZERO)
  {
    var e := Less(Times(s, t'), Times(t, s'));
    var u, v := Times(g1, e), Plus(Times(g1, e), Times(Less(Times(g2, s'), Times(s, g1)), t'));
    forall x, y
      ensures Val(v, x, y) == Val(u, x, y) + (Val(Times(g2, s'), x, y) - Val(Times(s, g1), x, y)) * Val(t', x, y)
      ensures 0 == Val(v, x, y) + (Val(Times(t, g1), x, y) - Val(Times(g2, t'), x, y)) * Val(s', x, y)
    {
      CrossVal(s, t, g1, g2, s', t', x, y);
    }
    EqReplace(c, u, Times(s, g1), Times(g2, s'), t', v);
    EqSym(c, Times(t, g1), Times(g2, t'));
    EqReplace(c, v, Times(g2, t'), Times(t, g1), s', ZERO);
    EqTrans(c, u, v, ZERO);
    CancelFactor(c, g1, e, d);
  }

  lemma CrossVal(s: Term, t: Term, g1: Term, g2: Term, s': Term, t': Term, x: int, y: int)
    ensures var u := Times(g1, Less(Times(s, t'), Times(t, s')));
            var v := Plus(u, Times(Less(Times(g2, s'), Times(s, g1)), t'));
            && Val(v, x, y) == Val(u, x, y) + (Val(Times(g2, s'), x, y) - Val(Times(s, g1), x, y)) * Val(t', x, y)
            && 0 == Val(v, x, y) + (Val(Times(t, g1), x, y) - Val(Times(g2, t'), x, y)) * Val(s', x, y)
  {
    var e, m := Less(Times(s, t'), Times(t, s')), Less(Times(g2, s'), Times(s, g1));
    LessVal(Times(s, t'), Times(t, s'), x, y);
    LessVal(Times(g2, s'), Times(s, g1), x, y);
    var u := Times(g1, e);
    assert Val(Plus(u, Times(m, t')), x, y) == Val(u, x, y) + Val(m, x, y) * Val(t', x, y) by {
      assert Val(Times(m, t'), x, y) == Val(m, x, y) * Val(t', x, y);
    }
    assert Val(u, x, y) == Val(g1, x, y) * Val(e, x, y);
    CrossIdentity(Val(s, x, y), Val(t, x, y), Val(g1, x, y), Val(g2, x, y), Val(s', x, y), Val(t', x, y));
  }

  /** A linear polynomial that vanishes at the point's abscissa is a multiple of x - xU. */
  lemma LinearAt(c: EllipticCurve, u: Point, e: Term, k: int, l: int)
    requires u.Affine? && IsOnCurve(c, u) && In(c, [u], e) && Eq(c, e, Lift([k, l]))
    ensures Eq(c, e, Times(Const(l), XAt(u)))
  {
    VanishesAt(c, u, e);
    EqAt(c, e, Lift([k, l]), u.x, u.y);
    LinearVal(k, l, u.x, u.y);
    DividesSum(c.p, Val(e, u.x, u.y), Val(e, u.x, u.y) - (k + l * u.x));
    LinearShift(c, u, k, l, Quotient(k + l * u.x, c.p));
    EqTrans(c, e, Lift([k, l]), Times(Const(l), XAt(u)));
  }

  lemma LinearShift(c: EllipticCurve, u: Point, k: int, l: int, q: int)
    requires u.Affine? && k + l * u.x == c.p * q
    ensures Eq(c, Lift([k, l]), Times(Const(l), XAt(u)))
  {
    var r := Times(Const(l), XAt(u));
    forall x, y ensures Differ(c.p, Off(c, x, y), Val(Lift([k, l]), x, y), Val(r, x, y), q, 0) {
      LinearVal(k, l, x, y);
      ScaledXVal(u, l, x, y);
      ShiftIdentity(c.p, Off(c, x, y), k, l, u.x, x, q);
    }
    assert EqBy(c, Lift([k, l]), r, Const(q), ZERO);
  }

  lemma ShiftIdentity(p: int, h: int, k: int, l: int, r: int, x: int, q: int)
    requires k + l * r == p * q
    ensures Differ(p, h, k + l * x, l * (x - r), q, 0)
  {
    assert l * (x - r) == l * x - l * r;
  }

  lemma LinearVal(k: int, l: int, x: int, y: int)
    ensures Val(Lift([k, l]), x, y) == k + l * x
  {
    LiftVal([k, l], x, y);
    assert [k, l][1..] == [l];
    assert Eval([l], x) == l;
  }

  lemma UnitFactor(p: int, l: int, a: int, b: int)
    requires IsPrime(p) && !Divides(p, l) && 0 <= a < p && 0 <= b < p && Divides(p, l * (a - b))
    ensures a == b
  {
    PrimeDividesProduct(p, l, a - b);
    ResiduesApart(p, a, b);
  }

  /** At the mirror image of v, where x - xV vanishes and y - yV does not, s*t' = t*s'
      leaves only s' = 0. */
  lemma SameAbscissaInClass(c: EllipticCurve, u: Point, v: Point, l: int, t': Term, s': Term)
    requires NeverVertical(c) && Valid(c, u) && Valid(c, v) && u.Affine? && v.Affine? && !Divides(c.p, l)
    requires Eq(c, s', Times(Const(l), XAt(u)))
    requires Eq(c, Less(Times(XAt(v), t'), Times(YAt(v), s')), ZERO)
    ensures u.x == v.x
  {
    MirrorVanishes(c, v, t', s');
    MirrorOnCurve(c, v.x, v.y);
    EqAt(c, s', Times(Const(l), XAt(u)), v.x, -v.y);
    ScaledXVal(u, l, v.x, -v.y);
    TermsDivide(c.p, Val(s', v.x, -v.y), l * (v.x - u.x));
    UnitFactor(c.p, l, v.x, u.x);
  }

  lemma TermsDivide(p: int, s: int, w: int)
    requires p > 0 && Divides(p, s) && Congruent(s, w, p)
    ensures Divides(p, w)
  {
    DividesSum(p, s, s - w);
  }

  lemma MirrorVanishes(c: EllipticCurve, v: Point, t': Term, s': Term)
    requires NeverVertical(c) && Valid(c, v) && v.Affine?
    requires Eq(c, Less(Times(XAt(v), t'), Times(YAt(v), s')), ZERO)
    ensures Divides(c.p, Val(s', v.x, -v.y))
  {
    MirrorOnCurve(c, v.x, v.y);
    EqAt(c, Less(Times(XAt(v), t'), Times(YAt(v), s')), ZERO, v.x, -v.y);
    MirrorVal(v, t', s');
    PrimeDividesProduct(c.p, 2 * v.y, Val(s', v.x, -v.y));
  }

  lemma ScaledXVal(u: Point, l: int, x: int, y: int)
    requires u.Affine?
    ensures Val(Times(Const(l), XAt(u)), x, y) == l * (x - u.x)
  {
    AtVal(u, x, y);
    assert Val(Const(l), x, y) == l;
  }

  lemma MirrorVal(v: Point, t': Term, s': Term)
    requires v.Affine?
    ensures Val(Less(Times(XAt(v), t'), Times(YAt(v), s')), v.x, -v.y) == (2 * v.y) * Val(s', v.x, -v.y)
  {
    LessVal(Times(XAt(v), t'), Times(YAt(v), s'), v.x, -v.y);
    AtVal(v, v.x, -v.y);
    assert Val(Times(XAt(v), t'), v.x, -v.y) == 0;
    assert Val(Times(YAt(v), s'), v.x, -v.y) == (-v.y - v.y) * Val(s', v.x, -v.y);
  }

  /** Then both transferred elements are l times the original ones. */
  lemma SameOrdinateInClass(c: EllipticCurve, u: Point, v: Point, l: int, t': Term, s': Term)
    requires IsPrime(c.p) && Valid(c, u) && Valid(c, v) && u.Affine? && v.Affine? && u.x == v.x && !Divides(c.p, l)
    requires Eq(c, s', Times(Const(l), XAt(u))) && In(c, [u], t')
    requires Eq(c, Less(Times(XAt(v), t'), Times(YAt(v), s')), ZERO)
    ensures u.y == v.y
  {
    var d, e := Less(t', Times(Const(l), YAt(v))), Less(Times(XAt(v), t'), Times(YAt(v), s'));
    var r := Times(XAt(v), d);
    forall x, y
      ensures Val(r, x, y) == Val(e, x, y) + (Val(Times(Const(l), XAt(u)), x, y) - Val(s', x, y))
          * Val(Times(Const(-1), YAt(v)), x, y)
    {
      OrdinateVal(u, v, l, t', s', x, y);
    }
    EqReplace(c, e, s', Times(Const(l), XAt(u)), Times(Const(-1), YAt(v)), r);
    EqSym(c, e, r);
    EqTrans(c, r, e, ZERO);
    XNorm(c, v);
    CancelFactor(c, XAt(v), d, 2);
    EqAt(c, d, ZERO, u.x, u.y);
    VanishesAt(c, u, t');
    LessVal(t', Times(Const(l), YAt(v)), u.x, u.y);
    ScaledYVal(v, l, u.x, u.y);
    TermsDivide(c.p, Val(t', u.x, u.y), l * (u.y - v.y));
    UnitFactor(c.p, l, u.y, v.y);
  }

  lemma ScaledYVal(v: Point, l: int, x: int, y: int)
    requires v.Affine?
    ensures Val(Times(Const(l), YAt(v)), x, y) == l * (y - v.y)
  {
    AtVal(v, x, y);
    assert Val(Const(l), x, y) == l;
  }

  lemma OrdinateVal(u: Point, v: Point, l: int, t': Term, s': Term, x: int, y: int)
    requires u.Affine? && v.Affine? && u.x == v.x
    ensures Val(Times(XAt(v), Less(t', Times(Const(l), YAt(v)))), x, y)
         == Val(Less(Times(XAt(v), t'), Times(YAt(v), s')), x, y)
            + (Val(Times(Const(l), XAt(u)), x, y) - Val(s', x, y)) * Val(Times(Const(-1), YAt(v)), x, y)
  {
    LessVal(Times(XAt(v), t'), Times(YAt(v), s'), x, y);
    LessVal(t', Times(Const(l), YAt(v)), x, y);
    ScaledXVal(u, l, x, y);
    AtVal(v, x, y);
    ScaledYVal(v, l, x, y);
    assert Val(Times(Const(-1), YAt(v)), x, y) == -(y - v.y);
    assert Val(Times(XAt(v), t'), x, y) == (x - v.x) * Val(t', x, y);
    assert Val(Times(YAt(v), s'), x, y) == (y - v.y) * Val(s', x, y);
    OrdinateIdentity(x - v.x, y - v.y, l, Val(t', x, y), Val(s', x, y));
  }

  lemma OrdinateIdentity(g: int, t: int, l: int, t': int, s': int)
    ensures g * (t' - l * t) == g * t' - t * s' + (l * g - s') * -t
  {
    assert (l * g - s') * -t == t * s' - g * (l * t);
  }

  /** At most one point U makes the ideal of U with `rest` principal. */
  lemma ClassesApart(c: EllipticCurve, u: Point, v: Point, rest: seq<Point>, g1: Term, g2: Term)
    requires NeverVertical(c) && Valid(c, u) && Valid(c, v)
    requires Generates(c, [u] + rest, g1) && Generates(c, [v] + rest, g2)
    ensures u == v
  {
    if v.Infinity? {
      InfinityApart(c, u, rest, g1, g2);
    } else if u.Infinity? {
      InfinityApart(c, v, rest, g2, g1);
    } else {
      var n := Finite([u] + rest);
      assert Finite([v] + rest) == n;
      XIn(c, v);
      YIn(c, v);
      var s' := Transfer(c, u, v, rest, g1, g2, XAt(v));
      var t' := Transfer(c, u, v, rest, g1, g2, YAt(v));
      XNorm(c, v);
      var k, l := TransferDegree(c, XAt(v), g1, g2, s', 2, n, n);
      LinearAt(c, u, s', k, l);
      CrossMultiply(c, XAt(v), YAt(v), g1, g2, s', t', n);
      SameAbscissaInClass(c, u, v, l, t', s');
      SameOrdinateInClass(c, u, v, l, t', s');
    }
  }

  // ---------------------------------------------------------------- the theorem

  lemma Shuffle<T>(p: seq<T>, q: seq<T>, r: seq<T>, a: seq<T>, a': seq<T>, b: seq<T>, b': seq<T>, s: seq<T>)
    ensures multiset(p + q + a' + (a + r + s) + (b + b')) == multiset(s + (p + q + r + a + a' + b + b'))
    ensures multiset(q + r + b' + (b + p + s) + (a + a')) == multiset(s + (p + q + r + a + a' + b + b'))
  {
  }

  /** Three principal ideals multiply to one. */
  lemma ThreeGenerated(c: EllipticCurve, d1: seq<Point>, d2: seq<Point>, d3: seq<Point>, g1: Term, g2: Term, g3: Term)
    requires IsPrime(c.p) && Generates(c, d1, g1) && Generates(c, d2, g2) && Generates(c, d3, g3)
    ensures Generates(c, d1 + d2 + d3, Times(Times(g1, g2), g3))
  {
    GeneratesConcat(c, d1, d2, g1, g2);
    GeneratesConcat(c, d1 + d2, d3, Times(g1, g2), g3);
  }

  lemma Singles(p: Point, q: Point, r: Point)
    ensures [p] + [q] + [r] == [p, q, r] && [p] + [q] == [p, q]
  {
  }

  /** The additions p + q = a and a + r = s, with a spare pair b, -b. */
  lemma SumsGenerated(c: EllipticCurve, p: Point, q: Point, r: Point, a: Point, b: Point, s: Point) returns (g: Term)
    requires NeverVertical(c) && Valid(c, p) && Valid(c, q) && Valid(c, r) && Valid(c, a) && Valid(c, b) && Valid(c, s)
    requires PointAdd(c, p, q) == Ok(a) && PointAdd(c, a, r) == Ok(s)
    ensures Generates(c, [p] + [q] + [Opposed(c, a)] + ([a] + [r] + [Opposed(c, s)]) + ([b] + [Opposed(c, b)]), g)
  {
    var (a', b', s') := (Opposed(c, a), Opposed(c, b), Opposed(c, s));
    var g1 := AdditionGenerated(c, p, q, a);
    var g2 := AdditionGenerated(c, a, r, s);
    var g3 := OppositesGenerated(c, b);
    Singles(p, q, a');
    Singles(a, r, s');
    Singles(b, b', b');
    ThreeGenerated(c, [p] + [q] + [a'], [a] + [r] + [s'], [b] + [b'], g1, g2, g3);
    g := Times(Times(g1, g2), g3);
  }

  /** Both ways of adding leave the same ideal, up to the opposite of the result. */
  lemma BothGenerated(c: EllipticCurve, p: Point, q: Point, r: Point, a: Point, b: Point, s: Point, t: Point)
    returns (rest: seq<Point>, g1: Term, g2: Term)
    requires NeverVertical(c) && Valid(c, p) && Valid(c, q) && Valid(c, r) && Valid(c, a) && Valid(c, b)
        && Valid(c, s) && Valid(c, t)
    requires PointAdd(c, p, q) == Ok(a) && PointAdd(c, q, r) == Ok(b)
    requires PointAdd(c, a, r) == Ok(s) && PointAdd(c, b, p) == Ok(t)
    ensures Generates(c, [Opposed(c, s)] + rest, g1) && Generates(c, [Opposed(c, t)] + rest, g2)
  {
    var (a', b', s', t') := (Opposed(c, a), Opposed(c, b), Opposed(c, s), Opposed(c, t));
    rest := [p] + [q] + [r] + [a] + [a'] + [b] + [b'];
    g1 := SumsGenerated(c, p, q, r, a, b, s);
    Shuffle([p], [q], [r], [a], [a'], [b], [b'], [s']);
    GeneratesPermuted(c, [p] + [q] + [a'] + ([a] + [r] + [s']) + ([b] + [b']), [s'] + rest, g1);
    g2 := SumsGenerated(c, q, r, p, b, a, t);
    Shuffle([p], [q], [r], [a], [a'], [b], [b'], [t']);
    GeneratesPermuted(c, [q] + [r] + [b'] + ([b] + [p] + [t']) + ([a] + [a']), [t'] + rest, g2);
  }

  /** `point_add` is associative on all canonical points of the curve. */
  lemma AddAssociates(c: EllipticCurve, p: Point, q: Point, r: Point, a: Point, b: Point)
    requires NeverVertical(c) && Valid(c, p) && Valid(c, q) && Valid(c, r)
    requires PointAdd(c, p, q) == Ok(a) && PointAdd(c, q, r) == Ok(b)
    ensures PointAdd(c, a, r).Ok? && PointAdd(c, a, r) == PointAdd(c, p, b)
  {
    AddSucceeds(c, p, q);
    AddSucceeds(c, q, r);
    AddSucceeds(c, a, r);
    AddSucceeds(c, p, b);
    AddCommutes(c, p, b);
    var s, t := PointAdd(c, a, r).value, PointAdd(c, p, b).value;
    var rest, g1, g2 := BothGenerated(c, p, q, r, a, b, s, t);
    OpposedValid(c, s);
    OpposedValid(c, t);
    ClassesApart(c, Opposed(c, s), Opposed(c, t), rest, g1, g2);
    OpposedInjective(c, s, t);
  }
}
