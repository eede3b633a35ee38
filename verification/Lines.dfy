/** The ideals of a point and its mirror image, and of three points on a line, are principal. */
module Lines {
  import opened Modular
  import opened Curve
  import opened Polynomials
  import opened CoordinateRing
  import opened Norms
  import opened Ideals

  const ONE: Term := Const(1)

  function Cubed(c: EllipticCurve): Term {
    Lift(CubicPoly(c))
  }

  lemma CubedVal(c: EllipticCurve, x: int, y: int)
    ensures Val(Cubed(c), x, y) == Cubic(c, x)
  {
    LiftVal(CubicPoly(c), x, y);
    CubicEval(c, x);
  }

  lemma AtVal(point: Point, x: int, y: int)
    requires point.Affine?
    ensures Val(XAt(point), x, y) == x - point.x && Val(YAt(point), x, y) == y - point.y
  {
  }

  /** Invertible residues, with the quotient. */
  lemma InverseWitness(k: int, p: int) returns (w: int, q: int)
    requires IsPrime(p) && !Divides(p, k)
    ensures k * w == 1 + p * q
  {
    PrimeInverse(k, p);
    w := TheInverse(k, p);
    q := (k * w) / p;
  }

  // ---------------------------------------------------------------- elements of the ideal of one point

  lemma LinearIn(c: EllipticCurve, point: Point, i: int, j: int, u: Term)
    requires point.Affine? && Eq(c, u, Combine(point, Const(i), Const(j)))
    ensures In(c, [point], u)
  {
    InBy(c, [point], u, Const(i), Const(j));
  }

  lemma XIn(c: EllipticCurve, point: Point)
    requires point.Affine?
    ensures In(c, [point], XAt(point))
  {
    forall x, y ensures Val(XAt(point), x, y) == Val(Combine(point, ONE, ZERO), x, y) {
      CombineVal(point, ONE, ZERO, x, y);
      AtVal(point, x, y);
    }
    EqSame(c, XAt(point), Combine(point, ONE, ZERO));
    LinearIn(c, point, 1, 0, XAt(point));
  }

  lemma YIn(c: EllipticCurve, point: Point)
    requires point.Affine?
    ensures In(c, [point], YAt(point))
  {
    forall x, y ensures Val(YAt(point), x, y) == Val(Combine(point, ZERO, ONE), x, y) {
      CombineVal(point, ZERO, ONE, x, y);
      AtVal(point, x, y);
    }
    EqSame(c, YAt(point), Combine(point, ZERO, ONE));
    LinearIn(c, point, 0, 1, YAt(point));
  }

  /** What lies in the ideal of a point vanishes there. */
  lemma VanishesAt(c: EllipticCurve, point: Point, u: Term)
    requires point.Affine? && IsOnCurve(c, point) && In(c, [point], u)
    ensures Divides(c.p, Val(u, point.x, point.y))
  {
    var v, w := SplitOf(c, [point], u);
    EqAt(c, u, Combine(point, v, w), point.x, point.y);
    CombineVanishes(point, v, w);
  }

  lemma CombineVanishes(point: Point, v: Term, w: Term)
    requires point.Affine?
    ensures Val(Combine(point, v, w), point.x, point.y) == 0
  {
    CombineVal(point, v, w, point.x, point.y);
  }

  // ---------------------------------------------------------------- a point and its mirror image

  /** (cubic(x) - cubic(r)) / (x - r) */
  function CubicQuotient(c: EllipticCurve, r: int): Term {
    Plus(Times(X, X), Plus(Times(Const(r), X), Const(r * r + c.a)))
  }

  lemma CubicQuotientVal(c: EllipticCurve, r: int, x: int, y: int)
    ensures (x - r) * Val(CubicQuotient(c, r), x, y) == Cubic(c, x) - Cubic(c, r)
  {
    var g := Val(CubicQuotient(c, r), x, y);
    assert g == x * x + (r * x + (r * r + c.a)) by {
      Vals();
    }
    assert (x - r) * (x * x + (r * x + (r * r + c.a))) == x * x * x - r * r * r + c.a * (x - r);
  }

  ghost predicate Mirrors(c: EllipticCurve, point: Point, mirror: Point) {
    && point.Affine? && mirror.Affine? && mirror.x == point.x
    && Divides(c.p, point.y + mirror.y)
    && IsOnCurve(c, point)
  }

  lemma MirrorIdentity(p: int, h: int, f: int, r: int, y: int, v: int, w: int, j: int, l: int)
    requires h == y * y - f && v + w == p * j && r - v * v == p * l
    ensures Differ(p, h, (y - v) * (y - w), f - r, j * (v - y) + l, 1)
  {
    assert (y - v) * (y - w) == y * y - (v + w) * y + v * w;
    assert v * w == v * (p * j) - v * v;
    assert p * (j * (v - y) + l) == (p * j) * v - (p * j) * y + p * l;
  }

  /** (y - yP) * (y + yP) is a multiple of x - xP. */
  lemma MirrorProduct(c: EllipticCurve, point: Point, mirror: Point)
    requires Mirrors(c, point, mirror)
    ensures Eq(c, Times(YAt(point), YAt(mirror)), Times(XAt(point), CubicQuotient(c, point.x)))
  {
    var (r, v, w) := (point.x, point.y, mirror.y);
    OnCurveCubic(c, r, v);
    var j, l := (v + w) / c.p, (Cubic(c, r) - v * v) / c.p;
    var u, m := Times(YAt(point), YAt(mirror)), Times(XAt(point), CubicQuotient(c, r));
    var z := Plus(Times(Const(j), Plus(Const(v), Times(Const(-1), Y))), Const(l));
    forall x, y ensures Differ(c.p, Off(c, x, y), Val(u, x, y), Val(m, x, y), Val(z, x, y), 1) {
      MirrorIdentity(c.p, Off(c, x, y), Cubic(c, x), Cubic(c, r), y, v, w, j, l);
      CubicQuotientVal(c, r, x, y);
      AtVal(point, x, y);
      AtVal(mirror, x, y);
      MirrorQuotientVal(j, v, l, x, y);
    }
    assert EqBy(c, u, m, z, ONE);
  }

  lemma MirrorQuotientVal(j: int, v: int, l: int, x: int, y: int)
    ensures Val(Plus(Times(Const(j), Plus(Const(v), Times(Const(-1), Y))), Const(l)), x, y) == j * (v - y) + l
  {
    Vals();
  }

  /** Every element of the product of both ideals is a multiple of x - xP. */
  lemma PairMultiples(c: EllipticCurve, point: Point, mirror: Point, u: Term)
    requires Mirrors(c, point, mirror) && In(c, [point, mirror], u)
    ensures Multiple(c, u, XAt(point))
  {
    var v, w := SplitOf(c, [point, mirror], u);
    assert [point, mirror][1..] == [mirror];
    var a, b := SplitOf(c, [mirror], w);
    var g, s, t := XAt(point), YAt(point), YAt(mirror);
    var n := CubicQuotient(c, point.x);
    var m, k := Plus(Times(g, v), Times(s, Combine(mirror, a, b))), Plus(v, Plus(Times(s, a), Times(n, b)));
    EqScale(c, s, w, Combine(mirror, a, b));
    EqRefl(c, Times(g, v));
    EqPlus(c, Times(g, v), Times(g, v), Times(s, w), Times(s, Combine(mirror, a, b)));
    EqTrans(c, u, Combine(point, v, w), m);
    MirrorProduct(c, point, mirror);
    forall x, y ensures Val(Times(g, k), x, y) == Val(m, x, y) + (Val(Times(g, n), x, y) - Val(Times(s, t), x, y))
        * Val(b, x, y) {
      PairValues(mirror, g, s, v, a, b, n, x, y);
    }
    EqReplace(c, m, Times(s, t), Times(g, n), b, Times(g, k));
    EqTrans(c, u, m, Times(g, k));
  }

  lemma PairValues(mirror: Point, g: Term, s: Term, v: Term, a: Term, b: Term, n: Term, x: int, y: int)
    requires mirror.Affine? && Val(g, x, y) == Val(XAt(mirror), x, y)
    ensures Val(Times(g, Plus(v, Plus(Times(s, a), Times(n, b)))), x, y)
         == Val(Plus(Times(g, v), Times(s, Combine(mirror, a, b))), x, y)
            + (Val(Times(g, n), x, y) - Val(Times(s, YAt(mirror)), x, y)) * Val(b, x, y)
  {
    var k := Plus(v, Plus(Times(s, a), Times(n, b)));
    assert Val(k, x, y) == Val(v, x, y) + (Val(s, x, y) * Val(a, x, y) + Val(n, x, y) * Val(b, x, y)) by {
      ValTimesSum(s, a, n, b, x, y);
    }
    ValTimesSum(g, v, s, Combine(mirror, a, b), x, y);
    ValTimesSum(XAt(mirror), a, YAt(mirror), b, x, y);
    PairValuesIdentity(Val(g, x, y), Val(s, x, y), Val(YAt(mirror), x, y), Val(v, x, y), Val(a, x, y), Val(b, x, y),
      Val(n, x, y), Val(k, x, y), Val(Combine(mirror, a, b), x, y));
  }

  lemma PairValuesIdentity(g: int, s: int, t: int, v: int, a: int, b: int, n: int, k: int, w: int)
    requires k == v + (s * a + n * b) && w == g * a + t * b
    ensures g * k == g * v + s * w + (g * n - s * t) * b
  {
    assert s * w == g * (s * a) + (s * t) * b;
    assert g * k == g * v + g * (s * a) + (g * n) * b;
  }

  /** x - xP lies in the product when 2 * yP is invertible. */
  lemma PairHolds(c: EllipticCurve, point: Point, mirror: Point)
    requires IsPrime(c.p) && Mirrors(c, point, mirror) && !Divides(c.p, point.y - mirror.y)
    ensures In(c, [point, mirror], XAt(point))
  {
    var w, q := InverseWitness(point.y - mirror.y, c.p);
    var a, b := Times(Const(w), YAt(mirror)), Times(Const(-w), XAt(mirror));
    XIn(c, mirror);
    YIn(c, mirror);
    InMultiple(c, [mirror], YAt(mirror), Const(w));
    InMultiple(c, [mirror], XAt(mirror), Const(-w));
    CombineIn(c, point, [mirror], a, b);
    var m, z := Combine(point, a, b), Times(Const(-q), XAt(point));
    forall x, y ensures Differ(c.p, Off(c, x, y), Val(XAt(point), x, y), Val(m, x, y), Val(z, x, y), 0) {
      AtVal(point, x, y);
      AtVal(mirror, x, y);
      CombineVal(point, a, b, x, y);
      PairHoldsIdentity(c.p, Off(c, x, y), x - point.x, y, point.y, mirror.y, w, q);
    }
    assert EqBy(c, XAt(point), m, z, ZERO);
    assert [point] + [mirror] == [point, mirror];
    InEq(c, [point, mirror], m, XAt(point));
  }

  lemma PairHoldsIdentity(p: int, h: int, g: int, y: int, v: int, t: int, w: int, q: int)
    requires (v - t) * w == 1 + p * q
    ensures Differ(p, h, g, g * (w * (y - t)) + (y - v) * (-w * g), -q * g, 0)
  {
    assert g * (w * (y - t)) + (y - v) * (-w * g) == g * ((v - t) * w);
    assert g * (1 + p * q) == g + p * (q * g);
  }

  lemma SquareLeads(p: int, r: int)
    requires p > 1
    ensures Leads(p, [r * r, -2 * r, 1])
  {
    SmallMod(1, p);
  }

  lemma EvalThree(a0: int, a1: int, a2: int, t: int)
    ensures Eval([a0, a1, a2], t) == a0 + t * (a1 + t * a2)
  {
    assert [a0, a1, a2][1..] == [a1, a2] && [a1, a2][1..] == [a2];
    assert Eval([a2], t) == a2;
    assert Eval([a1, a2], t) == a1 + t * a2;
  }

  /** The norm of x - xP is its square. */
  lemma XNorm(c: EllipticCurve, point: Point)
    requires point.Affine?
    ensures HasDegree(c, Norm(XAt(point)), 2)
  {
    var r := point.x;
    var s := [r * r, -2 * r, 1];
    forall x, y ensures Val(Norm(XAt(point)), x, y) == Val(Lift(s), x, y) {
      ConjVal(XAt(point), x, y);
      AtVal(point, x, y);
      AtVal(point, x, -y);
      LiftVal(s, x, y);
      EvalThree(r * r, -2 * r, 1, x);
      assert (x - r) * (x - r) == r * r + x * (-2 * r + x * 1);
    }
    EqSame(c, Norm(XAt(point)), Lift(s));
    SquareLeads(c.p, r);
  }

  lemma PairGenerated(c: EllipticCurve, point: Point, mirror: Point)
    requires IsPrime(c.p) && Mirrors(c, point, mirror) && !Divides(c.p, point.y - mirror.y)
    ensures Generates(c, [point, mirror], XAt(point))
  {
    PairHolds(c, point, mirror);
    forall u | In(c, [point, mirror], u) ensures Multiple(c, u, XAt(point)) {
      PairMultiples(c, point, mirror, u);
    }
    XNorm(c, point);
    assert Finite([point, mirror]) == 2;
  }

  // ---------------------------------------------------------------- three points on a line

  /** y - (m * x + k) */
  function LineTerm(m: int, k: int): Term {
    Plus(Y, Plus(Times(Const(-m), X), Const(-k)))
  }

  /** y + (m * x + k) */
  function LineMirror(m: int, k: int): Term {
    Plus(Y, Plus(Times(Const(m), X), Const(k)))
  }

  lemma LineVal(m: int, k: int, x: int, y: int)
    ensures Val(LineTerm(m, k), x, y) == y - (m * x + k)
    ensures Val(LineMirror(m, k), x, y) == y + (m * x + k)
  {
    Vals();
  }

  ghost predicate OnLine(c: EllipticCurve, m: int, k: int, point: Point) {
    && point.Affine? && IsOnCurve(c, point) && !Divides(c.p, point.y)
    && Congruent(point.y, m * point.x + k, c.p)
  }

  function LineOffset(c: EllipticCurve, m: int, k: int, point: Point): (q: int)
    requires OnLine(c, m, k, point)
    ensures point.y == m * point.x + k + c.p * q
  {
    (point.y - (m * point.x + k)) / c.p
  }

  /** On a line y - yP is the line plus a multiple of x - xP. */
  lemma LineThrough(c: EllipticCurve, m: int, k: int, point: Point)
    requires OnLine(c, m, k, point)
    ensures Eq(c, YAt(point), Plus(LineTerm(m, k), Times(Const(m), XAt(point))))
  {
    var q := LineOffset(c, m, k, point);
    var u, r := YAt(point), Plus(LineTerm(m, k), Times(Const(m), XAt(point)));
    forall x, y ensures Differ(c.p, Off(c, x, y), Val(u, x, y), Val(r, x, y), -q, 0) {
      AtVal(point, x, y);
      LineVal(m, k, x, y);
      LineIdentity(c.p, Off(c, x, y), m, k, point.x, point.y, x, y, q);
      ValScaled(LineTerm(m, k), m, XAt(point), x, y);
    }
    assert EqBy(c, u, r, Const(-q), ZERO);
  }

  lemma ValScaled(a: Term, m: int, b: Term, x: int, y: int)
    ensures Val(Plus(a, Times(Const(m), b)), x, y) == Val(a, x, y) + m * Val(b, x, y)
  {
    assert Val(Times(Const(m), b), x, y) == m * Val(b, x, y);
  }

  lemma LineIn(c: EllipticCurve, m: int, k: int, point: Point)
    requires OnLine(c, m, k, point)
    ensures In(c, [point], LineTerm(m, k))
  {
    var q := LineOffset(c, m, k, point);
    var s := Combine(point, Const(-m), ONE);
    forall x, y ensures Differ(c.p, Off(c, x, y), Val(LineTerm(m, k), x, y), Val(s, x, y), q, 0) {
      LineVal(m, k, x, y);
      CombineVal(point, Const(-m), ONE, x, y);
      LineIdentity(c.p, Off(c, x, y), m, k, point.x, point.y, x, y, q);
    }
    assert EqBy(c, LineTerm(m, k), s, Const(q), ZERO);
    LinearIn(c, point, -m, 1, LineTerm(m, k));
  }

  lemma LineIdentity(p: int, h: int, m: int, k: int, r: int, v: int, x: int, y: int, q: int)
    requires v == m * r + k + p * q
    ensures Differ(p, h, y - v, y - (m * x + k) + m * (x - r), -q, 0)
    ensures Differ(p, h, y - (m * x + k), (x - r) * -m + (y - v) * 1, q, 0)
  {
    assert m * (x - r) == m * x - m * r && (x - r) * -m == m * r - m * x;
    assert p * -q == -(p * q);
  }

  /** An element of the ideal, split along the line. */
  lemma LineSplit(c: EllipticCurve, m: int, k: int, point: Point, rest: seq<Point>, u: Term) returns (v: Term, w: Term)
    requires OnLine(c, m, k, point) && In(c, [point] + rest, u)
    ensures In(c, rest, v) && Eq(c, u, Plus(Times(XAt(point), v), Times(LineTerm(m, k), w)))
  {
    assert ([point] + rest)[1..] == rest;
    var a, b := SplitOf(c, [point] + rest, u);
    v, w := Plus(a, Times(Const(m), b)), b;
    var l := LineTerm(m, k);
    var r := Plus(Times(XAt(point), v), Times(l, w));
    InMultiple(c, rest, b, Const(m));
    InPlus(c, rest, a, Times(Const(m), b));
    LineThrough(c, m, k, point);
    forall x, y
      ensures Val(r, x, y) == Val(Combine(point, a, b), x, y)
           + (Val(Plus(l, Times(Const(m), XAt(point))), x, y) - Val(YAt(point), x, y)) * Val(b, x, y)
    {
      LineSplitVal(m, l, point, a, b, x, y);
    }
    EqReplace(c, Combine(point, a, b), YAt(point), Plus(l, Times(Const(m), XAt(point))), b, r);
    EqTrans(c, u, Combine(point, a, b), r);
  }

  lemma LineSplitVal(m: int, l: Term, point: Point, a: Term, b: Term, x: int, y: int)
    requires point.Affine?
    ensures Val(Plus(Times(XAt(point), Plus(a, Times(Const(m), b))), Times(l, b)), x, y)
         == Val(Combine(point, a, b), x, y)
            + (Val(Plus(l, Times(Const(m), XAt(point))), x, y) - Val(YAt(point), x, y)) * Val(b, x, y)
  {
    ValTimesSum(XAt(point), Plus(a, Times(Const(m), b)), l, b, x, y);
    ValTimesSum(XAt(point), a, YAt(point), b, x, y);
    ValScaled(a, m, b, x, y);
    ValScaled(l, m, XAt(point), x, y);
    LineSplitIdentity(Val(XAt(point), x, y), Val(YAt(point), x, y), Val(l, x, y), m, Val(a, x, y), Val(b, x, y),
      Val(Plus(a, Times(Const(m), b)), x, y), Val(Combine(point, a, b), x, y),
      Val(Plus(l, Times(Const(m), XAt(point))), x, y));
  }

  lemma LineSplitIdentity(g: int, s: int, l: int, m: int, a: int, b: int, v: int, u: int, n: int)
    requires v == a + m * b && u == g * a + s * b && n == l + m * g
    ensures g * v + l * b == u + (n - s) * b
  {
    assert g * v == g * a + (m * g) * b;
  }

  function ThreeX(p: Point, q: Point, r: Point): Term
    requires p.Affine? && q.Affine? && r.Affine?
  {
    Times(XAt(p), Times(XAt(q), XAt(r)))
  }

  /** The line meets the curve in these three points. */
  ghost predicate Collinear(c: EllipticCurve, m: int, k: int, p: Point, q: Point, r: Point) {
    && OnLine(c, m, k, p) && OnLine(c, m, k, q) && OnLine(c, m, k, r)
    && Eq(c, ThreeX(p, q, r), Times(LineTerm(m, k), LineMirror(m, k)))
  }

  /** u = g*v + l*w with v replaced: v = h*a + l*b. */
  lemma SubstituteSplit(c: EllipticCurve, u: Term, g: Term, l: Term, v: Term, w: Term, h: Term, a: Term, b: Term)
    requires Eq(c, u, Plus(Times(g, v), Times(l, w))) && Eq(c, v, Plus(Times(h, a), Times(l, b)))
    ensures Eq(c, u, Plus(Times(Times(g, h), a), Times(l, Plus(Times(g, b), w))))
  {
    var m, n := Plus(Times(g, v), Times(l, w)), Plus(Times(h, a), Times(l, b));
    var r := Plus(Times(Times(g, h), a), Times(l, Plus(Times(g, b), w)));
    forall x, y ensures Val(r, x, y) == Val(m, x, y) + (Val(n, x, y) - Val(v, x, y)) * Val(g, x, y) {
      ValTimesSum(g, v, l, w, x, y);
      ValTimesSum(h, a, l, b, x, y);
      ValTimesSum(Times(g, h), a, l, Plus(Times(g, b), w), x, y);
      assert Val(Times(g, h), x, y) == Val(g, x, y) * Val(h, x, y);
      assert Val(Plus(Times(g, b), w), x, y) == Val(g, x, y) * Val(b, x, y) + Val(w, x, y) by { Vals(); }
      SubstituteIdentity(Val(g, x, y), Val(l, x, y), Val(v, x, y), Val(w, x, y), Val(h, x, y), Val(a, x, y),
        Val(b, x, y), Val(n, x, y));
    }
    EqReplace(c, m, v, n, g, r);
    EqTrans(c, u, m, r);
  }

  lemma SubstituteIdentity(g: int, l: int, v: int, w: int, h: int, a: int, b: int, n: int)
    requires n == h * a + l * b
    ensures (g * h) * a + l * (g * b + w) == (g * v + l * w) + (n - v) * g
  {
    assert n * g == (g * h) * a + l * (g * b);
  }

  /** Every element of the product of the three ideals is a multiple of the line. */
  lemma TripleMultiples(c: EllipticCurve, m: int, k: int, p: Point, q: Point, r: Point, u: Term)
    requires Collinear(c, m, k, p, q, r) && In(c, [p, q, r], u)
    ensures Multiple(c, u, LineTerm(m, k))
  {
    var g, h, j, l := XAt(p), XAt(q), XAt(r), LineTerm(m, k);
    assert [p] + [q, r] == [p, q, r] && [q] + [r] == [q, r] && [r] + [] == [r];
    var v, w := LineSplit(c, m, k, p, [q, r], u);
    var v1, w1 := LineSplit(c, m, k, q, [r], v);
    var v2, w2 := LineSplit(c, m, k, r, [], v1);
    SubstituteSplit(c, u, g, l, v, w, h, v1, w1);
    SubstituteSplit(c, u, Times(g, h), l, v1, Plus(Times(g, w1), w), j, v2, w2);
    var w' := Plus(Times(Times(g, h), w2), Plus(Times(g, w1), w));
    LineFactor(c, u, g, h, j, l, LineMirror(m, k), v2, w');
  }

  lemma LineFactor(c: EllipticCurve, u: Term, g: Term, h: Term, j: Term, l: Term, l': Term, v: Term, w: Term)
    requires Eq(c, u, Plus(Times(Times(Times(g, h), j), v), Times(l, w)))
    requires Eq(c, Times(g, Times(h, j)), Times(l, l'))
    ensures Multiple(c, u, l)
  {
    var m, r := Plus(Times(Times(Times(g, h), j), v), Times(l, w)), Times(l, Plus(Times(l', v), w));
    var a, b := Times(g, Times(h, j)), Times(l, l');
    forall x, y ensures Val(r, x, y) == Val(m, x, y) + (Val(b, x, y) - Val(a, x, y)) * Val(v, x, y) {
      Vals();
      LineFactorIdentity(Val(g, x, y), Val(h, x, y), Val(j, x, y), Val(l, x, y), Val(l', x, y), Val(v, x, y),
          Val(w, x, y));
    }
    EqReplace(c, m, a, b, v, r);
    EqTrans(c, u, m, r);
  }

  lemma LineFactorIdentity(g: int, h: int, j: int, l: int, l': int, v: int, w: int)
    ensures l * (l' * v + w) == ((g * h) * j) * v + l * w + (l * l' - g * (h * j)) * v
  {
    assert (g * (h * j)) * v == ((g * h) * j) * v;
  }

  // ---------------------------------------------------------------- the line lies in the product

  lemma CurveEquation(c: EllipticCurve)
    ensures Eq(c, Times(Y, Y), Cubed(c))
  {
    forall x, y ensures Differ(c.p, Off(c, x, y), Val(Times(Y, Y), x, y), Val(Cubed(c), x, y), 0, 1) {
      CubedVal(c, x, y);
    }
    assert EqBy(c, Times(Y, Y), Cubed(c), ZERO, ONE);
  }

  lemma FourIdentity(y: int, l: int, l': int, f: int, v: int, w: int)
    requires l + l' == 2 * y && v == l * (l * l) + (2 * l + l') * (l * l') && w == 4 * (f * l)
    ensures w == v + (f - y * y) * (4 * l)
  {
    assert v == l * ((l + l') * (l + l'));
    assert l * ((2 * y) * (2 * y)) == (y * y) * (4 * l);
    assert (f - y * y) * (4 * l) == 4 * (f * l) - (y * y) * (4 * l);
  }

  /** l^3 + (2*l + l') * t */
  function FourForm(l: Term, l': Term, t: Term): Term {
    Plus(Times(l, Times(l, l)), Times(Plus(Times(Const(2), l), l'), t))
  }

  lemma FourFormVal(l: Term, l': Term, t: Term, x: int, y: int)
    ensures Val(FourForm(l, l', t), x, y)
         == Val(l, x, y) * (Val(l, x, y) * Val(l, x, y)) + (2 * Val(l, x, y) + Val(l', x, y)) * Val(t, x, y)
  {
    Vals();
  }

  lemma FourReplace(c: EllipticCurve, l: Term, l': Term, s: Term, t: Term)
    requires Eq(c, s, t)
    ensures Eq(c, FourForm(l, l', s), FourForm(l, l', t))
  {
    EqRefl(c, Times(l, Times(l, l)));
    EqScale(c, Plus(Times(Const(2), l), l'), s, t);
    EqPlus(c, Times(l, Times(l, l)), Times(l, Times(l, l)),
      Times(Plus(Times(Const(2), l), l'), s), Times(Plus(Times(Const(2), l), l'), t));
  }

  lemma FourAt(c: EllipticCurve, m: int, k: int, x: int, y: int)
    ensures var l, l' := LineTerm(m, k), LineMirror(m, k);
            Val(Times(Const(4), Times(Cubed(c), l)), x, y) == Val(FourForm(l, l', Times(l, l')), x, y)
              + (Val(Cubed(c), x, y) - Val(Times(Y, Y), x, y)) * Val(Times(Const(4), l), x, y)
  {
    var l, l' := LineTerm(m, k), LineMirror(m, k);
    LineVal(m, k, x, y);
    var w := Times(Const(4), Times(Cubed(c), l));
    assert Val(w, x, y) == 4 * (Val(Cubed(c), x, y) * Val(l, x, y)) by {
      assert Val(Times(Cubed(c), l), x, y) == Val(Cubed(c), x, y) * Val(l, x, y);
    }
    FourFormVal(l, l', Times(l, l'), x, y);
    FourIdentity(y, Val(l, x, y), Val(l', x, y), Val(Cubed(c), x, y), Val(FourForm(l, l', Times(l, l')), x, y),
        Val(w, x, y));
  }

  /** 4 * cubic * line as a combination of the line's cube and of the three factors. */
  lemma FourTimes(c: EllipticCurve, m: int, k: int, three: Term)
    requires Eq(c, three, Times(LineTerm(m, k), LineMirror(m, k)))
    ensures Eq(c, FourForm(LineTerm(m, k), LineMirror(m, k), three), Times(Const(4), Times(Cubed(c), LineTerm(m, k))))
  {
    var l, l' := LineTerm(m, k), LineMirror(m, k);
    var v, w := FourForm(l, l', Times(l, l')), Times(Const(4), Times(Cubed(c), l));
    FourReplace(c, l, l', three, Times(l, l'));
    CurveEquation(c);
    forall x, y
      ensures Val(w, x, y) == Val(v, x, y) + (Val(Cubed(c), x, y) - Val(Times(Y, Y), x, y))
          * Val(Times(Const(4), l), x, y)
    {
      FourAt(c, m, k, x, y);
    }
    EqReplace(c, v, Times(Y, Y), Cubed(c), Times(Const(4), l), w);
    EqTrans(c, FourForm(l, l', three), v, w);
  }

  /** cubic * line lies in the product of the three ideals. */
  lemma CubedLineIn(c: EllipticCurve, m: int, k: int, p: Point, q: Point, r: Point)
    requires IsPrime(c.p) && c.p > 2 && Collinear(c, m, k, p, q, r)
    ensures In(c, [p, q, r], Times(Cubed(c), LineTerm(m, k)))
  {
    var l, l', t, points := LineTerm(m, k), LineMirror(m, k), ThreeX(p, q, r), [p, q, r];
    var f := Times(Cubed(c), l);
    ThreeIn(c, p, q, r, XAt(p), XAt(q), XAt(r)) by { XIn(c, p); XIn(c, q); XIn(c, r); }
    ThreeIn(c, p, q, r, l, l, l) by { LineIn(c, m, k, p); LineIn(c, m, k, q); LineIn(c, m, k, r); }
    InMultiple(c, points, t, Plus(Times(Const(2), l), l'));
    InPlus(c, points, Times(l, Times(l, l)), Times(Plus(Times(Const(2), l), l'), t));
    FourTimes(c, m, k, t);
    EqSym(c, FourForm(l, l', t), Times(Const(4), f));
    InEq(c, points, FourForm(l, l', t), Times(Const(4), f));
    FourInvertible(c.p);
    var w, e := InverseWitness(4, c.p);
    InMultiple(c, points, Times(Const(4), f), Const(w));
    UnitMultiple(c, f, 4, w, e);
    InEq(c, points, Times(Const(w), Times(Const(4), f)), f);
  }

  lemma ThreeIn(c: EllipticCurve, p: Point, q: Point, r: Point, u: Term, v: Term, w: Term)
    requires In(c, [p], u) && In(c, [q], v) && In(c, [r], w)
    ensures In(c, [p, q, r], Times(u, Times(v, w)))
  {
    InTimes(c, [q], [r], v, w);
    assert [q] + [r] == [q, r];
    InTimes(c, [p], [q, r], u, Times(v, w));
    assert [p] + [q, r] == [p, q, r];
  }

  lemma FourInvertible(p: int)
    requires IsPrime(p) && p > 2
    ensures !Divides(p, 4)
  {
    if Divides(p, 2 * 2) {
      PrimeDividesProduct(p, 2, 2);
      SmallMod(2, p);
    }
  }

  /** Multiplying by n and then by its inverse. */
  lemma UnitMultiple(c: EllipticCurve, u: Term, n: int, w: int, e: int)
    requires n * w == 1 + c.p * e
    ensures Eq(c, u, Times(Const(w), Times(Const(n), u)))
  {
    var v, z := Times(Const(w), Times(Const(n), u)), Times(Const(-e), u);
    forall x, y ensures Differ(c.p, Off(c, x, y), Val(u, x, y), Val(v, x, y), Val(z, x, y), 0) {
      UnitIdentity(c.p, Off(c, x, y), Val(u, x, y), n, w, e);
      assert Val(Times(Const(n), u), x, y) == n * Val(u, x, y);
    }
    assert EqBy(c, u, v, z, ZERO);
  }

  lemma UnitIdentity(p: int, h: int, u: int, n: int, w: int, e: int)
    requires n * w == 1 + p * e
    ensures Differ(p, h, u, w * (n * u), -e * u, 0)
  {
    assert w * (n * u) == (1 + p * e) * u;
    assert p * (-e * u) == -((p * e) * u);
  }

  // ---------------------------------------------------------------- the cubic is invertible at the three points

  /** 1 - n * cubic */
  function Complement(c: EllipticCurve, n: int): Term {
    Plus(ONE, Times(Const(-n), Cubed(c)))
  }

  lemma ComplementIdentity(p: int, h: int, n: int, f: int, r: int, e: int, g: int, s: int)
    requires r * n == 1 + p * e && g * s == f - r
    ensures Differ(p, h, 1 + -n * f, g * (-n * s), -e, 0)
  {
    assert g * (-n * s) == -n * (g * s);
    assert -n * (f - r) == -n * f + r * n;
    assert p * -e == -(p * e);
  }

  /** With n the inverse of the cubic at xP, 1 - n * cubic is a multiple of x - xP. */
  lemma ComplementFactor(c: EllipticCurve, point: Point) returns (n: int, s: Term)
    requires IsPrime(c.p) && point.Affine? && IsOnCurve(c, point) && !Divides(c.p, point.y)
    ensures Eq(c, Complement(c, n), Times(XAt(point), s))
  {
    var r := Cubic(c, point.x);
    CubicInvertible(c, point);
    var e;
    n, e := InverseWitness(r, c.p);
    s := Times(Const(-n), CubicQuotient(c, point.x));
    var u, v := Complement(c, n), Times(XAt(point), s);
    forall x, y ensures Differ(c.p, Off(c, x, y), Val(u, x, y), Val(v, x, y), -e, 0) {
      CubedVal(c, x, y);
      CubicQuotientVal(c, point.x, x, y);
      ValScaled(ONE, -n, Cubed(c), x, y);
      ComplementVal(point, n, CubicQuotient(c, point.x), x, y);
      ComplementIdentity(c.p, Off(c, x, y), n, Cubic(c, x), r, e, x - point.x, Val(CubicQuotient(c, point.x), x, y));
    }
    assert EqBy(c, u, v, Const(-e), ZERO);
  }

  lemma ComplementVal(point: Point, n: int, s: Term, x: int, y: int)
    requires point.Affine?
    ensures Val(Times(XAt(point), Times(Const(-n), s)), x, y) == (x - point.x) * (-n * Val(s, x, y))
  {
    AtVal(point, x, y);
    assert Val(Times(Const(-n), s), x, y) == -n * Val(s, x, y);
  }

  lemma CubicInvertible(c: EllipticCurve, point: Point)
    requires IsPrime(c.p) && point.Affine? && IsOnCurve(c, point) && !Divides(c.p, point.y)
    ensures !Divides(c.p, Cubic(c, point.x))
  {
    OnCurveCubic(c, point.x, point.y);
    if Divides(c.p, Cubic(c, point.x)) {
      SquareDivisible(c, point);
      assert false;
    }
  }

  lemma SquareDivisible(c: EllipticCurve, point: Point)
    requires IsPrime(c.p) && point.Affine? && IsOnCurve(c, point) && Divides(c.p, Cubic(c, point.x))
    ensures Divides(c.p, point.y)
  {
    OnCurveCubic(c, point.x, point.y);
    DividesSum(c.p, point.y * point.y - Cubic(c, point.x), Cubic(c, point.x));
    PrimeDividesProduct(c.p, point.y, point.y);
  }

  /** 1 = k1*k2*k3 + f * h for k_i = 1 - n_i * f. */
  lemma PartitionIdentity(f: int, n1: int, n2: int, n3: int, l: int, k1: int, k2: int, k3: int, h: int)
    requires k1 == 1 + -n1 * f && k2 == 1 + -n2 * f && k3 == 1 + -n3 * f
    requires h == n1 + (k1 * n2 + (k1 * k2) * n3)
    ensures l == (k1 * (k2 * k3)) * l + (f * l) * h
  {
    assert f * h == f * n1 + k1 * (f * n2) + (k1 * k2) * (f * n3);
    assert k1 * (f * n2) == k1 - k1 * k2;
    assert (k1 * k2) * (f * n3) == k1 * k2 - (k1 * k2) * k3;
    assert k1 * (k2 * k3) + f * h == 1;
    assert (f * l) * h == (f * h) * l;
    assert (k1 * (k2 * k3) + f * h) * l == (k1 * (k2 * k3)) * l + (f * h) * l;
  }

  /** k1 * k2 * k3 lies in the product when each k_i is a multiple of its x - x_i. */
  lemma FactorsIn(c: EllipticCurve, p: Point, q: Point, r: Point, k1: Term, k2: Term, k3: Term, s1: Term, s2: Term,
      s3: Term)
    requires p.Affine? && q.Affine? && r.Affine?
    requires Eq(c, k1, Times(XAt(p), s1)) && Eq(c, k2, Times(XAt(q), s2)) && Eq(c, k3, Times(XAt(r), s3))
    ensures In(c, [p, q, r], Times(k1, Times(k2, k3)))
  {
    FactorIn(c, p, k1, s1);
    FactorIn(c, q, k2, s2);
    FactorIn(c, r, k3, s3);
    ThreeIn(c, p, q, r, k1, k2, k3);
  }

  lemma FactorIn(c: EllipticCurve, p: Point, k: Term, s: Term)
    requires p.Affine? && Eq(c, k, Times(XAt(p), s))
    ensures In(c, [p], k)
  {
    XIn(c, p);
    InMultiple(c, [p], XAt(p), s);
    InEq(c, [p], Times(XAt(p), s), k);
  }

  lemma LineHolds(c: EllipticCurve, m: int, k: int, p: Point, q: Point, r: Point)
    requires IsPrime(c.p) && c.p > 2 && Collinear(c, m, k, p, q, r)
    ensures In(c, [p, q, r], LineTerm(m, k))
  {
    var l, f, points := LineTerm(m, k), Cubed(c), [p, q, r];
    var n1, s1 := ComplementFactor(c, p);
    var n2, s2 := ComplementFactor(c, q);
    var n3, s3 := ComplementFactor(c, r);
    var k1, k2, k3 := Complement(c, n1), Complement(c, n2), Complement(c, n3);
    FactorsIn(c, p, q, r, k1, k2, k3, s1, s2, s3);
    InMultiple(c, points, Times(k1, Times(k2, k3)), l);
    CubedLineIn(c, m, k, p, q, r);
    var h := Plus(Const(n1), Plus(Times(k1, Const(n2)), Times(Times(k1, k2), Const(n3))));
    InMultiple(c, points, Times(f, l), h);
    var a, b := Times(Times(k1, Times(k2, k3)), l), Times(Times(f, l), h);
    InPlus(c, points, a, b);
    forall x, y ensures Val(l, x, y) == Val(Plus(a, b), x, y) {
      PartitionVal(c, l, n1, n2, n3, x, y);
    }
    EqSame(c, l, Plus(a, b));
    InEq(c, points, Plus(a, b), l);
  }

  lemma PartitionVal(c: EllipticCurve, l: Term, n1: int, n2: int, n3: int, x: int, y: int)
    ensures var k1, k2, k3, f := Complement(c, n1), Complement(c, n2), Complement(c, n3), Cubed(c);
            var h := Plus(Const(n1), Plus(Times(k1, Const(n2)), Times(Times(k1, k2), Const(n3))));
            Val(l, x, y) == Val(Plus(Times(Times(k1, Times(k2, k3)), l), Times(Times(f, l), h)), x, y)
  {
    var k1, k2, k3, f := Complement(c, n1), Complement(c, n2), Complement(c, n3), Cubed(c);
    var h := Plus(Const(n1), Plus(Times(k1, Const(n2)), Times(Times(k1, k2), Const(n3))));
    ValScaled(ONE, -n1, f, x, y);
    ValScaled(ONE, -n2, f, x, y);
    ValScaled(ONE, -n3, f, x, y);
    ValTimesSum(Times(k1, Times(k2, k3)), l, Times(f, l), h, x, y);
    ValPartition(k1, k2, k3, n1, n2, n3, x, y);
    assert Val(Times(f, l), x, y) == Val(f, x, y) * Val(l, x, y);
    PartitionIdentity(Val(f, x, y), n1, n2, n3, Val(l, x, y), Val(k1, x, y), Val(k2, x, y), Val(k3, x, y),
        Val(h, x, y));
  }

  lemma ValPartition(k1: Term, k2: Term, k3: Term, n1: int, n2: int, n3: int, x: int, y: int)
    ensures Val(Times(k1, Times(k2, k3)), x, y) == Val(k1, x, y) * (Val(k2, x, y) * Val(k3, x, y))
    ensures Val(Plus(Const(n1), Plus(Times(k1, Const(n2)), Times(Times(k1, k2), Const(n3)))), x, y)
         == n1 + (Val(k1, x, y) * n2 + (Val(k1, x, y) * Val(k2, x, y)) * n3)
  {
    Vals();
  }

  // ---------------------------------------------------------------- the norm of a line

  lemma NegativeLeads(p: int, s: Poly)
    requires p > 1 && |s| > 0 && s[|s| - 1] == -1
    ensures Leads(p, s)
  {
    DivModUnique(-1, p, -1, p - 1);
  }

  lemma EvalFour(a0: int, a1: int, a2: int, a3: int, t: int)
    ensures Eval([a0, a1, a2, a3], t) == a0 + t * (a1 + t * (a2 + t * a3))
  {
    assert [a0, a1, a2, a3][1..] == [a1, a2, a3];
    EvalThree(a1, a2, a3, t);
  }

  /** The coefficients of (m*x + k)^2 - cubic. */
  function LineNormPoly(c: EllipticCurve, m: int, k: int): Poly {
    [k * k - c.b, 2 * (m * k) - c.a, m * m, -1]
  }

  lemma LineNormEval(c: EllipticCurve, m: int, k: int, x: int)
    ensures Eval(LineNormPoly(c, m, k), x) == (m * x + k) * (m * x + k) - Cubic(c, x)
  {
    EvalFour(k * k - c.b, 2 * (m * k) - c.a, m * m, -1, x);
    assert (m * x + k) * (m * x + k) == (m * m) * (x * x) + 2 * (m * k) * x + k * k;
    assert x * (2 * (m * k) - c.a + x * (m * m + x * -1)) == 2 * (m * k) * x - c.a * x + (m * m) * (x * x) - x * x * x;
  }

  lemma LineNormIdentity(p: int, h: int, f: int, y: int, t: int, s: int)
    requires h == y * y - f && s == t * t - f
    ensures Differ(p, h, (y - t) * (-y - t), s, 0, -1)
  {
    assert (y - t) * (-y - t) == t * t - y * y;
  }

  lemma LineNorm(c: EllipticCurve, m: int, k: int)
    ensures HasDegree(c, Norm(LineTerm(m, k)), 3)
  {
    var l, s := LineTerm(m, k), LineNormPoly(c, m, k);
    forall x, y ensures Differ(c.p, Off(c, x, y), Val(Norm(l), x, y), Val(Lift(s), x, y), 0, -1) {
      ConjVal(l, x, y);
      LineVal(m, k, x, y);
      LineVal(m, k, x, -y);
      LiftVal(s, x, y);
      LineNormEval(c, m, k, x);
      LineNormIdentity(c.p, Off(c, x, y), Cubic(c, x), y, m * x + k, Eval(s, x));
    }
    assert EqBy(c, Norm(l), Lift(s), ZERO, Const(-1));
    NegativeLeads(c.p, s);
  }

  lemma LineGenerated(c: EllipticCurve, m: int, k: int, p: Point, q: Point, r: Point)
    requires IsPrime(c.p) && c.p > 2 && Collinear(c, m, k, p, q, r)
    ensures Generates(c, [p, q, r], LineTerm(m, k))
  {
    LineHolds(c, m, k, p, q, r);
    forall u | In(c, [p, q, r], u) ensures Multiple(c, u, LineTerm(m, k)) {
      TripleMultiples(c, m, k, p, q, r, u);
    }
    LineNorm(c, m, k);
    assert Finite([p, q, r]) == 3;
  }
}
