/** Points of a short Weierstrass curve y^2 = x^3 + a*x + b over the integers
    modulo p, in the affine formulas of the reference arithmetic. */
module Curve {
  import opened Wrappers
  import opened Modular

  /** Characteristic, coefficients, base point and subgroup order. */
  datatype Parameters = Parameters(p: int, a: int, b: int, gx: int, gy: int, n: int)

  type EllipticCurve = c: Parameters | c.p > 1 && c.n > 1
    witness Parameters(2, 0, 0, 0, 0, 2)

  /** Infinity is the original's None. Coordinates are unreduced integers. */
  datatype Point = Infinity | Affine(x: int, y: int)

  function Cubic(c: EllipticCurve, x: int): int {
    x * x * x + c.a * x + c.b
  }

  predicate IsOnCurve(c: EllipticCurve, point: Point) {
    match point
    case Infinity => true
    case Affine(x, y) => (y * y - x * x * x - c.a * x - c.b) % c.p == 0
  }

  predicate Canonical(c: EllipticCurve, point: Point) {
    point.Affine? ==> 0 <= point.x < c.p && 0 <= point.y < c.p
  }

  predicate Valid(c: EllipticCurve, point: Point) {
    IsOnCurve(c, point) && Canonical(c, point)
  }

  function PointNeg(c: EllipticCurve, point: Point): Result<Point> {
    if !IsOnCurve(c, point) then Err(AssertionFailed)
    else if point.Infinity? then Ok(Infinity)
    else
      var result := Affine(point.x, -point.y % c.p);
      if IsOnCurve(c, result) then Ok(result) else Err(AssertionFailed)
  }

  /** The denominator of the slope, and the numerator over it. */
  function Slope(c: EllipticCurve, x1: int, y1: int, x2: int, y2: int): Result<int> {
    if x1 == x2 then
      var inverse :- InverseOf(2 * y1, c.p);
      Ok((3 * x1 * x1 + c.a) * inverse)
    else
      var inverse :- InverseOf(x1 - x2, c.p);
      Ok((y1 - y2) * inverse)
  }

  function PointAdd(c: EllipticCurve, point1: Point, point2: Point): Result<Point> {
    if !IsOnCurve(c, point1) || !IsOnCurve(c, point2) then Err(AssertionFailed)
    else if point1.Infinity? then Ok(point2)
    else if point2.Infinity? then Ok(point1)
    else
      var (x1, y1, x2, y2) := (point1.x, point1.y, point2.x, point2.y);
      if x1 == x2 && y1 != y2 then Ok(Infinity)
      else
        var m :- Slope(c, x1, y1, x2, y2);
        var x3 := m * m - x1 - x2;
        var y3 := y1 + m * (x3 - x1);
        var result := Affine(x3 % c.p, -y3 % c.p);
        if IsOnCurve(c, result) then Ok(result) else Err(AssertionFailed)
  }

  // ---------------------------------------------------------------- the line through two points

  /** The line of slope m through (x1, y1), at t. */
  function Line(m: int, x1: int, y1: int, t: int): int {
    y1 + m * (t - x1)
  }

  /** The line of slope m through (x1, y1) meets the curve exactly in x1, x2, x3:
      cubic minus squared line splits into the three linear factors. */
  ghost predicate MeetsIn(c: EllipticCurve, m: int, x1: int, y1: int, x2: int, x3: int) {
    forall t :: Congruent(Cubic(c, t) - Line(m, x1, y1, t) * Line(m, x1, y1, t), (t - x1) * (t - x2) * (t - x3), c.p)
  }

  function ResidueSlope(c: EllipticCurve, m: int, x1: int, y1: int, x2: int): int {
    c.a - 2 * m * (y1 - m * x1) - x1 * x2 - (x1 + x2) * (m * m - x1 - x2)
  }

  function ResidueConstant(c: EllipticCurve, m: int, x1: int, y1: int, x2: int): int {
    c.b - (y1 - m * x1) * (y1 - m * x1) + x1 * x2 * (m * m - x1 - x2)
  }

  /** With x3 = m^2 - x1 - x2 the two cubics differ by a linear polynomial only. */
  lemma ResidueIsLinear(c: EllipticCurve, m: int, x1: int, y1: int, x2: int, t: int)
    ensures Cubic(c, t) - Line(m, x1, y1, t) * Line(m, x1, y1, t)
         == (t - x1) * (t - x2) * (t - (m * m - x1 - x2))
            + ResidueSlope(c, m, x1, y1, x2) * t + ResidueConstant(c, m, x1, y1, x2)
  {
  }

  /** Two roots of a linear residue force it to vanish, when their difference is invertible. */
  lemma TwoRoots(p: int, alpha: int, beta: int, x1: int, x2: int, w: int, t: int)
    requires p > 1 && IsInverse(x1 - x2, w, p)
    requires Divides(p, alpha * x1 + beta) && Divides(p, alpha * x2 + beta)
    ensures Divides(p, alpha * t + beta)
  {
    var z := alpha * t + beta;
    DividesCombination(p, alpha * x1 + beta, alpha * x2 + beta, t - x2, -(t - x1));
    assert (t - x2) * (alpha * x1 + beta) + (-(t - x1)) * (alpha * x2 + beta) == (x1 - x2) * z;
    Cancel(x1 - x2, w, z, p);
  }

  /** The chord's slope carries the line from the first point to the second. */
  lemma ChordSlope(p: int, x1: int, y1: int, x2: int, y2: int, w: int)
    requires p > 1 && IsInverse(x1 - x2, w, p)
    ensures Congruent(Line((y1 - y2) * w, x1, y1, x2), y2, p)
  {
    SmallMod(1, p);
    CongruentIffSameMod((x1 - x2) * w, 1, p);
    DividesProduct(p, (x1 - x2) * w - 1, y2 - y1);
    assert ((x1 - x2) * w - 1) * (y2 - y1) == Line((y1 - y2) * w, x1, y1, x2) - y2;
  }

  lemma OnCurveCubic(c: EllipticCurve, x: int, y: int)
    ensures IsOnCurve(c, Affine(x, y)) <==> Divides(c.p, y * y - Cubic(c, x))
    ensures IsOnCurve(c, Affine(x, y)) <==> Divides(c.p, Cubic(c, x) - y * y)
  {
    if Divides(c.p, y * y - Cubic(c, x)) { CongruentSym(y * y, Cubic(c, x), c.p); }
    if Divides(c.p, Cubic(c, x) - y * y) { CongruentSym(Cubic(c, x), y * y, c.p); }
  }

  /** Chord case: the line through two points of the curve meets it in a third. */
  lemma ChordMeets(c: EllipticCurve, x1: int, y1: int, x2: int, y2: int, w: int)
    requires IsInverse(x1 - x2, w, c.p)
    requires IsOnCurve(c, Affine(x1, y1)) && IsOnCurve(c, Affine(x2, y2))
    ensures var m := (y1 - y2) * w; MeetsIn(c, m, x1, y1, x2, m * m - x1 - x2)
  {
    var m := (y1 - y2) * w;
    var alpha, beta := ResidueSlope(c, m, x1, y1, x2), ResidueConstant(c, m, x1, y1, x2);
    OnCurveCubic(c, x1, y1);
    OnCurveCubic(c, x2, y2);
    ResidueIsLinear(c, m, x1, y1, x2, x1);
    assert Divides(c.p, alpha * x1 + beta);
    ResidueIsLinear(c, m, x1, y1, x2, x2);
    var l2 := Line(m, x1, y1, x2);
    ChordSlope(c.p, x1, y1, x2, y2, w);
    CongruentProduct(l2, y2, l2, y2, c.p);
    DividesSum(c.p, Cubic(c, x2) - y2 * y2, l2 * l2 - y2 * y2);
    assert Divides(c.p, alpha * x2 + beta);
    forall t
      ensures Congruent(Cubic(c, t) - Line(m, x1, y1, t) * Line(m, x1, y1, t),
          (t - x1) * (t - x2) * (t - (m * m - x1 - x2)), c.p)
    {
      ResidueIsLinear(c, m, x1, y1, x2, t);
      TwoRoots(c.p, alpha, beta, x1, x2, w, t);
    }
  }

  /** Tangent case: the tangent meets the curve twice at the point and in a third. */
  lemma TangentMeets(c: EllipticCurve, x: int, y: int, w: int)
    requires IsInverse(2 * y, w, c.p) && IsOnCurve(c, Affine(x, y))
    ensures var m := (3 * x * x + c.a) * w; MeetsIn(c, m, x, y, x, m * m - x - x)
  {
    var m := (3 * x * x + c.a) * w;
    var alpha, beta := ResidueSlope(c, m, x, y, x), ResidueConstant(c, m, x, y, x);
    OnCurveCubic(c, x, y);
    ResidueIsLinear(c, m, x, y, x, x);
    assert Divides(c.p, alpha * x + beta);
    SmallMod(1, c.p);
    CongruentIffSameMod((2 * y) * w, 1, c.p);
    DividesProduct(c.p, (2 * y) * w - 1, -(3 * x * x + c.a));
    TangentResidue(c, x, y, w);
    forall t
      ensures Congruent(Cubic(c, t) - Line(m, x, y, t) * Line(m, x, y, t),
          (t - x) * (t - x) * (t - (m * m - x - x)), c.p)
    {
      ResidueIsLinear(c, m, x, y, x, t);
      DividesCombination(c.p, alpha, alpha * x + beta, t - x, 1);
      assert (t - x) * alpha + 1 * (alpha * x + beta) == alpha * t + beta;
    }
  }

  lemma TangentResidue(c: EllipticCurve, x: int, y: int, w: int)
    ensures ((2 * y) * w - 1) * -(3 * x * x + c.a) == ResidueSlope(c, (3 * x * x + c.a) * w, x, y, x)
  {
    var d := 3 * x * x + c.a;
    var m := d * w;
    assert ResidueSlope(c, m, x, y, x) == d - 2 * m * y;
    assert 2 * m * y == ((2 * y) * w) * d;
  }

  // ---------------------------------------------------------------- closure

  /** Being on the curve only depends on the residues of the coordinates. */
  lemma OnCurveResidues(c: EllipticCurve, x: int, y: int, u: int, v: int)
    requires Congruent(x, u, c.p) && Congruent(y, v, c.p) && IsOnCurve(c, Affine(x, y))
    ensures IsOnCurve(c, Affine(u, v))
  {
    CongruentProduct(x, u, x, u, c.p);
    CongruentProduct(x * x, u * u, x, u, c.p);
    CongruentProduct(y, v, y, v, c.p);
    DividesProduct(c.p, x - u, c.a);
    assert Congruent(c.a * x, c.a * u, c.p) by { assert (x - u) * c.a == c.a * x - c.a * u; }
    CongruentSum(y * y, v * v, x * x * x, u * u * u, c.p);
    CongruentSum(y * y - x * x * x, v * v - u * u * u, c.a * x, c.a * u, c.p);
    var e, f := y * y - x * x * x - c.a * x, v * v - u * u * u - c.a * u;
    DividesSum(c.p, e - c.b, e - f);
    assert (e - c.b) - (e - f) == f - c.b;
  }

  lemma MirrorOnCurve(c: EllipticCurve, x: int, y: int)
    requires IsOnCurve(c, Affine(x, y))
    ensures IsOnCurve(c, Affine(x, -y))
  {
    assert (-y) * (-y) == y * y;
  }

  /** `point_neg` never fails its second assertion, and stays canonical. */
  lemma NegClosed(c: EllipticCurve, point: Point)
    requires IsOnCurve(c, point)
    ensures PointNeg(c, point).Ok? && IsOnCurve(c, PointNeg(c, point).value)
    ensures Canonical(c, point) ==> Valid(c, PointNeg(c, point).value)
  {
    if point.Affine? {
      MirrorOnCurve(c, point.x, point.y);
      CongruentMod(-point.y, c.p);
      DividesWitness(c.p, point.x - point.x, 0);
      OnCurveResidues(c, point.x, -point.y, point.x, -point.y % c.p);
    }
  }

  /** Whichever slope is taken, its line meets the curve in the two operands and m^2 - x1 - x2. */
  lemma SlopeMeets(c: EllipticCurve, x1: int, y1: int, x2: int, y2: int)
    requires IsOnCurve(c, Affine(x1, y1)) && IsOnCurve(c, Affine(x2, y2))
    requires x1 == x2 ==> y1 == y2
    requires Slope(c, x1, y1, x2, y2).Ok?
    ensures var m := Slope(c, x1, y1, x2, y2).value; MeetsIn(c, m, x1, y1, x2, m * m - x1 - x2)
  {
    if x1 == x2 {
      TangentMeets(c, x1, y1, InverseOf(2 * y1, c.p).value);
    } else {
      ChordMeets(c, x1, y1, x2, y2, InverseOf(x1 - x2, c.p).value);
    }
  }

  /** Where a slope is computed at all. */
  predicate NeedsSlope(point1: Point, point2: Point) {
    point1.Affine? && point2.Affine? && (point1.x == point2.x ==> point1.y == point2.y)
  }

  /** The final assertion of `point_add` never fires: for any integer points of the
      curve the only failure is that of the slope's inversion. */
  lemma AddClosed(c: EllipticCurve, point1: Point, point2: Point)
    requires IsOnCurve(c, point1) && IsOnCurve(c, point2)
    ensures PointAdd(c, point1, point2).Ok? ==> IsOnCurve(c, PointAdd(c, point1, point2).value)
    ensures PointAdd(c, point1, point2).Ok? && Canonical(c, point1) && Canonical(c, point2)
        ==> Valid(c, PointAdd(c, point1, point2).value)
    ensures PointAdd(c, point1, point2).Err?
       <==> NeedsSlope(point1, point2) && Slope(c, point1.x, point1.y, point2.x, point2.y).Err?
  {
    if NeedsSlope(point1, point2) && Slope(c, point1.x, point1.y, point2.x, point2.y).Ok? {
      var (x1, y1, x2, y2) := (point1.x, point1.y, point2.x, point2.y);
      var m := Slope(c, x1, y1, x2, y2).value;
      var x3 := m * m - x1 - x2;
      SlopeMeets(c, x1, y1, x2, y2);
      ThirdPointOnCurve(c, m, x1, y1, x2, x3);
    }
  }

  /** The third intersection, mirrored and reduced, is on the curve. */
  lemma ThirdPointOnCurve(c: EllipticCurve, m: int, x1: int, y1: int, x2: int, x3: int)
    requires MeetsIn(c, m, x1, y1, x2, x3)
    ensures IsOnCurve(c, Affine(x3 % c.p, -(y1 + m * (x3 - x1)) % c.p))
  {
    var y3 := Line(m, x1, y1, x3);
    assert Congruent(Cubic(c, x3) - y3 * y3, (x3 - x1) * (x3 - x2) * (x3 - x3), c.p);
    assert (x3 - x1) * (x3 - x2) * (x3 - x3) == 0;
    OnCurveCubic(c, x3, y3);
    MirrorOnCurve(c, x3, y3);
    CongruentMod(x3, c.p);
    CongruentMod(-y3, c.p);
    OnCurveResidues(c, x3, -y3, x3 % c.p, -y3 % c.p);
  }

  // ---------------------------------------------------------------- what the sum is

  lemma MeetsInReduced(c: EllipticCurve, m: int, x1: int, y1: int, x2: int, x3: int)
    requires MeetsIn(c, m, x1, y1, x2, x3)
    ensures MeetsIn(c, m, x1, y1, x2, x3 % c.p)
  {
    forall t
      ensures Congruent(Cubic(c, t) - Line(m, x1, y1, t) * Line(m, x1, y1, t),
          (t - x1) * (t - x2) * (t - x3 % c.p), c.p)
    {
      var k := (t - x1) * (t - x2);
      CongruentMod(x3, c.p);
      DividesProduct(c.p, x3 % c.p - x3, k);
      assert (x3 % c.p - x3) * k == k * (t - x3) - k * (t - x3 % c.p);
      CongruentTrans(Cubic(c, t) - Line(m, x1, y1, t) * Line(m, x1, y1, t), k * (t - x3), k * (t - x3 % c.p), c.p);
    }
  }

  /** The chord-and-tangent law, stated without the formulas: some line goes through
      both operands and through the mirror image of the sum, and meets the curve in
      these three points only (a tangent counting its point twice). */
  ghost predicate OnOneLine(c: EllipticCurve, m: int, point1: Point, point2: Point, sum: Point)
    requires point1.Affine? && point2.Affine? && sum.Affine?
  {
    && Congruent(Line(m, point1.x, point1.y, point2.x), point2.y, c.p)
    && Congruent(Line(m, point1.x, point1.y, sum.x), -sum.y, c.p)
    && MeetsIn(c, m, point1.x, point1.y, point2.x, sum.x)
  }

  lemma AddIsThirdIntersection(c: EllipticCurve, point1: Point, point2: Point)
    requires IsOnCurve(c, point1) && IsOnCurve(c, point2)
    requires NeedsSlope(point1, point2) && PointAdd(c, point1, point2).Ok?
    ensures var sum := PointAdd(c, point1, point2).value;
            sum.Affine? && exists m :: OnOneLine(c, m, point1, point2, sum)
  {
    AddClosed(c, point1, point2);
    var sum := PointAdd(c, point1, point2).value;
    var (x1, y1, x2, y2) := (point1.x, point1.y, point2.x, point2.y);
    var m := Slope(c, x1, y1, x2, y2).value;
    var x3 := m * m - x1 - x2;
    SlopeMeets(c, x1, y1, x2, y2);
    MeetsInReduced(c, m, x1, y1, x2, x3);
    if x1 == x2 {
      assert Line(m, x1, y1, x2) == y2;
      DividesWitness(c.p, Line(m, x1, y1, x2) - y2, 0);
    } else {
      ChordSlope(c.p, x1, y1, x2, y2, InverseOf(x1 - x2, c.p).value);
    }
    LineAtReduced(c.p, m, x1, y1, x3);
    assert OnOneLine(c, m, point1, point2, sum);
  }

  lemma LineAtReduced(p: int, m: int, x1: int, y1: int, x3: int)
    requires p > 1
    ensures Congruent(Line(m, x1, y1, x3 % p), -(-(y1 + m * (x3 - x1)) % p), p)
  {
    var y3 := y1 + m * (x3 - x1);
    CongruentMod(-y3, p);
    CongruentMod(x3, p);
    DividesCombination(p, -y3 % p - -y3, x3 % p - x3, 1, m);
    assert m * (x3 % p - x3) == m * (x3 % p - x1) - m * (x3 - x1);
  }

  // ---------------------------------------------------------------- commutativity

  /** Swapping the operands replaces the chord's slope by a congruent one. */
  lemma SlopeSwap(c: EllipticCurve, x1: int, y1: int, x2: int, y2: int)
    requires x1 != x2
    ensures Slope(c, x2, y2, x1, y1).Ok? <==> Slope(c, x1, y1, x2, y2).Ok?
    ensures Slope(c, x1, y1, x2, y2).Err? ==> Slope(c, x2, y2, x1, y1) == Slope(c, x1, y1, x2, y2)
    ensures Slope(c, x1, y1, x2, y2).Ok?
        ==> Slope(c, x2, y2, x1, y1).value == Slope(c, x1, y1, x2, y2).value + (y2 - y1) * c.p
  {
    InverseOfNeg(x1 - x2, c.p);
    assert x2 - x1 == -(x1 - x2);
    if Slope(c, x1, y1, x2, y2).Ok? {
      var w := InverseOf(x1 - x2, c.p).value;
      assert (y2 - y1) * (c.p - w) == (y1 - y2) * w + (y2 - y1) * c.p;
    }
  }

  lemma ChordSwap(p: int, x1: int, y1: int, x2: int, y2: int, w: int, m: int)
    requires p > 1 && IsInverse(x1 - x2, w, p) && m == (y1 - y2) * w + (y2 - y1) * p
    ensures var k := (y1 - y2) * w;
            var x3, x3' := k * k - x1 - x2, m * m - x2 - x1;
            Congruent(x3, x3', p) && Congruent(-(y1 + k * (x3 - x1)), -(y2 + m * (x3' - x2)), p)
  {
    var k := (y1 - y2) * w;
    DividesWitness(p, m - k, y2 - y1);
    CongruentSym(m, k, p);
    CongruentProduct(k, m, k, m, p);
    var x3, x3' := k * k - x1 - x2, m * m - x2 - x1;
    ChordSlope(p, x1, y1, x2, y2, w);
    CongruentSum(x3, x3', x2, x2, p) by { DividesWitness(p, 0, 0); }
    CongruentProduct(k, m, x3 - x2, x3' - x2, p);
    CongruentSum(Line(k, x1, y1, x2), y2, k * (x3 - x2), m * (x3' - x2), p);
    assert Line(k, x1, y1, x2) + k * (x3 - x2) == y1 + k * (x3 - x1) by {
      assert k * (x2 - x1) + k * (x3 - x2) == k * (x3 - x1);
    }
    CongruentSym(y1 + k * (x3 - x1), y2 + m * (x3' - x2), p);
  }

  /** `point_add` is commutative on all integer pairs, failures included. */
  lemma AddCommutes(c: EllipticCurve, point1: Point, point2: Point)
    ensures PointAdd(c, point1, point2) == PointAdd(c, point2, point1)
  {
    if IsOnCurve(c, point1) && IsOnCurve(c, point2) && point1.Affine? && point2.Affine? && point1.x != point2.x {
      var (x1, y1, x2, y2) := (point1.x, point1.y, point2.x, point2.y);
      SlopeSwap(c, x1, y1, x2, y2);
      if Slope(c, x1, y1, x2, y2).Ok? {
        var w := InverseOf(x1 - x2, c.p).value;
        var m := Slope(c, x2, y2, x1, y1).value;
        var k := (y1 - y2) * w;
        var x3, x3' := k * k - x1 - x2, m * m - x2 - x1;
        ChordSwap(c.p, x1, y1, x2, y2, w, m);
        CongruentIffSameMod(x3, x3', c.p);
        CongruentIffSameMod(-(y1 + k * (x3 - x1)), -(y2 + m * (x3' - x2)), c.p);
      }
    }
  }

  // ---------------------------------------------------------------- over a prime field

  lemma ResiduesApart(p: int, a: int, b: int)
    requires 0 <= a < p && 0 <= b < p
    ensures Divides(p, a - b) <==> a == b
    ensures Divides(p, a + b) <==> b == (-a) % p
  {
    CongruentIffSameMod(a, b, p);
    SmallMod(a, p);
    SmallMod(b, p);
    CongruentIffSameMod(b, -a, p);
  }

  /** Over a prime field `point_add` fails on canonical points exactly when it
      doubles a point whose doubled ordinate vanishes; otherwise it stays on the curve. */
  lemma AddFailsExactly(c: EllipticCurve, point1: Point, point2: Point)
    requires IsPrime(c.p) && Valid(c, point1) && Valid(c, point2)
    ensures PointAdd(c, point1, point2).Err?
       <==> point1.Affine? && point1 == point2 && Divides(c.p, 2 * point1.y)
    ensures PointAdd(c, point1, point2).Ok? ==> Valid(c, PointAdd(c, point1, point2).value)
  {
    AddClosed(c, point1, point2);
    if NeedsSlope(point1, point2) {
      PrimeInverse(2 * point1.y, c.p);
      PrimeInverse(point1.x - point2.x, c.p);
      ResiduesApart(c.p, point1.x, point2.x);
    }
  }

  /** A prime field, and no point of the curve is its own mirror image. */
  ghost predicate NeverVertical(c: EllipticCurve) {
    IsPrime(c.p) && forall x, y :: Valid(c, Affine(x, y)) ==> !Divides(c.p, 2 * y)
  }

  /** That is exactly when no addition of canonical points can divide by zero. */
  lemma AddTotalExactly(c: EllipticCurve)
    requires IsPrime(c.p)
    ensures NeverVertical(c)
       <==> forall p, q {:trigger PointAdd(c, p, q)} | Valid(c, p) && Valid(c, q) :: PointAdd(c, p, q).Ok?
  {
    forall x, y | Valid(c, Affine(x, y)) && Divides(c.p, 2 * y)
      ensures PointAdd(c, Affine(x, y), Affine(x, y)).Err?
    {
      AddFailsExactly(c, Affine(x, y), Affine(x, y));
    }
    forall p, q | NeverVertical(c) && Valid(c, p) && Valid(c, q) ensures PointAdd(c, p, q).Ok? {
      AddSucceeds(c, p, q);
    }
  }

  lemma AddSucceeds(c: EllipticCurve, point1: Point, point2: Point)
    requires NeverVertical(c) && Valid(c, point1) && Valid(c, point2)
    ensures PointAdd(c, point1, point2).Ok? && Valid(c, PointAdd(c, point1, point2).value)
  {
    AddFailsExactly(c, point1, point2);
  }

  /** Two points of the curve with one abscissa are equal or opposite. */
  lemma SameAbscissa(c: EllipticCurve, x: int, y1: int, y2: int)
    requires IsPrime(c.p) && Valid(c, Affine(x, y1)) && Valid(c, Affine(x, y2))
    ensures y1 == y2 || y2 == -y1 % c.p
  {
    OnCurveCubic(c, x, y1);
    OnCurveCubic(c, x, y2);
    DividesSum(c.p, y1 * y1 - Cubic(c, x), y2 * y2 - Cubic(c, x));
    assert (y1 * y1 - Cubic(c, x)) - (y2 * y2 - Cubic(c, x)) == (y1 - y2) * (y1 + y2);
    PrimeDividesProduct(c.p, y1 - y2, y1 + y2);
    ResiduesApart(c.p, y1, y2);
  }

  /** `point_neg` gives the inverse: a sum is infinity exactly for opposite points,
      the doubling of an ordinate-0 point (which raises) excepted. */
  lemma AddIsInfinityExactly(c: EllipticCurve, point1: Point, point2: Point)
    requires IsPrime(c.p) && Valid(c, point1) && Valid(c, point2)
    ensures PointAdd(c, point1, point2) == Ok(Infinity)
       <==> PointNeg(c, point1) == Ok(point2) && !(point1.Affine? && point1 == point2)
  {
    NegClosed(c, point1);
    if point1.Affine? && point2.Affine? && point1.x == point2.x {
      SameAbscissa(c, point1.x, point1.y, point2.y);
    }
  }

  // ---------------------------------------------------------------- unreduced coordinates

  function Reduced(c: EllipticCurve, point: Point): Point {
    match point
    case Infinity => Infinity
    case Affine(x, y) => Affine(x % c.p, y % c.p)
  }

  lemma ReducedValid(c: EllipticCurve, point: Point)
    ensures IsOnCurve(c, point) <==> Valid(c, Reduced(c, point))
  {
    if point.Affine? {
      var (x, y) := (point.x, point.y);
      CongruentMod(x, c.p);
      CongruentMod(y, c.p);
      if IsOnCurve(c, point) {
        OnCurveResidues(c, x, y, x % c.p, y % c.p);
      }
      if IsOnCurve(c, Reduced(c, point)) {
        OnCurveResidues(c, x % c.p, y % c.p, x, y);
      }
    }
  }

  predicate SameResidue(c: EllipticCurve, point1: Point, point2: Point) {
    point1.Affine? && point2.Affine? && point1.x % c.p == point2.x % c.p
  }

  /** Coordinates that are congruent are equal, as far as `point_add` compares them. */
  predicate Comparable(c: EllipticCurve, point1: Point, point2: Point) {
    && (SameResidue(c, point1, point2) ==> point1.x == point2.x)
    && (SameResidue(c, point1, point2) && point1.y % c.p == point2.y % c.p ==> point1.y == point2.y)
  }

  lemma InverseOfCongruent(k: int, k': int, p: int)
    requires p > 1 && k % p == k' % p != 0
    ensures InverseOf(k, p) == InverseOf(k', p)
  {
    InverseOfResidue(k, p);
    InverseOfResidue(k', p);
  }

  /** The sum's coordinates only depend on the residues of slope and operands. */
  lemma SumResidues(p: int, m: int, x1: int, y1: int, x2: int, m': int, x1': int, y1': int, x2': int)
    requires p > 1 && Congruent(m, m', p) && Congruent(x1, x1', p) && Congruent(y1, y1', p) && Congruent(x2, x2', p)
    ensures var x3, x3' := m * m - x1 - x2, m' * m' - x1' - x2';
            x3 % p == x3' % p && -(y1 + m * (x3 - x1)) % p == -(y1' + m' * (x3' - x1')) % p
  {
    var x3, x3' := m * m - x1 - x2, m' * m' - x1' - x2';
    CongruentProduct(m, m', m, m', p);
    CongruentSum(m * m, m' * m', x1, x1', p);
    CongruentSum(m * m - x1, m' * m' - x1', x2, x2', p);
    CongruentIffSameMod(x3, x3', p);
    CongruentSum(x3, x3', x1, x1', p);
    CongruentProduct(m, m', x3 - x1, x3' - x1', p);
    CongruentSum(y1, y1', m * (x3 - x1), m' * (x3' - x1'), p);
    CongruentSym(y1 + m * (x3 - x1), y1' + m' * (x3' - x1'), p);
    CongruentIffSameMod(-(y1 + m * (x3 - x1)), -(y1' + m' * (x3' - x1')), p);
  }

  lemma ChordReduced(c: EllipticCurve, x1: int, y1: int, x2: int, y2: int)
    requires x1 % c.p != x2 % c.p
    ensures var s, s' := Slope(c, x1, y1, x2, y2), Slope(c, x1 % c.p, y1 % c.p, x2 % c.p, y2 % c.p);
            (s.Ok? <==> s'.Ok?) && (s.Ok? ==> Congruent(s.value, s'.value, c.p))
  {
    var (u1, v1, u2, v2) := (x1 % c.p, y1 % c.p, x2 % c.p, y2 % c.p);
    CongruentMod(x1, c.p);
    CongruentMod(x2, c.p);
    CongruentMod(y1, c.p);
    CongruentMod(y2, c.p);
    CongruentSum(x1, u1, x2, u2, c.p);
    CongruentSum(y1, v1, y2, v2, c.p);
    CongruentIffSameMod(x1 - x2, u1 - u2, c.p);
    CongruentIffSameMod(x1, x2, c.p);
    InverseOfCongruent(x1 - x2, u1 - u2, c.p);
    var inverse := InverseOf(x1 - x2, c.p);
    if inverse.Ok? {
      DividesWitness(c.p, inverse.value - inverse.value, 0);
      CongruentProduct(y1 - y2, v1 - v2, inverse.value, inverse.value, c.p);
    }
  }

  lemma TangentNumerator(c: EllipticCurve, x: int)
    ensures Congruent(3 * x * x + c.a, 3 * (x % c.p) * (x % c.p) + c.a, c.p)
  {
    var u := x % c.p;
    CongruentMod(x, c.p);
    CongruentProduct(x, u, x, u, c.p);
    DividesProduct(c.p, x * x - u * u, 3);
    assert (x * x - u * u) * 3 == (3 * x * x + c.a) - (3 * u * u + c.a);
  }

  lemma TangentReduced(c: EllipticCurve, x: int, y: int)
    requires (2 * y) % c.p != 0
    ensures var s, s' := Slope(c, x, y, x, y), Slope(c, x % c.p, y % c.p, x % c.p, y % c.p);
            (s.Ok? <==> s'.Ok?) && (s.Ok? ==> Congruent(s.value, s'.value, c.p))
  {
    CongruentMod(y, c.p);
    DividesProduct(c.p, y - y % c.p, 2);
    assert (y - y % c.p) * 2 == 2 * y - 2 * (y % c.p);
    CongruentIffSameMod(2 * y, 2 * (y % c.p), c.p);
    InverseOfCongruent(2 * y, 2 * (y % c.p), c.p);
    var inverse := InverseOf(2 * y, c.p);
    if inverse.Ok? {
      TangentNumerator(c, x);
      DividesWitness(c.p, inverse.value - inverse.value, 0);
      CongruentProduct(3 * x * x + c.a, 3 * (x % c.p) * (x % c.p) + c.a, inverse.value, inverse.value, c.p);
    }
  }

  /** Doubled ordinates are invertible on unreduced points too. */
  lemma DoubledOrdinate(c: EllipticCurve, point: Point)
    requires NeverVertical(c) && IsOnCurve(c, point) && point.Affine?
    ensures (2 * point.y) % c.p != 0
  {
    ReducedValid(c, point);
    var v := point.y % c.p;
    assert Valid(c, Affine(point.x % c.p, v));
    CongruentMod(point.y, c.p);
    DividesProduct(c.p, point.y - v, 2);
    assert (point.y - v) * 2 == 2 * point.y - 2 * v;
    CongruentIffSameMod(2 * point.y, 2 * v, c.p);
  }

  lemma SlopeReduced(c: EllipticCurve, point1: Point, point2: Point)
    requires NeverVertical(c) && IsOnCurve(c, point1) && IsOnCurve(c, point2)
    requires NeedsSlope(point1, point2) && Comparable(c, point1, point2)
    ensures var r1, r2 := Reduced(c, point1), Reduced(c, point2);
            var s, s' := Slope(c, point1.x, point1.y, point2.x, point2.y), Slope(c, r1.x, r1.y, r2.x, r2.y);
            (s.Ok? <==> s'.Ok?) && (s.Ok? ==> Congruent(s.value, s'.value, c.p))
  {
    if point1.x == point2.x {
      DoubledOrdinate(c, point1);
      TangentReduced(c, point1.x, point1.y);
    } else {
      ChordReduced(c, point1.x, point1.y, point2.x, point2.y);
    }
  }

  lemma AddReduces(c: EllipticCurve, point1: Point, point2: Point)
    requires NeverVertical(c) && IsOnCurve(c, point1) && IsOnCurve(c, point2)
    requires point1.Affine? && point2.Affine? && Comparable(c, point1, point2)
    ensures PointAdd(c, point1, point2) == PointAdd(c, Reduced(c, point1), Reduced(c, point2))
  {
    ReducedValid(c, point1);
    ReducedValid(c, point2);
    var r1, r2 := Reduced(c, point1), Reduced(c, point2);
    AddSucceeds(c, r1, r2);
    AddClosed(c, point1, point2);
    if NeedsSlope(point1, point2) {
      SlopeReduced(c, point1, point2);
      var s, s' := Slope(c, point1.x, point1.y, point2.x, point2.y), Slope(c, r1.x, r1.y, r2.x, r2.y);
      if s.Ok? {
        CongruentMod(point1.x, c.p);
        CongruentMod(point1.y, c.p);
        CongruentMod(point2.x, c.p);
        SumResidues(c.p, s.value, point1.x, point1.y, point2.x, s'.value, r1.x, r1.y, r2.x);
      }
    }
  }

  /** Points with congruent, unequal coordinates are taken apart: the addition raises, or
      gives infinity for what is a doubling. */
  lemma IncomparableFails(c: EllipticCurve, point1: Point, point2: Point)
    requires NeverVertical(c) && IsOnCurve(c, point1) && IsOnCurve(c, point2) && !Comparable(c, point1, point2)
    ensures PointAdd(c, point1, point2)
         == if point1.x == point2.x then Ok(Infinity) else Err(AssertionFailed)
    ensures PointAdd(c, Reduced(c, point1), Reduced(c, point2)) != PointAdd(c, point1, point2)
  {
    ReducedValid(c, point1);
    ReducedValid(c, point2);
    AddSucceeds(c, Reduced(c, point1), Reduced(c, point2));
    if point1.x == point2.x {
      AddIsInfinityExactly(c, Reduced(c, point1), Reduced(c, point2));
    } else {
      CongruentIffSameMod(point1.x, point2.x, c.p);
      PrimeInverse(point1.x - point2.x, c.p);
    }
  }

  ghost function ReducedResult(c: EllipticCurve, r: Result<Point>): Result<Point> {
    match r
    case Ok(point) => Ok(Reduced(c, point))
    case Err(_) => r
  }

  lemma ReducedTwice(c: EllipticCurve, point: Point)
    ensures Reduced(c, Reduced(c, point)) == Reduced(c, point)
    ensures Canonical(c, point) ==> Reduced(c, point) == point
  {
    if point.Affine? {
      SmallMod(point.x % c.p, c.p);
      SmallMod(point.y % c.p, c.p);
      if Canonical(c, point) {
        SmallMod(point.x, c.p);
        SmallMod(point.y, c.p);
      }
    }
  }

  /** Canonical coordinates matter, because `point_add` compares them unreduced: on integer
      points of the curve it is addition modulo p exactly when congruent coordinates
      that it compares are equal. */
  lemma AddReducesExactly(c: EllipticCurve, point1: Point, point2: Point)
    requires NeverVertical(c) && IsOnCurve(c, point1) && IsOnCurve(c, point2)
    ensures ReducedResult(c, PointAdd(c, point1, point2)) == PointAdd(c, Reduced(c, point1), Reduced(c, point2))
       <==> Comparable(c, point1, point2)
  {
    ReducedValid(c, point1);
    ReducedValid(c, point2);
    var sum := PointAdd(c, Reduced(c, point1), Reduced(c, point2));
    AddSucceeds(c, Reduced(c, point1), Reduced(c, point2));
    ReducedTwice(c, sum.value);
    if !Comparable(c, point1, point2) {
      IncomparableFails(c, point1, point2);
    } else if point1.Affine? && point2.Affine? {
      AddReduces(c, point1, point2);
    }
  }
}
