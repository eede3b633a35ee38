/** Scalar multiplication over the group of the curve's canonical points. */
module Group {
  import opened Wrappers
  import opened Modular
  import opened Curve
  import opened Multiples
  import opened Associativity

  /** k-fold repeated `point_add`. */
  ghost function Times(c: EllipticCurve, k: nat, point: Point): Result<Point> {
    if k == 0 then Ok(Infinity)
    else
      var r :- Times(c, k - 1, point);
      PointAdd(c, r, point)
  }

  /** What is assumed of the curve constants, and no more: a prime field, no point that
      is its own opposite, and a base point on the curve that a prime order kills.
      Everything else about the group, associativity included, is proved. */
  ghost predicate PrimeOrder(c: EllipticCurve) {
    && NeverVertical(c)
    && IsPrime(c.n)
    && Valid(c, Affine(c.gx, c.gy))
    && Times(c, c.n, Affine(c.gx, c.gy)) == Ok(Infinity)
  }

  // ---------------------------------------------------------------- the group of the points

  /** `point_add` as a total operation. */
  ghost function Sum(c: EllipticCurve, p: Point, q: Point): Point {
    match PointAdd(c, p, q)
    case Ok(s) => s
    case Err(_) => Infinity
  }

  ghost function Points(c: EllipticCurve): Structure<Point> {
    Structure(p => Valid(c, p), (p, q) => Sum(c, p, q), Infinity)
  }

  lemma SumAssociates(c: EllipticCurve, p: Point, q: Point, r: Point)
    requires NeverVertical(c) && Valid(c, p) && Valid(c, q) && Valid(c, r)
    ensures Sum(c, Sum(c, p, q), r) == Sum(c, p, Sum(c, q, r))
  {
    AddSucceeds(c, p, q);
    AddSucceeds(c, q, r);
    AddAssociates(c, p, q, r, Sum(c, p, q), Sum(c, q, r));
  }

  /** `point_neg` is the inverse of every point of the group. */
  lemma NegIsInverse(c: EllipticCurve, p: Point)
    requires NeverVertical(c) && Valid(c, p)
    ensures PointNeg(c, p).Ok? && Valid(c, PointNeg(c, p).value)
    ensures PointAdd(c, p, PointNeg(c, p).value) == Ok(Infinity)
  {
    NegClosed(c, p);
    var q := PointNeg(c, p).value;
    if p.Affine? && p == q {
      ResiduesApart(c.p, p.y, p.y);
      AddFailsExactly(c, p, p);
      AddSucceeds(c, p, p);
    } else {
      AddIsInfinityExactly(c, p, q);
    }
  }

  /** The canonical points of the curve with `point_add` meet the laws of `Multiples`. */
  lemma PointsAssociate(c: EllipticCurve)
    requires NeverVertical(c)
    ensures Associative(Points(c))
  {
    var s := Points(c);
    forall p, q | s.ok(p) && s.ok(q)
      ensures s.ok(s.op(p, q))
    {
      AddSucceeds(c, p, q);
    }
    forall p, q, r | Three(s, p, q, r)
      ensures s.op(s.op(p, q), r) == s.op(p, s.op(q, r))
    {
      SumAssociates(c, p, q, r);
    }
  }

  /** Repeated `point_add` never fails and is the abstract multiple. */
  lemma {:induction false} TimesIsMul(c: EllipticCurve, k: nat, point: Point)
    requires NeverVertical(c) && Valid(c, point) && Associative(Points(c))
    ensures Times(c, k, point) == Ok(Mul(Points(c), k, point))
  {
    if k > 0 {
      TimesIsMul(c, k - 1, point);
      AddSucceeds(c, Mul(Points(c), k - 1, point), point);
    }
  }

  lemma OrderKills(c: EllipticCurve, point: Point)
    requires NeverVertical(c) && Valid(c, point) && Associative(Points(c)) && Times(c, c.n, point) == Ok(Infinity)
    ensures Mul(Points(c), c.n, point) == Infinity
  {
    TimesIsMul(c, c.n, point);
  }

  // ---------------------------------------------------------------- scalar_mult

  /** k-fold addition for every integer k: of the point, or of its negative. */
  ghost function Multiple(c: EllipticCurve, k: int, point: Point): Result<Point> {
    if k >= 0 then Times(c, k, point)
    else
      var opposite :- PointNeg(c, point);
      Times(c, -k, opposite)
  }

  /** Multiples add up. */
  lemma TimesAdd(c: EllipticCurve, j: nat, k: nat, point: Point)
    requires NeverVertical(c) && Valid(c, point)
    ensures Times(c, j, point).Ok? && Times(c, k, point).Ok?
    ensures PointAdd(c, Times(c, j, point).value, Times(c, k, point).value) == Times(c, j + k, point)
  {
    PointsAssociate(c);
    TimesIsMul(c, j, point);
    TimesIsMul(c, k, point);
    TimesIsMul(c, j + k, point);
    MulSum(Points(c), j, k, point);
    AddSucceeds(c, Times(c, j, point).value, Times(c, k, point).value);
  }

  /** And the multiples by k and -k cancel. */
  lemma MultiplesCancel(c: EllipticCurve, k: int, point: Point)
    requires NeverVertical(c) && Valid(c, point)
    ensures Multiple(c, k, point).Ok? && Multiple(c, -k, point).Ok?
    ensures PointAdd(c, Multiple(c, k, point).value, Multiple(c, -k, point).value) == Ok(Infinity)
  {
    if k >= 0 {
      OppositesCancel(c, k, point);
    } else {
      OppositesCancel(c, -k, point);
      AddCommutes(c, Multiple(c, k, point).value, Multiple(c, -k, point).value);
    }
  }

  lemma OppositesCancel(c: EllipticCurve, k: int, point: Point)
    requires NeverVertical(c) && Valid(c, point) && k >= 0
    ensures Multiple(c, k, point).Ok? && Multiple(c, -k, point).Ok?
    ensures PointAdd(c, Multiple(c, k, point).value, Multiple(c, -k, point).value) == Ok(Infinity)
  {
    var opposite := Opposed(c, point);
    PointsAssociate(c);
    NegIsInverse(c, point);
    OpposedValid(c, point);
    MulOpposite(Points(c), k, point, opposite);
    TimesIsMul(c, k, point);
    TimesIsMul(c, k, opposite);
    AddSucceeds(c, Mul(Points(c), k, point), Mul(Points(c), k, opposite));
  }

  lemma TimesReturnsToInfinity(c: EllipticCurve, k: nat, point: Point)
    requires NeverVertical(c) && Valid(c, point) && k % c.n == 0 && Times(c, c.n, point) == Ok(Infinity)
    ensures Times(c, k, point) == Ok(Infinity)
  {
    PointsAssociate(c);
    TimesIsMul(c, k, point);
    OrderKills(c, point);
    MulCongruent(Points(c), c.n, k, 0, point);
  }

  lemma OppositeKilled(c: EllipticCurve, point: Point)
    requires NeverVertical(c) && Valid(c, point) && Times(c, c.n, point) == Ok(Infinity)
    ensures Valid(c, Opposed(c, point)) && Times(c, c.n, Opposed(c, point)) == Ok(Infinity)
  {
    var opposite := Opposed(c, point);
    PointsAssociate(c);
    NegIsInverse(c, point);
    OpposedValid(c, point);
    MulOpposite(Points(c), c.n, point, opposite);
    TimesIsMul(c, c.n, point);
    TimesIsMul(c, c.n, opposite);
    assert Sum(c, Infinity, Mul(Points(c), c.n, opposite)) == Mul(Points(c), c.n, opposite);
  }

  /** The exit on k % n == 0 agrees with the k-fold sum for every k exactly at the
      points whose order divides n. */
  lemma EarlyExitExactly(c: EllipticCurve, point: Point)
    requires NeverVertical(c) && Valid(c, point)
    ensures (forall k: int {:trigger Multiple(c, k, point)} | k % c.n == 0 :: Multiple(c, k, point) == Ok(Infinity))
       <==> Times(c, c.n, point) == Ok(Infinity)
  {
    if Times(c, c.n, point) == Ok(Infinity) {
      forall k: int | k % c.n == 0 ensures Multiple(c, k, point) == Ok(Infinity) {
        EarlyExit(c, k, point);
      }
    } else {
      DividesWitness(c.n, c.n, 1);
      assert Multiple(c, c.n, point) != Ok(Infinity);
    }
  }

  lemma EarlyExit(c: EllipticCurve, k: int, point: Point)
    requires NeverVertical(c) && Valid(c, point) && k % c.n == 0 && Times(c, c.n, point) == Ok(Infinity)
    ensures Multiple(c, k, point) == Ok(Infinity)
  {
    if k >= 0 {
      TimesReturnsToInfinity(c, k, point);
    } else {
      OppositeKilled(c, point);
      OpposedValid(c, point);
      DividesProduct(c.n, k, -1);
      TimesReturnsToInfinity(c, -k, Opposed(c, point));
    }
  }

  /** Multiples of infinity. */
  lemma {:induction false} TimesInfinity(c: EllipticCurve, k: nat)
    ensures Times(c, k, Infinity) == Ok(Infinity)
  {
    if k > 0 {
      TimesInfinity(c, k - 1);
    }
  }

  /** The loop's invariant: result + rest * addend is the multiple being computed. */
  ghost predicate Accumulates(c: EllipticCurve, result: Point, rest: int, addend: Point, total: Point)
    requires NeverVertical(c)
  {
    && rest >= 0 && Associative(Points(c)) && Holds(Points(c), result, rest, addend, total)
  }

  /** One round keeps it, and neither of its additions fails. */
  lemma RoundAccumulates(c: EllipticCurve, result: Point, rest: int, addend: Point, total: Point)
    requires NeverVertical(c) && rest > 0 && Accumulates(c, result, rest, addend, total)
    ensures PointAdd(c, result, addend) == Ok(Sum(c, result, addend))
    ensures PointAdd(c, addend, addend) == Ok(Sum(c, addend, addend))
    ensures var result' := if rest % 2 == 1 then Sum(c, result, addend) else result;
            Accumulates(c, result', rest / 2, Sum(c, addend, addend), total)
  {
    AddSucceeds(c, result, addend);
    AddSucceeds(c, addend, addend);
    AbstractRound(Points(c), result, rest, addend, total);
  }

  // ---------------------------------------------------------------- unreduced points in the loop

  /** The lowest bit set in m. */
  function LowBit(m: nat): (b: nat)
    requires m > 0
    ensures b > 0
  {
    if m % 2 == 1 then 1 else 2 * LowBit(m / 2)
  }

  /** Whether unreduced coordinates leave the loop alone: it doubles the point first, and
      adds the point itself, for odd k > 1, to the multiple at the next bit of k. */
  ghost predicate Undisturbed(c: EllipticCurve, k: nat, start: Point)
    requires k > 0
  {
    || k % 2 == 0
    || k == 1
    || match Times(c, LowBit(k - 1), Reduced(c, start))
       case Ok(other) => Comparable(c, start, other)
       case Err(_) => true
  }

  /** Canonical points are never disturbed. */
  lemma CanonicalUndisturbed(c: EllipticCurve, k: nat, start: Point)
    requires NeverVertical(c) && Valid(c, start) && k > 0
    ensures Undisturbed(c, k, start) && Reduced(c, start) == start
  {
    ReducedTwice(c, start);
    PointsAssociate(c);
    if k > 1 {
      TimesIsMul(c, LowBit(k - 1), start);
      CanonicalComparable(c, start, Mul(Points(c), LowBit(k - 1), start));
    }
  }

  lemma CanonicalComparable(c: EllipticCurve, p: Point, q: Point)
    requires Canonical(c, p) && Canonical(c, q)
    ensures Comparable(c, p, q)
  {
    ReducedTwice(c, p);
    ReducedTwice(c, q);
  }

  /** The k-fold sum of the reduced point. */
  ghost function Total(c: EllipticCurve, k: nat, start: Point): Point
    requires NeverVertical(c) && IsOnCurve(c, start)
  {
    ReducedValid(c, start);
    PointsAssociate(c);
    Mul(Points(c), k, Reduced(c, start))
  }

  predicate StartsOn(c: EllipticCurve, start: Point) {
    start.Affine? && IsOnCurve(c, start)
  }

  /** Before the first round. */
  ghost predicate AtStart(k: nat, start: Point, result: Point, rest: int, addend: Point) {
    result == Infinity && addend == start && rest == k
  }

  /** After the first round of an odd k: the result is the unreduced point. */
  ghost predicate Pending(c: EllipticCurve, k: nat, start: Point, result: Point, rest: int, addend: Point, e: nat)
    requires NeverVertical(c) && StartsOn(c, start) && k > 0
  {
    && result == start && Times(c, e, Reduced(c, start)) == Ok(addend) && addend.Affine?
    && k % 2 == 1 && rest >= 0 && (rest == 0 <==> k == 1) && (rest > 0 ==> LowBit(k - 1) == e * LowBit(rest))
    && Accumulates(c, Reduced(c, start), rest, addend, Total(c, k, start))
  }

  /** All coordinates are canonical again, and the loop goes for `total`: the right one
      exactly when it was not disturbed. */
  ghost predicate Settled(c: EllipticCurve, k: nat, start: Point, result: Point, rest: int, addend: Point, total: Point)
    requires NeverVertical(c) && StartsOn(c, start) && k > 0
  {
    && Accumulates(c, result, rest, addend, total)
    && (total == Total(c, k, start) <==> Undisturbed(c, k, start))
  }

  ghost predicate Tracks(c: EllipticCurve, k: nat, start: Point, result: Point, rest: int, addend: Point)
    requires NeverVertical(c) && StartsOn(c, start) && k > 0
  {
    || AtStart(k, start, result, rest, addend)
    || (exists e: nat :: Pending(c, k, start, result, rest, addend, e))
    || (exists total :: Settled(c, k, start, result, rest, addend, total))
  }

  lemma SettledRound(c: EllipticCurve, k: nat, start: Point, result: Point, rest: int, addend: Point, total: Point)
    requires NeverVertical(c) && StartsOn(c, start) && k > 0 && rest > 0
    requires Settled(c, k, start, result, rest, addend, total)
    ensures PointAdd(c, result, addend).Ok? && PointAdd(c, addend, addend).Ok?
    ensures Settled(c, k, start, if rest % 2 == 1 then PointAdd(c, result, addend).value else result,
                    rest / 2, PointAdd(c, addend, addend).value, total)
  {
    RoundAccumulates(c, result, rest, addend, total);
  }

  /** Doubling reduces. */
  lemma StartDoubles(c: EllipticCurve, start: Point)
    requires NeverVertical(c) && StartsOn(c, start)
    ensures Valid(c, Reduced(c, start))
    ensures PointAdd(c, start, start) == PointAdd(c, Reduced(c, start), Reduced(c, start))
    ensures PointAdd(c, start, start) == Ok(Sum(c, Reduced(c, start), Reduced(c, start)))
  {
    ReducedValid(c, start);
    AddSucceeds(c, Reduced(c, start), Reduced(c, start));
    AddReduces(c, start, start);
  }

  lemma StartAccumulates(c: EllipticCurve, k: nat, start: Point)
    requires NeverVertical(c) && StartsOn(c, start) && k > 0
    ensures Accumulates(c, Infinity, k, Reduced(c, start), Total(c, k, start))
  {
    ReducedValid(c, start);
    PointsAssociate(c);
    var total := Total(c, k, start);
    assert Points(c).op(Points(c).unit, total) == total;
  }

  lemma StartRoundEven(c: EllipticCurve, k: nat, start: Point)
    requires NeverVertical(c) && StartsOn(c, start) && k > 0 && k % 2 == 0
    ensures PointAdd(c, start, start).Ok?
    ensures Settled(c, k, start, Infinity, k / 2, PointAdd(c, start, start).value, Total(c, k, start))
  {
    StartDoubles(c, start);
    StartAccumulates(c, k, start);
    RoundAccumulates(c, Infinity, k, Reduced(c, start), Total(c, k, start));
  }

  lemma StartRoundOdd(c: EllipticCurve, k: nat, start: Point)
    requires NeverVertical(c) && StartsOn(c, start) && k % 2 == 1
    ensures PointAdd(c, Infinity, start) == Ok(start) && PointAdd(c, start, start).Ok?
    ensures Pending(c, k, start, start, k / 2, PointAdd(c, start, start).value, 2)
  {
    var p := Reduced(c, start);
    StartDoubles(c, start);
    StartAccumulates(c, k, start);
    RoundAccumulates(c, Infinity, k, p, Total(c, k, start));
    assert Times(c, 1, p) == Ok(p) by { assert Times(c, 0, p) == Ok(Infinity); }
    if k > 1 {
      assert (k - 1) / 2 == k / 2;
    }
  }

  lemma TimesDoubled(c: EllipticCurve, e: nat, p: Point, q: Point)
    requires NeverVertical(c) && Valid(c, p) && Times(c, e, p) == Ok(q)
    ensures Valid(c, q) && PointAdd(c, q, q).Ok? && PointAdd(c, q, q) == Times(c, e + e, p)
  {
    PointsAssociate(c);
    TimesIsMul(c, e, p);
    TimesIsMul(c, e + e, p);
    MulSum(Points(c), e, e, p);
    assert Mul(Points(c), e + e, p) == Sum(c, q, q);
    AddSucceeds(c, q, q);
  }

  lemma DoubledAffine(c: EllipticCurve, q: Point)
    requires q.Affine?
    ensures PointAdd(c, q, q).Ok? ==> PointAdd(c, q, q).value.Affine?
  {
  }

  lemma PendingRoundEven(c: EllipticCurve, k: nat, start: Point, rest: nat, addend: Point, e: nat)
    requires NeverVertical(c) && StartsOn(c, start) && k > 0 && rest > 0 && rest % 2 == 0
    requires Pending(c, k, start, start, rest, addend, e)
    ensures PointAdd(c, addend, addend).Ok?
    ensures Pending(c, k, start, start, rest / 2, PointAdd(c, addend, addend).value, e + e)
  {
    ReducedValid(c, start);
    TimesDoubled(c, e, Reduced(c, start), addend);
    DoubledAffine(c, addend);
    RoundAccumulates(c, Reduced(c, start), rest, addend, Total(c, k, start));
    LowBitHalves(e, rest);
  }

  lemma LowBitHalves(e: nat, rest: nat)
    requires rest > 0 && rest % 2 == 0
    ensures e * LowBit(rest) == (e + e) * LowBit(rest / 2)
  {
    LowBitEven(rest);
    Redouble(e, LowBit(rest), LowBit(rest / 2));
  }

  lemma LowBitEven(rest: nat)
    requires rest > 0 && rest % 2 == 0
    ensures LowBit(rest) == 2 * LowBit(rest / 2)
  {
  }

  lemma Redouble(e: nat, a: nat, b: nat)
    requires a == 2 * b
    ensures e * a == (e + e) * b
  {
  }

  /** At the next bit of k the unreduced point is added. */
  lemma PendingMeets(c: EllipticCurve, k: nat, start: Point, rest: nat, addend: Point, e: nat)
    requires NeverVertical(c) && StartsOn(c, start) && k > 0 && rest % 2 == 1
    requires Pending(c, k, start, start, rest, addend, e)
    ensures Valid(c, addend) && (Undisturbed(c, k, start) <==> Comparable(c, start, addend))
  {
    assert LowBit(rest) == 1 && LowBit(k - 1) == e;
    assert Times(c, LowBit(k - 1), Reduced(c, start)) == Ok(addend);
  }

  lemma PendingRoundComparable(c: EllipticCurve, k: nat, start: Point, rest: nat, addend: Point, e: nat)
    requires NeverVertical(c) && StartsOn(c, start) && k > 0 && rest % 2 == 1
    requires Pending(c, k, start, start, rest, addend, e) && Comparable(c, start, addend)
    ensures PointAdd(c, start, addend).Ok? && PointAdd(c, addend, addend).Ok?
    ensures Settled(c, k, start, PointAdd(c, start, addend).value, rest / 2, PointAdd(c, addend, addend).value,
                    Total(c, k, start))
  {
    PendingMeets(c, k, start, rest, addend, e);
    ReducedTwice(c, addend);
    RoundAccumulates(c, Reduced(c, start), rest, addend, Total(c, k, start));
    AddReduces(c, start, addend);
  }

  /** Otherwise that addition raises, or loses twice the point. */
  lemma PendingRoundDisturbed(c: EllipticCurve, k: nat, start: Point, rest: nat, addend: Point, e: nat)
    returns (total: Point)
    requires NeverVertical(c) && StartsOn(c, start) && k > 0 && rest % 2 == 1
    requires Pending(c, k, start, start, rest, addend, e) && !Comparable(c, start, addend)
    ensures !Undisturbed(c, k, start) && PointAdd(c, addend, addend).Ok?
    ensures PointAdd(c, start, addend).Ok? ==>
        Settled(c, k, start, PointAdd(c, start, addend).value, rest / 2, PointAdd(c, addend, addend).value, total)
  {
    var p, s := Reduced(c, start), Points(c);
    PendingMeets(c, k, start, rest, addend, e);
    ReducedTwice(c, addend);
    IncomparableFails(c, start, addend);
    RoundAccumulates(c, p, rest, addend, Total(c, k, start));
    total := Mul(s, rest / 2, Sum(c, addend, addend));
    if PointAdd(c, start, addend).Ok? {
      assert p == addend;
      LostDouble(c, p, total);
      assert s.op(s.unit, total) == total;
    }
  }

  lemma LostDouble(c: EllipticCurve, p: Point, total: Point)
    requires NeverVertical(c) && Valid(c, p) && p.Affine? && Valid(c, total)
    ensures Sum(c, Sum(c, p, p), total) != total
  {
    AddSucceeds(c, p, p);
    var double := Sum(c, p, p);
    NegIsInverse(c, total);
    var opposite := PointNeg(c, total).value;
    SumAssociates(c, double, total, opposite);
  }

  /** One round, in every phase: it either raises, and then the loop was disturbed, or
      keeps the invariant. */
  lemma TrackRound(c: EllipticCurve, k: nat, start: Point, result: Point, rest: int, addend: Point)
    requires NeverVertical(c) && StartsOn(c, start) && k > 0 && rest > 0
    requires Tracks(c, k, start, result, rest, addend)
    ensures PointAdd(c, addend, addend).Ok?
    ensures rest % 2 == 1 && PointAdd(c, result, addend).Err? ==> !Undisturbed(c, k, start)
    ensures rest % 2 == 0 || PointAdd(c, result, addend).Ok? ==>
        Tracks(c, k, start, if rest % 2 == 1 then PointAdd(c, result, addend).value else result,
               rest / 2, PointAdd(c, addend, addend).value)
  {
    if AtStart(k, start, result, rest, addend) {
      if k % 2 == 0 {
        StartRoundEven(c, k, start);
      } else {
        StartRoundOdd(c, k, start);
      }
    } else if e: nat :| Pending(c, k, start, result, rest, addend, e) {
      if rest % 2 == 0 {
        PendingRoundEven(c, k, start, rest, addend, e);
      } else if Comparable(c, start, addend) {
        PendingRoundComparable(c, k, start, rest, addend, e);
      } else {
        var total := PendingRoundDisturbed(c, k, start, rest, addend, e);
      }
    } else {
      var total :| Settled(c, k, start, result, rest, addend, total);
      SettledRound(c, k, start, result, rest, addend, total);
    }
  }

  /** What the loop ends with. */
  lemma TrackEnds(c: EllipticCurve, k: nat, start: Point, result: Point, addend: Point)
    requires NeverVertical(c) && StartsOn(c, start) && k > 0
    requires Tracks(c, k, start, result, 0, addend)
    ensures IsOnCurve(c, result) && (Canonical(c, start) || k != 1 ==> Canonical(c, result))
    ensures Reduced(c, result) == Total(c, k, start) <==> Undisturbed(c, k, start)
  {
    var s := Points(c);
    ReducedValid(c, start);
    PointsAssociate(c);
    if e: nat :| Pending(c, k, start, result, 0, addend, e) {
      MulOne(s, Reduced(c, start));
    } else {
      var total :| Settled(c, k, start, result, 0, addend, total);
      assert s.op(result, s.unit) == result;
      ReducedTwice(c, result);
    }
  }

  // ---------------------------------------------------------------- scalar_mult itself

  lemma ReducedOpposite(c: EllipticCurve, point: Point)
    requires IsOnCurve(c, point)
    ensures PointNeg(c, point).Ok? && IsOnCurve(c, PointNeg(c, point).value)
    ensures Canonical(c, point) ==> Canonical(c, PointNeg(c, point).value)
    ensures PointNeg(c, Reduced(c, point)) == Ok(Reduced(c, PointNeg(c, point).value))
  {
    NegClosed(c, point);
    ReducedValid(c, point);
    NegClosed(c, Reduced(c, point));
    if point.Affine? {
      CongruentMod(point.y, c.p);
      CongruentSym(point.y, point.y % c.p, c.p);
      CongruentSum(0, 0, point.y, point.y % c.p, c.p) by { DividesWitness(c.p, 0, 0); }
      CongruentIffSameMod(0 - point.y, 0 - point.y % c.p, c.p);
      SmallMod(-point.y % c.p, c.p);
    }
  }

  /** The point the loop starts from. */
  function StartOf(c: EllipticCurve, k: int, point: Point): Point
    requires IsOnCurve(c, point)
  {
    NegClosed(c, point);
    if k < 0 then PointNeg(c, point).value else point
  }

  /** The k-fold sum, but infinity for the multiples of n. */
  ghost function Multiplied(c: EllipticCurve, k: int, point: Point): Result<Point> {
    if k % c.n == 0 then Ok(Infinity) else Multiple(c, k, point)
  }

  /** For scalars in range that exception makes no difference. */
  lemma MultipliedInRange(c: EllipticCurve, k: int, point: Point)
    requires 0 <= k < c.n
    ensures Multiplied(c, k, point) == Multiple(c, k, point)
  {
    SmallMod(k, c.n);
  }

  /** Whether `scalar_mult` is indifferent to unreduced coordinates. */
  ghost predicate Indifferent(c: EllipticCurve, k: int, point: Point)
    requires IsOnCurve(c, point)
  {
    k % c.n == 0 || point.Infinity? || Undisturbed(c, Abs(k), StartOf(c, k, point))
  }

  lemma CanonicalIndifferent(c: EllipticCurve, k: int, point: Point)
    requires NeverVertical(c) && Valid(c, point)
    ensures Indifferent(c, k, point) && Reduced(c, point) == point
  {
    NegClosed(c, point);
    ReducedTwice(c, point);
    SmallMod(0, c.n);
    if k != 0 {
      CanonicalUndisturbed(c, Abs(k), StartOf(c, k, point));
    }
  }

  /** What is claimed of the result r. */
  ghost predicate Delivers(c: EllipticCurve, k: int, point: Point, r: Result<Point>)
    requires IsOnCurve(c, point)
  {
    && (Canonical(c, point) ==> r.Ok? && Valid(c, r.value) && r == Multiplied(c, k, point))
    && (ReducedResult(c, r) == Multiplied(c, k, Reduced(c, point)) <==> Indifferent(c, k, point))
    && (r.Ok? && Abs(k) != 1 ==> Canonical(c, r.value))
  }

  lemma ExitDelivers(c: EllipticCurve, k: int, point: Point)
    requires IsOnCurve(c, point) && (k % c.n == 0 || point.Infinity?)
    ensures Delivers(c, k, point, Ok(Infinity))
  {
    TimesInfinity(c, Abs(k));
  }

  lemma NonzeroScalar(n: int, k: int)
    requires n > 0 && k % n != 0
    ensures k != 0
  {
    SmallMod(0, n);
  }

  lemma NegateMultiple(n: int, k: int)
    requires n > 0
    ensures k % n == 0 <==> -k % n == 0
  {
    if k % n == 0 {
      DividesProduct(n, k, -1);
    }
    if -k % n == 0 {
      DividesProduct(n, -k, -1);
    }
  }

  lemma NegativeMultiplied(c: EllipticCurve, k: int, point: Point, opposite: Point)
    requires k < 0 && PointNeg(c, point) == Ok(opposite)
    ensures Multiplied(c, k, point) == Multiplied(c, -k, opposite)
  {
    NegateMultiple(c.n, k);
  }

  lemma NegativeIndifferent(c: EllipticCurve, k: int, point: Point, opposite: Point)
    requires IsOnCurve(c, point) && k < 0 && PointNeg(c, point) == Ok(opposite) && IsOnCurve(c, opposite)
    ensures Indifferent(c, k, point) <==> Indifferent(c, -k, opposite)
  {
    NegateMultiple(c.n, k);
  }

  /** The sign case carries the claim over. */
  lemma NegativeDelivers(c: EllipticCurve, k: int, point: Point, opposite: Point, r: Result<Point>)
    requires IsOnCurve(c, point) && k < 0 && PointNeg(c, point) == Ok(opposite) && IsOnCurve(c, opposite)
    requires Delivers(c, -k, opposite, r)
    ensures Delivers(c, k, point, r)
  {
    ReducedOpposite(c, point);
    NegativeMultiplied(c, k, point, opposite);
    NegativeMultiplied(c, k, Reduced(c, point), Reduced(c, opposite));
    NegativeIndifferent(c, k, point, opposite);
  }

  /** The loop's end meets the claim, and so does an addition that raises. */
  lemma LoopDelivers(c: EllipticCurve, k: nat, point: Point, result: Point, addend: Point)
    requires NeverVertical(c) && StartsOn(c, point) && k % c.n != 0 && k > 0
    requires Tracks(c, k, point, result, 0, addend)
    ensures IsOnCurve(c, result) && Delivers(c, k, point, Ok(result))
  {
    TrackEnds(c, k, point, result, addend);
    ReducedValid(c, point);
    PointsAssociate(c);
    TimesIsMul(c, k, Reduced(c, point));
    if Canonical(c, point) {
      CanonicalIndifferent(c, k, point);
      ReducedTwice(c, result);
    }
  }

  lemma RaiseDelivers(c: EllipticCurve, k: nat, point: Point, error: Error)
    requires NeverVertical(c) && StartsOn(c, point) && k % c.n != 0 && k > 0 && !Undisturbed(c, k, point)
    ensures Delivers(c, k, point, Err(error))
  {
    ReducedValid(c, point);
    PointsAssociate(c);
    TimesIsMul(c, k, Reduced(c, point));
    if Canonical(c, point) {
      CanonicalUndisturbed(c, k, point);
    }
  }

  /** `scalar_mult`: for every integer k the early exit, the sign case and the
      double-and-add loop compute the k-fold sum, the exit's infinity excepted, and
      raise nothing. On points with unreduced coordinates they do so modulo p exactly
      when no addition of the loop takes congruent points apart. */
  method ScalarMult(c: EllipticCurve, k: int, point: Point) returns (r: Result<Point>)
    ensures !IsOnCurve(c, point) ==> r == Err(AssertionFailed)
    ensures IsOnCurve(c, point) && k % c.n == 0 ==> r == Ok(Infinity)
    ensures NeverVertical(c) && Valid(c, point) && k % c.n != 0 ==> r.Ok? && r == Multiple(c, k, point)
    ensures NeverVertical(c) && IsOnCurve(c, point) ==> Delivers(c, k, point, r)
    decreases k < 0
  {
    if !IsOnCurve(c, point) {
      return Err(AssertionFailed);
    }
    ghost var lawful := NeverVertical(c);
    if k % c.n == 0 || point.Infinity? {
      ExitDelivers(c, k, point);
      return Ok(Infinity);
    }
    NonzeroScalar(c.n, k);
    if k < 0 {
      if lawful {
        ReducedOpposite(c, point);
      }
      var opposite :- PointNeg(c, point);
      r := ScalarMult(c, -k, opposite);
      if lawful {
        NegativeDelivers(c, k, point, opposite, r);
      }
      return;
    }
    var result, addend, rest := Infinity, point, k;
    while rest != 0
      invariant 0 <= rest
      invariant lawful ==> Tracks(c, k, point, result, rest, addend)
    {
      if lawful {
        TrackRound(c, k, point, result, rest, addend);
      }
      if rest % 2 == 1 {
        if lawful && PointAdd(c, result, addend).Err? {
          RaiseDelivers(c, k, point, PointAdd(c, result, addend).error);
        }
        result :- PointAdd(c, result, addend);
      }
      addend :- PointAdd(c, addend, addend);
      rest := rest / 2;
    }
    if lawful {
      LoopDelivers(c, k, point, result, addend);
    }
    if !IsOnCurve(c, result) {
      return Err(AssertionFailed);
    }
    return Ok(result);
  }
}
