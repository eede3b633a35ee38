/** The ideals of the coordinate ring that belong to lists of points. */
module Ideals {
  import opened Modular
  import opened Curve
  import opened CoordinateRing
  import opened Norms

  function XAt(point: Point): Term
    requires point.Affine?
  {
    Plus(X, Const(-point.x))
  }

  function YAt(point: Point): Term
    requires point.Affine?
  {
    Plus(Y, Const(-point.y))
  }

  function Combine(point: Point, v: Term, w: Term): Term
    requires point.Affine?
  {
    Plus(Times(XAt(point), v), Times(YAt(point), w))
  }

  lemma CombineVal(point: Point, v: Term, w: Term, x: int, y: int)
    requires point.Affine?
    ensures Val(Combine(point, v, w), x, y) == (x - point.x) * Val(v, x, y) + (y - point.y) * Val(w, x, y)
  {
    ValTimesSum(XAt(point), v, YAt(point), w, x, y);
  }

  /** u lies in the product of the maximal ideals (p, x - xP, y - yP) of the points P of
      the list; infinity contributes the whole ring. */
  ghost predicate In(c: EllipticCurve, points: seq<Point>, u: Term)
    decreases |points|
  {
    if points == [] then true
    else if points[0].Infinity? then In(c, points[1..], u)
    else exists v, w :: Splits(c, points, u, v, w)
  }

  ghost predicate Splits(c: EllipticCurve, points: seq<Point>, u: Term, v: Term, w: Term)
    requires points != [] && points[0].Affine?
    decreases |points|, 0
  {
    In(c, points[1..], v) && In(c, points[1..], w) && Eq(c, u, Combine(points[0], v, w))
  }

  lemma InBy(c: EllipticCurve, points: seq<Point>, u: Term, v: Term, w: Term)
    requires points != [] && points[0].Affine? && Splits(c, points, u, v, w)
    ensures In(c, points, u)
  {
  }

  lemma SplitOf(c: EllipticCurve, points: seq<Point>, u: Term) returns (v: Term, w: Term)
    requires points != [] && points[0].Affine? && In(c, points, u)
    ensures Splits(c, points, u, v, w)
  {
    v, w :| Splits(c, points, u, v, w);
  }

  // ---------------------------------------------------------------- they are ideals

  lemma {:induction false} InEq(c: EllipticCurve, points: seq<Point>, u: Term, u': Term)
    requires In(c, points, u) && Eq(c, u', u)
    ensures In(c, points, u')
    decreases |points|
  {
    if points == [] {
    } else if points[0].Infinity? {
      InEq(c, points[1..], u, u');
    } else {
      var v, w := SplitOf(c, points, u);
      EqTrans(c, u', u, Combine(points[0], v, w));
      InBy(c, points, u', v, w);
    }
  }

  lemma CombinePlus(c: EllipticCurve, point: Point, u: Term, v: Term, w: Term, u': Term, v': Term, w': Term)
    requires point.Affine? && Eq(c, u, Combine(point, v, w)) && Eq(c, u', Combine(point, v', w'))
    ensures Eq(c, Plus(u, u'), Combine(point, Plus(v, v'), Plus(w, w')))
  {
    var m, n := Plus(Combine(point, v, w), Combine(point, v', w')), Combine(point, Plus(v, v'), Plus(w, w'));
    EqPlus(c, u, Combine(point, v, w), u', Combine(point, v', w'));
    forall x, y ensures Val(m, x, y) == Val(n, x, y) {
      CombineVal(point, v, w, x, y);
      CombineVal(point, v', w', x, y);
      CombineVal(point, Plus(v, v'), Plus(w, w'), x, y);
      SumOfTwo(x - point.x, y - point.y, Val(v, x, y), Val(w, x, y), Val(v', x, y), Val(w', x, y));
    }
    EqSame(c, m, n);
    EqTrans(c, Plus(u, u'), m, n);
  }

  lemma SumOfTwo(a: int, b: int, v: int, w: int, v': int, w': int)
    ensures a * (v + v') + b * (w + w') == (a * v + b * w) + (a * v' + b * w')
  {
  }

  lemma {:induction false} InPlus(c: EllipticCurve, points: seq<Point>, u: Term, u': Term)
    requires In(c, points, u) && In(c, points, u')
    ensures In(c, points, Plus(u, u'))
    decreases |points|
  {
    if points == [] {
    } else if points[0].Infinity? {
      InPlus(c, points[1..], u, u');
    } else {
      var v, w := SplitOf(c, points, u);
      var v', w' := SplitOf(c, points, u');
      InPlus(c, points[1..], v, v');
      InPlus(c, points[1..], w, w');
      CombinePlus(c, points[0], u, v, w, u', v', w');
      InBy(c, points, Plus(u, u'), Plus(v, v'), Plus(w, w'));
    }
  }

  lemma CombineTimes(c: EllipticCurve, point: Point, u: Term, v: Term, w: Term, k: Term)
    requires point.Affine? && Eq(c, u, Combine(point, v, w))
    ensures Eq(c, Times(u, k), Combine(point, Times(v, k), Times(w, k)))
  {
    var m, n := Times(Combine(point, v, w), k), Combine(point, Times(v, k), Times(w, k));
    EqRefl(c, k);
    EqTimes(c, u, Combine(point, v, w), k, k);
    forall x, y ensures Val(m, x, y) == Val(n, x, y) {
      CombineVal(point, v, w, x, y);
      CombineVal(point, Times(v, k), Times(w, k), x, y);
      MultipleOfTwo(x - point.x, y - point.y, Val(v, x, y), Val(w, x, y), Val(k, x, y));
    }
    EqSame(c, m, n);
    EqTrans(c, Times(u, k), m, n);
  }

  lemma MultipleOfTwo(a: int, b: int, v: int, w: int, k: int)
    ensures a * (v * k) + b * (w * k) == (a * v + b * w) * k
  {
  }

  /** Products: the ideal of a concatenation contains the products; in particular each
      ideal absorbs multiples. */
  lemma {:induction false} InTimes(c: EllipticCurve, left: seq<Point>, right: seq<Point>, u: Term, k: Term)
    requires In(c, left, u) && In(c, right, k)
    ensures In(c, left + right, Times(u, k))
    decreases |left|
  {
    var points := left + right;
    if left == [] {
      assert points == right;
      InMultiple(c, right, k, u);
    } else if left[0].Infinity? {
      InTimes(c, left[1..], right, u, k);
      assert points[1..] == left[1..] + right;
    } else {
      var v, w := SplitOf(c, left, u);
      InTimes(c, left[1..], right, v, k);
      InTimes(c, left[1..], right, w, k);
      assert points[1..] == left[1..] + right;
      CombineTimes(c, left[0], u, v, w, k);
      InBy(c, points, Times(u, k), Times(v, k), Times(w, k));
    }
  }

  lemma Commute(c: EllipticCurve, u: Term, k: Term)
    ensures Eq(c, Times(u, k), Times(k, u))
  {
    forall x, y ensures Val(Times(u, k), x, y) == Val(Times(k, u), x, y) {
      assert Val(u, x, y) * Val(k, x, y) == Val(k, x, y) * Val(u, x, y);
    }
    EqSame(c, Times(u, k), Times(k, u));
  }

  lemma {:induction false} InMultiple(c: EllipticCurve, points: seq<Point>, u: Term, k: Term)
    requires In(c, points, u)
    ensures In(c, points, Times(k, u)) && In(c, points, Times(u, k))
    decreases |points|
  {
    Commute(c, k, u);
    if points == [] {
    } else if points[0].Infinity? {
      InMultiple(c, points[1..], u, k);
    } else {
      var v, w := SplitOf(c, points, u);
      InMultiple(c, points[1..], v, k);
      InMultiple(c, points[1..], w, k);
      CombineTimes(c, points[0], u, v, w, k);
      InBy(c, points, Times(u, k), Times(v, k), Times(w, k));
      InEq(c, points, Times(u, k), Times(k, u));
    }
  }

  // ---------------------------------------------------------------- order does not matter

  lemma CombineSwap(c: EllipticCurve, p: Point, q: Point, u: Term, v: Term, w: Term, v1: Term, v2: Term, w1: Term,
      w2: Term)
    requires p.Affine? && q.Affine?
    requires Eq(c, u, Combine(p, v, w)) && Eq(c, v, Combine(q, v1, v2)) && Eq(c, w, Combine(q, w1, w2))
    ensures Eq(c, u, Combine(q, Combine(p, v1, w1), Combine(p, v2, w2)))
  {
    var m, n := Combine(p, Combine(q, v1, v2), Combine(q, w1, w2)), Combine(q, Combine(p, v1, w1), Combine(p, v2, w2));
    EqScale(c, XAt(p), v, Combine(q, v1, v2));
    EqScale(c, YAt(p), w, Combine(q, w1, w2));
    EqPlus(c, Times(XAt(p), v), Times(XAt(p), Combine(q, v1, v2)), Times(YAt(p), w), Times(YAt(p), Combine(q, w1, w2)));
    EqTrans(c, u, Combine(p, v, w), m);
    forall x, y ensures Val(m, x, y) == Val(n, x, y) {
      CombineTwiceVal(p, q, v1, v2, w1, w2, x, y);
      CombineTwiceVal(q, p, v1, w1, v2, w2, x, y);
      SwapIdentity(x - p.x, y - p.y, x - q.x, y - q.y, Val(v1, x, y), Val(v2, x, y), Val(w1, x, y), Val(w2, x, y));
    }
    EqSame(c, m, n);
    EqTrans(c, u, m, n);
  }

  lemma CombineTwiceVal(p: Point, q: Point, v1: Term, v2: Term, w1: Term, w2: Term, x: int, y: int)
    requires p.Affine? && q.Affine?
    ensures Val(Combine(p, Combine(q, v1, v2), Combine(q, w1, w2)), x, y)
         == (x - p.x) * ((x - q.x) * Val(v1, x, y) + (y - q.y) * Val(v2, x, y))
          + (y - p.y) * ((x - q.x) * Val(w1, x, y) + (y - q.y) * Val(w2, x, y))
  {
    CombineVal(p, Combine(q, v1, v2), Combine(q, w1, w2), x, y);
    CombineVal(q, v1, v2, x, y);
    CombineVal(q, w1, w2, x, y);
  }

  lemma SwapIdentity(a: int, b: int, d: int, e: int, v1: int, v2: int, w1: int, w2: int)
    ensures a * (d * v1 + e * v2) + b * (d * w1 + e * w2) == d * (a * v1 + b * w1) + e * (a * v2 + b * w2)
  {
  }

  lemma InSwap(c: EllipticCurve, p: Point, q: Point, rest: seq<Point>, u: Term)
    requires In(c, [p, q] + rest, u)
    ensures In(c, [q, p] + rest, u)
  {
    var from, to := [p, q] + rest, [q, p] + rest;
    assert from[1..] == [q] + rest && to[1..] == [p] + rest && from[1..][1..] == rest == to[1..][1..];
    if p.Affine? && q.Affine? {
      var v, w := SplitOf(c, from, u);
      var v1, v2 := SplitOf(c, [q] + rest, v);
      var w1, w2 := SplitOf(c, [q] + rest, w);
      CombineSwap(c, p, q, u, v, w, v1, v2, w1, w2);
      CombineIn(c, p, rest, v1, w1);
      CombineIn(c, p, rest, v2, w2);
      InBy(c, to, u, Combine(p, v1, w1), Combine(p, v2, w2));
    } else if p.Affine? {
      var v, w := SplitOf(c, from, u);
      InBy(c, [p] + rest, u, v, w);
    } else if q.Affine? {
      var v, w := SplitOf(c, [q] + rest, u);
      InBy(c, to, u, v, w);
    }
  }

  lemma CombineIn(c: EllipticCurve, p: Point, rest: seq<Point>, v: Term, w: Term)
    requires p.Affine? && In(c, rest, v) && In(c, rest, w)
    ensures In(c, [p] + rest, Combine(p, v, w))
  {
    assert ([p] + rest)[1..] == rest;
    EqRefl(c, Combine(p, v, w));
    InBy(c, [p] + rest, Combine(p, v, w), v, w);
  }

  /** Inclusions carry over to a longer list. */
  lemma InUnder(c: EllipticCurve, p: Point, from: seq<Point>, to: seq<Point>, u: Term)
    requires In(c, [p] + from, u)
    requires forall e :: In(c, from, e) ==> In(c, to, e)
    ensures In(c, [p] + to, u)
  {
    assert ([p] + from)[1..] == from && ([p] + to)[1..] == to;
    if p.Affine? {
      var v, w := SplitOf(c, [p] + from, u);
      InBy(c, [p] + to, u, v, w);
    }
  }

  lemma {:induction false} InMove(c: EllipticCurve, p: Point, before: seq<Point>, after: seq<Point>, u: Term)
    requires In(c, [p] + before + after, u)
    ensures In(c, before + [p] + after, u)
    decreases |before|
  {
    if before == [] {
      assert [p] + before + after == before + [p] + after;
    } else {
      var q, rest := before[0], before[1..];
      assert [p] + before + after == [p, q] + (rest + after);
      InSwap(c, p, q, rest + after, u);
      assert [q, p] + (rest + after) == [q] + ([p] + rest + after);
      forall e | In(c, [p] + rest + after, e) ensures In(c, rest + [p] + after, e) {
        InMove(c, p, rest, after, e);
      }
      InUnder(c, q, [p] + rest + after, rest + [p] + after, u);
      assert before + [p] + after == [q] + (rest + [p] + after);
    }
  }

  lemma SameWithout<T>(p: T, rest: seq<T>, before: seq<T>, after: seq<T>)
    requires multiset([p] + rest) == multiset(before + [p] + after)
    ensures multiset(rest) == multiset(before + after)
  {
    assert multiset(rest) == multiset([p] + rest) - multiset{p};
    assert multiset(before + [p] + after) == multiset(before + after) + multiset{p};
  }

  lemma {:induction false} InPermuted(c: EllipticCurve, from: seq<Point>, to: seq<Point>, u: Term)
    requires multiset(from) == multiset(to) && In(c, from, u)
    ensures In(c, to, u)
    decreases |from|
  {
    if from == [] {
      assert |to| == |multiset(to)|;
    } else {
      var p, rest := from[0], from[1..];
      assert from == [p] + rest;
      assert p in multiset(to);
      var i :| 0 <= i < |to| && to[i] == p;
      var before, after := to[..i], to[i + 1..];
      assert to == before + [p] + after;
      SameWithout(p, rest, before, after);
      forall e | In(c, rest, e) ensures In(c, before + after, e) {
        InPermuted(c, rest, before + after, e);
      }
      InUnder(c, p, rest, before + after, u);
      assert [p] + (before + after) == [p] + before + after;
      InMove(c, p, before, after, u);
    }
  }

  // ---------------------------------------------------------------- principal ideals

  ghost predicate Multiple(c: EllipticCurve, u: Term, g: Term) {
    exists k :: Eq(c, u, Times(g, k))
  }

  /** How many points of the list are not infinity. */
  function Finite(points: seq<Point>): (n: nat) {
    |points| - multiset(points)[Infinity]
  }

  /** g generates the ideal of the list, and its norm has the degree that this demands. */
  ghost predicate Generates(c: EllipticCurve, points: seq<Point>, g: Term) {
    && In(c, points, g)
    && (forall u {:trigger In(c, points, u)} :: In(c, points, u) ==> Multiple(c, u, g))
    && HasDegree(c, Norm(g), Finite(points))
  }

  lemma CombineFactor(c: EllipticCurve, point: Point, u: Term, v: Term, w: Term, h: Term, v': Term, w': Term)
    requires point.Affine? && Eq(c, u, Combine(point, v, w))
    requires Eq(c, v, Times(h, v')) && Eq(c, w, Times(h, w'))
    ensures Eq(c, u, Times(h, Combine(point, v', w')))
  {
    var m, n := Combine(point, Times(h, v'), Times(h, w')), Times(h, Combine(point, v', w'));
    EqScale(c, XAt(point), v, Times(h, v'));
    EqScale(c, YAt(point), w, Times(h, w'));
    EqPlus(c, Times(XAt(point), v), Times(XAt(point), Times(h, v')), Times(YAt(point), w),
        Times(YAt(point), Times(h, w')));
    EqTrans(c, u, Combine(point, v, w), m);
    forall x, y ensures Val(m, x, y) == Val(n, x, y) {
      CombineVal(point, v', w', x, y);
      CombineVal(point, Times(h, v'), Times(h, w'), x, y);
      FactorIdentity(x - point.x, y - point.y, Val(v', x, y), Val(w', x, y), Val(h, x, y));
    }
    EqSame(c, m, n);
    EqTrans(c, u, m, n);
  }

  lemma FactorIdentity(a: int, b: int, v: int, w: int, h: int)
    ensures a * (h * v) + b * (h * w) == h * (a * v + b * w)
  {
  }

  /** When all of `right` is multiples of h, an element of the product is h times an element of `left`. */
  lemma {:induction false} FactorOut(c: EllipticCurve, left: seq<Point>, right: seq<Point>, h: Term,
      u: Term) returns (k: Term)
    requires In(c, left + right, u)
    requires forall e {:trigger In(c, right, e)} :: In(c, right, e) ==> Multiple(c, e, h)
    ensures In(c, left, k) && Eq(c, u, Times(h, k))
    decreases |left|
  {
    var points := left + right;
    if left == [] {
      assert points == right;
      assert In(c, right, u);
      k :| Eq(c, u, Times(h, k));
    } else {
      assert points[1..] == left[1..] + right;
      if left[0].Infinity? {
        k := FactorOut(c, left[1..], right, h, u);
      } else {
        var v, w := SplitOf(c, points, u);
        var v' := FactorOut(c, left[1..], right, h, v);
        var w' := FactorOut(c, left[1..], right, h, w);
        k := Combine(left[0], v', w');
        CombineFactor(c, left[0], u, v, w, h, v', w');
        assert left == [left[0]] + left[1..];
        CombineIn(c, left[0], left[1..], v', w');
      }
    }
  }

  /** Generators multiply. */
  lemma GeneratesConcat(c: EllipticCurve, left: seq<Point>, right: seq<Point>, g: Term, h: Term)
    requires IsPrime(c.p) && Generates(c, left, g) && Generates(c, right, h)
    ensures Generates(c, left + right, Times(g, h))
  {
    InTimes(c, left, right, g, h);
    forall u | In(c, left + right, u) ensures Multiple(c, u, Times(g, h)) {
      var k := FactorOut(c, left, right, h, u);
      assert Multiple(c, k, g);
      var l :| Eq(c, k, Times(g, l));
      MultipleOfBoth(c, u, g, h, k, l);
    }
    NormDegreeTimes(c, g, h, Finite(left), Finite(right));
    assert Finite(left + right) == Finite(left) + Finite(right);
  }

  lemma MultipleOfBoth(c: EllipticCurve, u: Term, g: Term, h: Term, k: Term, l: Term)
    requires Eq(c, u, Times(h, k)) && Eq(c, k, Times(g, l))
    ensures Multiple(c, u, Times(g, h))
  {
    var m, n := Times(h, Times(g, l)), Times(Times(g, h), l);
    EqScale(c, h, k, Times(g, l));
    EqTrans(c, u, Times(h, k), m);
    forall x, y ensures Val(m, x, y) == Val(n, x, y) {
      Regroup(Val(g, x, y), Val(h, x, y), Val(l, x, y));
    }
    EqSame(c, m, n);
    EqTrans(c, u, m, n);
  }

  lemma GeneratesPermuted(c: EllipticCurve, from: seq<Point>, to: seq<Point>, g: Term)
    requires Generates(c, from, g) && multiset(from) == multiset(to)
    ensures Generates(c, to, g)
  {
    InPermuted(c, from, to, g);
    forall u | In(c, to, u) ensures Multiple(c, u, g) {
      InPermuted(c, to, from, u);
    }
    assert |from| == |multiset(from)| == |multiset(to)| == |to|;
  }
}
