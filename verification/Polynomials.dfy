/** Integer polynomials in one variable, by their coefficients and by their values. */
module Polynomials {
  import opened Modular

  /** Coefficients, constant term first. */
  type Poly = seq<int>

  function Eval(s: Poly, t: int): int {
    if |s| == 0 then 0 else s[0] + t * Eval(s[1..], t)
  }

  function Sum(a: Poly, b: Poly): (s: Poly)
    ensures |s| == if |a| < |b| then |b| else |a|
    ensures forall i {:trigger s[i]} | 0 <= i < |s| ::
              s[i] == (if i < |a| then a[i] else 0) + (if i < |b| then b[i] else 0)
  {
    if |a| == 0 then b
    else if |b| == 0 then a
    else [a[0] + b[0]] + Sum(a[1..], b[1..])
  }

  function Scale(k: int, a: Poly): (s: Poly)
    ensures |s| == |a| && forall i | 0 <= i < |a| :: s[i] == k * a[i]
  {
    if |a| == 0 then [] else [k * a[0]] + Scale(k, a[1..])
  }

  function Product(a: Poly, b: Poly): Poly {
    if |a| == 0 then [] else Sum(Scale(a[0], b), [0] + Product(a[1..], b))
  }

  // ---------------------------------------------------------------- values

  lemma {:induction false} EvalSum(a: Poly, b: Poly, t: int)
    ensures Eval(Sum(a, b), t) == Eval(a, t) + Eval(b, t)
  {
    if |a| > 0 && |b| > 0 {
      EvalSum(a[1..], b[1..], t);
      assert Sum(a, b)[1..] == Sum(a[1..], b[1..]);
      assert t * (Eval(a[1..], t) + Eval(b[1..], t)) == t * Eval(a[1..], t) + t * Eval(b[1..], t);
    }
  }

  lemma {:induction false} EvalScale(k: int, a: Poly, t: int)
    ensures Eval(Scale(k, a), t) == k * Eval(a, t)
  {
    if |a| > 0 {
      EvalScale(k, a[1..], t);
      assert Scale(k, a)[1..] == Scale(k, a[1..]);
      assert k * (a[0] + t * Eval(a[1..], t)) == k * a[0] + t * (k * Eval(a[1..], t));
    }
  }

  lemma EvalShift(a: Poly, t: int)
    ensures Eval([0] + a, t) == t * Eval(a, t)
  {
    assert ([0] + a)[1..] == a;
  }

  lemma {:induction false} EvalProduct(a: Poly, b: Poly, t: int)
    ensures Eval(Product(a, b), t) == Eval(a, t) * Eval(b, t)
  {
    if |a| > 0 {
      var rest := Product(a[1..], b);
      EvalProduct(a[1..], b, t);
      EvalScale(a[0], b, t);
      EvalShift(rest, t);
      EvalSum(Scale(a[0], b), [0] + rest, t);
      Horner(a[0], Eval(a[1..], t), Eval(b, t), t, Eval(rest, t));
    }
  }

  lemma Horner(k: int, u: int, v: int, t: int, uv: int)
    requires uv == u * v
    ensures k * v + t * uv == (k + t * u) * v
  {
    assert t * (u * v) == (t * u) * v;
  }

  // ---------------------------------------------------------------- coefficients

  function Last(s: Poly): int
    requires |s| > 0
  {
    s[|s| - 1]
  }

  /** Of degree exactly d modulo p: d + 1 coefficients, the last one not 0. */
  predicate Leads(p: int, s: Poly)
    requires p != 0
  {
    |s| > 0 && !Divides(p, Last(s))
  }

  /** The longer summand leads. */
  lemma LastOfSum(s: Poly, r: Poly)
    requires 0 < |s| <= |r|
    ensures |Sum(s, [0] + r)| == |r| + 1 && Last(Sum(s, [0] + r)) == Last(r)
  {
  }

  lemma LastOfConstant(k: int, b: Poly)
    requires |b| > 0
    ensures |Sum(Scale(k, b), [0])| == |b| && Last(Sum(Scale(k, b), [0])) == k * Last(b)
  {
  }

  /** Degrees add, and leading coefficients multiply. */
  lemma {:induction false} ProductLast(a: Poly, b: Poly)
    requires |a| > 0 && |b| > 0
    ensures |Product(a, b)| == |a| + |b| - 1 && Last(Product(a, b)) == Last(a) * Last(b)
  {
    if |a| == 1 {
      assert [0] + Product(a[1..], b) == [0];
      LastOfConstant(a[0], b);
    } else {
      ProductLast(a[1..], b);
      assert Last(a[1..]) == Last(a);
      LastOfSum(Scale(a[0], b), Product(a[1..], b));
    }
  }

  lemma ProductLeads(p: int, a: Poly, b: Poly)
    requires IsPrime(p) && Leads(p, a) && Leads(p, b)
    ensures |Product(a, b)| == |a| + |b| - 1 && Leads(p, Product(a, b))
  {
    ProductLast(a, b);
    UnitsMultiply(p, Last(a), Last(b));
  }

  lemma UnitsMultiply(p: int, a: int, b: int)
    requires IsPrime(p) && !Divides(p, a) && !Divides(p, b)
    ensures !Divides(p, a * b)
  {
    if Divides(p, a * b) {
      PrimeDividesProduct(p, a, b);
    }
  }

  /** Dropping the leading multiples of p: nothing is left, or a unit leads. */
  lemma {:induction false} Trim(p: int, a: Poly) returns (s: Poly, q: Poly)
    requires p > 1
    ensures s == [] || Leads(p, s)
    ensures forall t :: Eval(a, t) == Eval(s, t) + p * Eval(q, t)
  {
    if |a| == 0 {
      return [], [];
    }
    var u, w := Trim(p, a[1..]);
    if u == [] && Divides(p, a[0]) {
      s, q := [], [a[0] / p] + w;
      assert q[1..] == w;
    } else {
      s, q := [a[0]] + u, [0] + w;
      assert s[1..] == u && q[1..] == w;
    }
    forall t ensures Eval(a, t) == Eval(s, t) + p * Eval(q, t) {
      TrimStep(p, Eval(a[1..], t), Eval(u, t), Eval(w, t), t);
      assert p * (a[0] / p + t * Eval(w, t)) == p * (a[0] / p) + p * (t * Eval(w, t));
    }
  }

  lemma TrimStep(p: int, a: int, u: int, w: int, t: int)
    requires a == u + p * w
    ensures t * a == t * u + p * (t * w)
  {
    assert t * (p * w) == p * (t * w);
  }

  // ---------------------------------------------------------------- values determine coefficients

  /** A polynomial that vanishes at all positive integers has only zero coefficients. */
  lemma {:induction false} VanishingIsZero(s: Poly)
    requires forall t | t >= 1 :: Eval(s, t) == 0
    ensures forall i | 0 <= i < |s| :: s[i] == 0
  {
    if |s| > 0 {
      var t0 := Abs(s[0]) + 1;
      assert Eval(s, t0) == 0;
      SmallMultiple(s[0], Eval(s[1..], t0), t0);
      forall t | t >= 1 ensures Eval(s[1..], t) == 0 {
        assert Eval(s, t) == 0;
        SmallMultiple(0, Eval(s[1..], t), t);
      }
      VanishingIsZero(s[1..]);
      forall i | 0 <= i < |s| ensures s[i] == 0 {
        if i > 0 {
          assert s[i] == s[1..][i - 1];
        }
      }
    }
  }

  lemma SmallMultiple(c: int, k: int, t: int)
    requires t >= 1 && c + t * k == 0 && -t < c < t
    ensures c == 0 && k == 0
  {
    if k != 0 {
      MulAtLeast(k, t);
    }
  }
}
