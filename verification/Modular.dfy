/** Arithmetic modulo p: congruences, primes, and the extended Euclidean
    algorithm of `inverse_mod`. */
module Modular {
  import opened Wrappers

  // ---------------------------------------------------------------- divisibility

  predicate Divides(d: int, a: int)
    requires d != 0
  {
    a % d == 0
  }

  ghost predicate Congruent(a: int, b: int, p: int)
    requires p != 0
  {
    Divides(p, a - b)
  }

  lemma MultipleMod(q: int, p: int)
    requires p > 0
    ensures (q * p) % p == 0
  {
    DivModUnique(q * p, p, q, 0);
  }

  function Quotient(a: int, p: int): (q: int)
    requires p > 0
    ensures a == p * q + a % p
  {
    a / p
  }

  /** Quotient and remainder are determined by the division identity. */
  lemma DivModUnique(a: int, p: int, q: int, r: int)
    requires p > 0 && a == q * p + r && 0 <= r < p
    ensures a % p == r && a / p == q
  {
    var k := a / p - q;
    assert k * p == (a / p) * p - q * p;
    assert k * p == r - a % p;
    if k != 0 {
      MulAtLeast(k, p);
    }
  }

  lemma MulAtLeast(k: int, p: int)
    requires k != 0 && p > 0
    ensures k * p >= p || k * p <= -p
  {
  }

  lemma DividesWitness(p: int, a: int, q: int)
    requires p > 0 && a == q * p
    ensures Divides(p, a)
  {
    MultipleMod(q, p);
  }

  lemma DividesSum(p: int, a: int, b: int)
    requires p > 0 && Divides(p, a) && Divides(p, b)
    ensures Divides(p, a + b) && Divides(p, a - b)
  {
    var x, y := a / p, b / p;
    assert a == x * p && b == y * p;
    assert (x + y) * p == a + b && (x - y) * p == a - b;
    DividesWitness(p, a + b, x + y);
    DividesWitness(p, a - b, x - y);
  }

  lemma DividesProduct(p: int, a: int, k: int)
    requires p > 0 && Divides(p, a)
    ensures Divides(p, a * k) && Divides(p, k * a)
  {
    var x := a / p;
    assert a == x * p;
    assert (x * k) * p == a * k && (k * x) * p == k * a;
    DividesWitness(p, a * k, x * k);
    DividesWitness(p, k * a, k * x);
  }

  /** A combination u*a + v*b of multiples is a multiple. */
  lemma DividesCombination(p: int, a: int, b: int, u: int, v: int)
    requires p > 0 && Divides(p, a) && Divides(p, b)
    ensures Divides(p, u * a + v * b)
  {
    DividesProduct(p, a, u);
    DividesProduct(p, b, v);
    DividesSum(p, u * a, v * b);
  }

  lemma CongruentMod(a: int, p: int)
    requires p > 0
    ensures Congruent(a, a % p, p) && Congruent(a % p, a, p)
  {
    DividesWitness(p, a - a % p, a / p);
    assert (-(a / p)) * p == -((a / p) * p);
    DividesWitness(p, a % p - a, -(a / p));
  }

  /** Congruent integers have the same remainder, and conversely. */
  lemma CongruentIffSameMod(a: int, b: int, p: int)
    requires p > 0
    ensures Congruent(a, b, p) <==> a % p == b % p
  {
    var x, y := a / p, b / p;
    assert a == x * p + a % p && b == y * p + b % p;
    if a % p == b % p {
      assert (x - y) * p == a - b;
      DividesWitness(p, a - b, x - y);
    }
    if Congruent(a, b, p) {
      var z := (a - b) / p;
      assert a - b == z * p;
      assert (z + y) * p == z * p + y * p;
      DivModUnique(a, p, z + y, b % p);
    }
  }

  lemma SmallMod(a: int, p: int)
    requires 0 <= a < p
    ensures a % p == a
  {
    DivModUnique(a, p, 0, a);
  }

  lemma CongruentTrans(a: int, b: int, c: int, p: int)
    requires p > 0 && Congruent(a, b, p) && Congruent(b, c, p)
    ensures Congruent(a, c, p)
  {
    DividesSum(p, a - b, b - c);
  }

  lemma CongruentSym(a: int, b: int, p: int)
    requires p > 0 && Congruent(a, b, p)
    ensures Congruent(b, a, p)
  {
    DividesProduct(p, a - b, -1);
  }

  lemma CongruentSum(a: int, b: int, x: int, y: int, p: int)
    requires p > 0 && Congruent(a, b, p) && Congruent(x, y, p)
    ensures Congruent(a + x, b + y, p) && Congruent(a - x, b - y, p)
  {
    DividesSum(p, a - b, x - y);
    assert (a - b) + (x - y) == (a + x) - (b + y);
    assert (a - b) - (x - y) == (a - x) - (b - y);
  }

  lemma CongruentProduct(a: int, b: int, x: int, y: int, p: int)
    requires p > 0 && Congruent(a, b, p) && Congruent(x, y, p)
    ensures Congruent(a * x, b * y, p)
  {
    DividesCombination(p, a - b, x - y, x, b);
    assert x * (a - b) + b * (x - y) == a * x - b * y;
  }

  // ---------------------------------------------------------------- Euclid

  /** The greatest common divisor by Euclid's recursion. */
  function Gcd(a: nat, b: nat): (g: nat)
    decreases b
  {
    if b == 0 then a else Gcd(b, a % b)
  }

  lemma {:induction false} GcdDivides(a: nat, b: nat)
    requires a > 0 || b > 0
    ensures Gcd(a, b) > 0 && Divides(Gcd(a, b), a) && Divides(Gcd(a, b), b)
    decreases b
  {
    if b == 0 {
      DividesWitness(a, a, 1);
      DividesWitness(a, 0, 0);
    } else {
      GcdDivides(b, a % b);
      var g := Gcd(b, a % b);
      DividesCombination(g, b, a % b, a / b, 1);
      assert (a / b) * b + 1 * (a % b) == a;
    }
  }

  /** Bezout: some combination of a and b equals their gcd. */
  lemma {:induction false} Bezout(a: nat, b: nat) returns (s: int, t: int)
    ensures a * s + b * t == Gcd(a, b)
    decreases b
  {
    if b == 0 {
      s, t := 1, 0;
    } else {
      var u, v := Bezout(b, a % b);
      s, t := v, u - (a / b) * v;
      calc {
        a * s + b * t;
        a * v + b * u - b * ((a / b) * v);
        { assert b * ((a / b) * v) == (b * (a / b)) * v; }
        a * v + b * u - (b * (a / b)) * v;
        b * u + (a - b * (a / b)) * v;
        { assert a - b * (a / b) == a % b; }
        b * u + (a % b) * v;
      }
    }
  }

  ghost predicate IsPrime(p: int) {
    p >= 2 && forall d :: 2 <= d < p ==> !Divides(d, p)
  }

  /** A prime is coprime to everything it does not divide. */
  lemma PrimeCoprime(k: nat, p: int)
    requires IsPrime(p) && !Divides(p, k)
    ensures Gcd(k, p) == 1
  {
    GcdDivides(k, p);
    var g := Gcd(k, p);
    if g > p {
      SmallMod(p, g);
    }
  }

  // ---------------------------------------------------------------- inverses

  /** x is the canonical inverse of k modulo p. */
  predicate IsInverse(k: int, x: int, p: int)
    requires p > 1
  {
    0 < x < p && (k * x) % p == 1
  }

  lemma InverseUnique(k: int, x: int, y: int, p: int)
    requires p > 1 && IsInverse(k, x, p) && IsInverse(k, y, p)
    ensures x == y
  {
    SmallMod(1, p);
    CongruentIffSameMod(k * x, 1, p);
    CongruentIffSameMod(k * y, 1, p);
    // x == x*(k*y) == y*(k*x) == y modulo p
    DividesCombination(p, k * y - 1, k * x - 1, -x, y);
    assert (-x) * (k * y - 1) + y * (k * x - 1) == x - y;
    CongruentIffSameMod(x, y, p);
    SmallMod(x, p);
    SmallMod(y, p);
  }

  lemma InverseFromBezout(k: int, s: int, t: int, p: int)
    requires p > 1 && k * s + p * t == 1
    ensures IsInverse(k, s % p, p) && (k * s) % p == 1
  {
    assert k * s == (-t) * p + 1;
    DivModUnique(k * s, p, -t, 1);
    CongruentMod(s, p);
    CongruentProduct(k, k, s, s % p, p);
    CongruentIffSameMod(k * s, k * (s % p), p);
    SmallMod(0, p);
    assert k * 0 == 0;
  }

  /** A common divisor above 1 leaves no room for an inverse. */
  lemma InverseCoprime(k: int, x: int, p: int, g: int)
    requires p > 1 && IsInverse(k, x, p)
    requires g > 0 && Divides(g, k) && Divides(g, p)
    ensures g == 1
  {
    var q := (k * x) / p;
    assert k * x == q * p + 1;
    DividesCombination(g, k, p, x, -q);
    assert x * k + (-q) * p == 1;
    if g > 1 {
      SmallMod(1, g);
    }
  }

  predicate HasInverse(k: int, p: int)
    requires p > 1
  {
    exists x | 0 < x < p :: IsInverse(k, x, p)
  }

  /** An inverse exists exactly when k and p are coprime. */
  lemma InverseExistsIff(k: nat, p: int)
    requires p > 1
    ensures HasInverse(k, p) <==> Gcd(k, p) == 1
  {
    if Gcd(k, p) == 1 {
      var s, t := Bezout(k, p);
      InverseFromBezout(k, s, t, p);
    } else if HasInverse(k, p) {
      var x :| 0 < x < p && IsInverse(k, x, p);
      GcdDivides(k, p);
      InverseCoprime(k, x, p, Gcd(k, p));
    }
  }

  /** x inverts k exactly when p - x inverts -k. */
  lemma InverseNeg(k: int, x: int, p: int)
    requires p > 1 && IsInverse(k, x, p)
    ensures IsInverse(-k, p - x, p)
  {
    var q := (k * x) / p;
    assert k * x == q * p + 1;
    assert (-k) * (p - x) == (q - k) * p + 1;
    DivModUnique((-k) * (p - x), p, q - k, 1);
  }

  lemma AtMostOneInverse(k: int, p: int)
    requires p > 1
    ensures forall x, y | IsInverse(k, x, p) && IsInverse(k, y, p) :: x == y
  {
    forall x, y | IsInverse(k, x, p) && IsInverse(k, y, p)
      ensures x == y
    {
      InverseUnique(k, x, y, p);
    }
  }

  function TheInverse(k: int, p: int): (x: int)
    requires p > 1 && HasInverse(k, p)
    ensures IsInverse(k, x, p)
  {
    AtMostOneInverse(k, p);
    var x :| 0 < x < p && IsInverse(k, x, p);
    x
  }

  /** What `inverse_mod` returns or raises, with no algorithm: the inverse when
      there is one, else the failing check of the original. */
  function InverseOf(k: int, p: int): (r: Result<int>)
    requires p > 1
  {
    if k == 0 then Err(ZeroDivision)
    else if HasInverse(k, p) then Ok(TheInverse(k, p))
    else Err(AssertionFailed)
  }

  function Abs(k: int): nat {
    if k < 0 then -k else k
  }

  /** Negating k turns the inverse x into p - x and keeps the failures. */
  lemma InverseOfNeg(k: int, p: int)
    requires p > 1 && k != 0
    ensures InverseOf(-k, p).Ok? <==> InverseOf(k, p).Ok?
    ensures InverseOf(k, p).Ok? ==> InverseOf(-k, p) == Ok(p - InverseOf(k, p).value)
    ensures InverseOf(k, p).Err? ==> InverseOf(-k, p) == InverseOf(k, p)
  {
    if HasInverse(k, p) {
      InverseNeg(k, TheInverse(k, p), p);
      InverseUnique(-k, p - TheInverse(k, p), TheInverse(-k, p), p);
    } else if HasInverse(-k, p) {
      InverseNeg(-k, TheInverse(-k, p), p);
    }
  }

  /** For every modulus above 1 and every k, of either sign: a value comes back
      exactly when k is coprime to p, and it is the only inverse in (0, p). */
  lemma InverseOfExact(k: int, p: int)
    requires p > 1
    ensures InverseOf(k, p).Ok? <==> Gcd(Abs(k), p) == 1
    ensures InverseOf(k, p) == Err(ZeroDivision) <==> k == 0
    ensures forall x :: InverseOf(k, p) == Ok(x) <==> IsInverse(k, x, p)
  {
    InverseExistsIff(Abs(k), p);
    if k < 0 {
      InverseOfNeg(k, p);
    } else if k == 0 {
      assert forall x :: !IsInverse(0, x, p) by {
        SmallMod(0, p);
      }
      assert Gcd(0, p) == Gcd(p, 0) by { SmallMod(0, p); }
    }
    forall x
      ensures InverseOf(k, p) == Ok(x) <==> IsInverse(k, x, p)
    {
      if IsInverse(k, x, p) {
        InverseUnique(k, x, TheInverse(k, p), p);
      }
    }
  }

  /** What is inverted only matters modulo p, but for the error at its multiples. */
  lemma InverseOfResidue(k: int, p: int)
    requires p > 1 && k % p != 0
    ensures InverseOf(k, p) == InverseOf(k % p, p)
  {
    forall x ensures IsInverse(k, x, p) <==> IsInverse(k % p, x, p) {
      CongruentMod(k, p);
      DividesProduct(p, k - k % p, x);
      assert (k - k % p) * x == k * x - (k % p) * x;
      CongruentIffSameMod(k * x, (k % p) * x, p);
    }
    SmallMod(0, p);
    AtMostOneInverse(k, p);
  }

  /** Modulo a prime, everything that is not a multiple of it can be inverted. */
  lemma PrimeInverse(k: int, p: int)
    requires IsPrime(p)
    ensures InverseOf(k, p).Ok? <==> !Divides(p, k)
  {
    InverseOfExact(k, p);
    if Divides(p, k) {
      DividesProduct(p, k, -1);
      DividesWitness(p, p, 1);
      if InverseOf(k, p).Ok? {
        InverseCoprime(k, TheInverse(k, p), p, p);
      }
    } else {
      if Divides(p, Abs(k)) {
        DividesProduct(p, Abs(k), -1);
      }
      PrimeCoprime(Abs(k), p);
    }
  }

  /** Euclid's lemma. */
  lemma PrimeDividesProduct(p: int, a: int, b: int)
    requires IsPrime(p) && Divides(p, a * b)
    ensures Divides(p, a) || Divides(p, b)
  {
    PrimeInverse(a, p);
    if !Divides(p, a) {
      Cancel(a, TheInverse(a, p), b, p);
    }
  }

  /** An invertible factor can be cancelled from a multiple of p. */
  lemma Cancel(k: int, w: int, z: int, p: int)
    requires p > 1 && IsInverse(k, w, p) && Divides(p, k * z)
    ensures Divides(p, z)
  {
    SmallMod(1, p);
    CongruentIffSameMod(k * w, 1, p);
    DividesCombination(p, k * z, k * w - 1, w, -z);
    assert w * (k * z) + (-z) * (k * w - 1) == z;
  }

  /** One round of the extended Euclidean loop keeps both identities and the gcd. */
  lemma EuclidStep(k: nat, p: nat, r0: nat, s0: int, t0: int, r1: nat, s1: int, t1: int)
    requires r1 > 0 && k * s0 + p * t0 == r0 && k * s1 + p * t1 == r1
    ensures var q := r0 / r1;
            && 0 <= r0 - q * r1 < r1
            && k * (s0 - q * s1) + p * (t0 - q * t1) == r0 - q * r1
            && Gcd(r1, r0 - q * r1) == Gcd(r0, r1)
  {
    var q := r0 / r1;
    assert r0 - q * r1 == r0 % r1;
    assert k * (q * s1) == q * (k * s1);
    assert p * (q * t1) == q * (p * t1);
  }

  lemma EuclidDone(k: nat, p: int, g: nat, s: int, t: int)
    requires p > 1 && k > 0 && k * s + p * t == g == Gcd(k, p)
    ensures g != 1 ==> InverseOf(k, p) == Err(AssertionFailed)
    ensures g == 1 ==> (k * s) % p == 1 && InverseOf(k, p) == Ok(s % p)
  {
    InverseOfExact(k, p);
    if g == 1 {
      InverseFromBezout(k, s, t, p);
    }
  }

  /** `inverse_mod`: the loop keeps both Bezout identities and the gcd. */
  method InverseMod(k: int, p: int) returns (result: Result<int>)
    requires p > 1
    ensures result == InverseOf(k, p)
    decreases k < 0
  {
    if k == 0 {
      return Err(ZeroDivision);
    }
    if k < 0 {
      InverseOfNeg(k, p);
      var x :- InverseMod(-k, p);
      return Ok(p - x);
    }
    var s, oldS := 0, 1;
    var t, oldT := 1, 0;
    var r: int, oldR: int := p, k;
    while r != 0
      invariant 0 <= r && 0 <= oldR
      invariant k * oldS + p * oldT == oldR
      invariant k * s + p * t == r
      invariant Gcd(oldR, r) == Gcd(k, p)
      decreases r
    {
      EuclidStep(k, p, oldR, oldS, oldT, r, s, t);
      var quotient := oldR / r;
      oldR, r := r, oldR - quotient * r;
      oldS, s := s, oldS - quotient * s;
      oldT, t := t, oldT - quotient * t;
    }
    EuclidDone(k, p, oldR, oldS, oldT);
    if oldR != 1 {
      return Err(AssertionFailed);
    }
    if (k * oldS) % p != 1 {
      return Err(AssertionFailed);
    }
    return Ok(oldS % p);
  }
}
