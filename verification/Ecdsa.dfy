/** ECDSA signing and verification over a curve whose base point has prime order. */
module Ecdsa {
  import opened Wrappers
  import opened Modular
  import opened Curve
  import opened Multiples
  import opened Group

  type Signature = (int, int)

  // ---------------------------------------------------------------- arithmetic modulo the order

  /** Nonce and signature half play symmetric roles: s = e/k exactly when k = e/s. */
  lemma NonceSignatureDuality(n: int, e: int, k: int, k': int, s: int, s': int)
    requires n > 1 && IsInverse(k, k', n) && IsInverse(s, s', n)
    requires 0 < k < n && 0 < s < n
    ensures (e * k') % n == s <==> (e * s') % n == k
  {
    if (e * k') % n == s {
      DualityOneWay(n, e, k, k', s, s');
    }
    if (e * s') % n == k {
      DualityOneWay(n, e, s, s', k, k');
    }
  }

  lemma DualityOneWay(n: int, e: int, k: int, k': int, s: int, s': int)
    requires n > 1 && IsInverse(k, k', n) && IsInverse(s, s', n)
    requires 0 < k < n && (e * k') % n == s
    ensures (e * s') % n == k
  {
    SmallMod(1, n);
    CongruentIffSameMod(k * k', 1, n);
    CongruentIffSameMod(s * s', 1, n);
    CongruentMod(e * k', n);
    // e*s' - k == -(k*k' - 1)*e*s' + (e*k' - s)*k*s' + (s*s' - 1)*k
    DividesCombination(n, k * k' - 1, e * k' - s, -(e * s'), k * s');
    DividesProduct(n, s * s' - 1, k);
    var u := (-(e * s')) * (k * k' - 1) + (k * s') * (e * k' - s);
    DividesSum(n, u, k * (s * s' - 1));
    DualityIdentity(e, k, k', s, s');
    CongruentIffSameMod(e * s', k, n);
    SmallMod(k, n);
  }

  lemma DualityIdentity(e: int, k: int, k': int, s: int, s': int)
    ensures (-(e * s')) * (k * k' - 1) + (k * s') * (e * k' - s) + k * (s * s' - 1) == e * s' - k
  {
    assert (e * s') * (k * k') == (k * s') * (e * k');
    assert (k * s') * s == k * (s * s');
  }

  lemma ReducedSum(n: int, a: int, b: int, d: int)
    requires n > 1
    ensures Congruent(a % n + (b % n) * d, a + b * d, n)
  {
    CongruentMod(a, n);
    CongruentMod(b, n);
    DividesCombination(n, a % n - a, b % n - b, 1, d);
    assert d * (b % n - b) == (b % n) * d - b * d;
  }

  /** The multipliers of verification add up to (z + r*d)*w. */
  lemma MultipliersAddUp(n: int, z: int, r: int, d: int, w: int)
    requires n > 1
    ensures ((z * w) % n + ((r * w) % n) * d) % n == ((z + r * d) * w) % n
  {
    ReducedSum(n, z * w, r * w, d);
    assert z * w + (r * w) * d == (z + r * d) * w;
    CongruentIffSameMod((z * w) % n + ((r * w) % n) * d, (z + r * d) * w, n);
  }

  // ---------------------------------------------------------------- signing

  /** One pass of the signing loop with nonce k. */
  ghost function SignAttempt(c: EllipticCurve, d: int, z: int, k: int): Result<Signature> {
    var point :- Multiple(c, k, Affine(c.gx, c.gy));
    if point.Infinity? then Err(UnpackInfinity)
    else
      var inverse :- InverseOf(k, c.n);
      var r := point.x % c.n;
      Ok((r, ((z + r * d) * inverse) % c.n))
  }

  /** A nonce in range never raises. */
  lemma SignAttemptSucceeds(c: EllipticCurve, d: int, z: int, k: int)
    requires PrimeOrder(c) && 0 < k < c.n
    ensures Multiple(c, k, Affine(c.gx, c.gy)).Ok? && Multiple(c, k, Affine(c.gx, c.gy)).value.Affine?
    ensures InverseOf(k, c.n).Ok?
    ensures SignAttempt(c, d, z, k).Ok?
  {
    PointsAssociate(c);
    TimesIsMul(c, k, Affine(c.gx, c.gy));
    BaseMultiple(c, k);
    SmallMod(k, c.n);
    PrimeInverse(k, c.n);
  }

  /** The first `count` draws all sign to a pair with a zero half. */
  ghost predicate Refused(c: EllipticCurve, d: int, z: int, draws: seq<int>, count: nat)
    requires count <= |draws|
  {
    forall j | 0 <= j < count ::
      && SignAttempt(c, d, z, draws[j]).Ok?
      && var (r, s) := SignAttempt(c, d, z, draws[j]).value; r == 0 || s == 0
  }

  /** `sign_message` on the hash z, drawing its nonces from `draws`: the first
      acceptable attempt, or none while every draw has been refused. */
  method SignMessage(c: EllipticCurve, privateKey: int, z: int, draws: seq<int>)
    returns (sig: Result<Option<Signature>>, drawn: nat)
    requires PrimeOrder(c) && forall i | 0 <= i < |draws| :: 0 < draws[i] < c.n
    ensures sig.Ok? && drawn <= |draws|
    ensures sig.value.None? ==> drawn == |draws| && Refused(c, privateKey, z, draws, drawn)
    ensures sig.value.Some? ==>
        && drawn > 0 && Refused(c, privateKey, z, draws, drawn - 1)
        && SignAttempt(c, privateKey, z, draws[drawn - 1]) == Ok(sig.value.value)
        && sig.value.value.0 != 0 && sig.value.value.1 != 0
  {
    var r, s := 0, 0;
    drawn := 0;
    while r == 0 || s == 0
      invariant drawn <= |draws|
      invariant drawn == 0 ==> r == 0
      invariant drawn > 0 ==> Refused(c, privateKey, z, draws, drawn - 1)
      invariant drawn > 0 ==> SignAttempt(c, privateKey, z, draws[drawn - 1]) == Ok((r, s))
      decreases |draws| - drawn
    {
      assert Refused(c, privateKey, z, draws, drawn);
      if drawn == |draws| {
        return Ok(None), drawn;
      }
      r, s := SignOnce(c, privateKey, z, draws[drawn]);
      drawn := drawn + 1;
    }
    return Ok(Some((r, s))), drawn;
  }

  /** The loop's body. */
  method SignOnce(c: EllipticCurve, privateKey: int, z: int, k: int) returns (r: int, s: int)
    requires PrimeOrder(c) && 0 < k < c.n
    ensures SignAttempt(c, privateKey, z, k) == Ok((r, s))
  {
    SignAttemptSucceeds(c, privateKey, z, k);
    MultipliedInRange(c, k, Affine(c.gx, c.gy));
    var point := ScalarMult(c, k, Affine(c.gx, c.gy));
    var inverse := InverseMod(k, c.n);
    r := point.value.x % c.n;
    s := ((z + r * privateKey) * inverse.value) % c.n;
  }

  // ---------------------------------------------------------------- verification

  /** `verify_signature` over k-fold sums. */
  ghost function Verification(c: EllipticCurve, publicKey: Point, z: int, sig: Signature): Result<bool> {
    var w :- InverseOf(sig.1, c.n);
    var first :- Multiple(c, (z * w) % c.n, Affine(c.gx, c.gy));
    var second :- Multiple(c, (sig.0 * w) % c.n, publicKey);
    Compared(c, first, second, sig.0)
  }

  /** The last lines: the abscissa of the sum against r. */
  function Compared(c: EllipticCurve, first: Point, second: Point, r: int): Result<bool> {
    var point :- PointAdd(c, first, second);
    if point.Infinity? then Err(UnpackInfinity)
    else Ok(r % c.n == point.x % c.n)
  }

  /** Whether the key's product comes out reduced, as it does for canonical keys. */
  ghost predicate KeyReduces(c: EllipticCurve, publicKey: Point, sig: Signature) {
    IsOnCurve(c, publicKey)
    && (InverseOf(sig.1, c.n).Ok? ==> ProductIsReduced(c, (sig.0 * InverseOf(sig.1, c.n).value) % c.n, publicKey))
  }

  ghost predicate ProductIsReduced(c: EllipticCurve, u: int, publicKey: Point)
    requires IsOnCurve(c, publicKey)
  {
    Canonical(c, publicKey) || (u != 1 && Indifferent(c, u, publicKey))
  }

  lemma CanonicalKeyReduces(c: EllipticCurve, publicKey: Point, sig: Signature)
    requires Valid(c, publicKey)
    ensures KeyReduces(c, publicKey, sig) && Reduced(c, publicKey) == publicKey
  {
    ReducedTwice(c, publicKey);
  }

  lemma ProductReduces(c: EllipticCurve, u: int, publicKey: Point, product: Result<Point>)
    requires NeverVertical(c) && 0 <= u < c.n && IsOnCurve(c, publicKey) && Delivers(c, u, publicKey, product)
    requires ProductIsReduced(c, u, publicKey)
    ensures product == Multiple(c, u, Reduced(c, publicKey))
  {
    MultipliedInRange(c, u, Reduced(c, publicKey));
    ReducedTwice(c, publicKey);
    if product.Ok? && Canonical(c, product.value) {
      ReducedTwice(c, product.value);
    }
  }

  /** `scalar_mult` with a reduced scalar. */
  method Product(c: EllipticCurve, u: int, point: Point, ghost lawful: bool, ghost reduced: Point)
    returns (r: Result<Point>)
    requires lawful ==> NeverVertical(c) && 0 <= u < c.n && IsOnCurve(c, point) && ProductIsReduced(c, u, point)
    requires lawful ==> reduced == Reduced(c, point)
    ensures !IsOnCurve(c, point) ==> r.Err?
    ensures lawful ==> r == Multiple(c, u, reduced)
  {
    r := ScalarMult(c, u, point);
    if lawful {
      ProductReduces(c, u, point, r);
    }
  }

  /** `verify_signature` computes the verification with the key's coordinates reduced. */
  method VerifySignature(c: EllipticCurve, publicKey: Point, z: int, sig: Signature) returns (accepted: Result<bool>)
    ensures !IsOnCurve(c, publicKey) ==> accepted.Err?
    ensures PrimeOrder(c) && Valid(c, publicKey) ==> accepted == Verification(c, publicKey, z, sig)
    ensures PrimeOrder(c) && KeyReduces(c, publicKey, sig)
        ==> accepted == Verification(c, Reduced(c, publicKey), z, sig)
  {
    ReducedTwice(c, Affine(c.gx, c.gy));
    if Valid(c, publicKey) {
      CanonicalKeyReduces(c, publicKey, sig);
    }
    ghost var lawful := PrimeOrder(c) && KeyReduces(c, publicKey, sig);
    var w :- InverseMod(sig.1, c.n);
    var first :- Product(c, (z * w) % c.n, Affine(c.gx, c.gy), lawful, Affine(c.gx, c.gy));
    var second :- Product(c, (sig.0 * w) % c.n, publicKey, lawful, Reduced(c, publicKey));
    return Compared(c, first, second, sig.0);
  }

  /** The point verification arrives at is one multiple of the base point. */
  lemma VerificationAdds(c: EllipticCurve, d: nat, publicKey: Point, u1: nat, u2: nat, m: nat)
    requires PrimeOrder(c) && Multiple(c, d, Affine(c.gx, c.gy)) == Ok(publicKey) && m == u1 + u2 * d
    ensures Multiple(c, u1, Affine(c.gx, c.gy)).Ok? && Multiple(c, u2, publicKey).Ok?
    ensures Multiple(c, m, Affine(c.gx, c.gy)).Ok?
    ensures PointAdd(c, Multiple(c, u1, Affine(c.gx, c.gy)).value, Multiple(c, u2, publicKey).value)
         == Multiple(c, m, Affine(c.gx, c.gy))
  {
    var g, group := Affine(c.gx, c.gy), Points(c);
    PointsAssociate(c);
    TimesIsMul(c, d, g);
    TimesIsMul(c, u1, g);
    TimesIsMul(c, u2, publicKey);
    TimesIsMul(c, m, g);
    Combination(group, u1, u2, d, m, g);
    AddSucceeds(c, Mul(group, u1, g), Mul(group, u2, publicKey));
  }

  /** Multiples of the base point only depend on the multiplier modulo the order. */
  lemma BaseMultiplesAgree(c: EllipticCurve, m: nat, k: nat)
    requires PrimeOrder(c) && m % c.n == k % c.n
    ensures Multiple(c, m, Affine(c.gx, c.gy)) == Multiple(c, k, Affine(c.gx, c.gy))
  {
    PointsAssociate(c);
    TimesIsMul(c, m, Affine(c.gx, c.gy));
    TimesIsMul(c, k, Affine(c.gx, c.gy));
    OrderKills(c, Affine(c.gx, c.gy));
    MulCongruent(Points(c), c.n, m, k, Affine(c.gx, c.gy));
  }

  lemma VerificationPoint(c: EllipticCurve, d: nat, publicKey: Point, z: int, r: int, s: int, k: nat)
    requires PrimeOrder(c) && Multiple(c, d, Affine(c.gx, c.gy)) == Ok(publicKey)
    requires InverseOf(s, c.n).Ok? && k == ((z + r * d) * InverseOf(s, c.n).value) % c.n
    ensures Multiple(c, k, Affine(c.gx, c.gy)).Ok?
    ensures var point := Multiple(c, k, Affine(c.gx, c.gy)).value;
            Verification(c, publicKey, z, (r, s))
            == if point.Infinity? then Err(UnpackInfinity) else Ok(r % c.n == point.x % c.n)
  {
    var w := InverseOf(s, c.n).value;
    MultipliersAddUp(c.n, z, r, d, w);
    SmallMod(k, c.n);
    var u1, u2 := (z * w) % c.n, (r * w) % c.n;
    VerificationAdds(c, d, publicKey, u1, u2, u1 + u2 * d);
    BaseMultiplesAgree(c, u1 + u2 * d, k);
  }

  /** Nonzero multipliers below the order never reach infinity. */
  lemma BaseMultiple(c: EllipticCurve, k: nat)
    requires PrimeOrder(c) && k < c.n
    ensures Multiple(c, k, Affine(c.gx, c.gy)) == Ok(Infinity) <==> k == 0
  {
    PointsAssociate(c);
    TimesIsMul(c, k, Affine(c.gx, c.gy));
    OrderKills(c, Affine(c.gx, c.gy));
    SmallMod(k, c.n);
    MulUnitExactly(Points(c), c.n, k, Affine(c.gx, c.gy));
  }

  /** Verification reduces both halves modulo the order before it uses them. */
  lemma VerificationReduces(c: EllipticCurve, publicKey: Point, z: int, r: int, s: int)
    requires s % c.n != 0
    ensures Verification(c, publicKey, z, (r, s)) == Verification(c, publicKey, z, (r % c.n, s % c.n))
  {
    InverseOfResidue(s, c.n);
    var inverse := InverseOf(s, c.n);
    if inverse.Ok? {
      CongruentMod(r, c.n);
      DividesProduct(c.n, r % c.n - r, inverse.value);
      assert (r % c.n - r) * inverse.value == (r % c.n) * inverse.value - r * inverse.value;
      CongruentIffSameMod((r % c.n) * inverse.value, r * inverse.value, c.n);
    }
    SmallMod(r % c.n, c.n);
  }

  /** The nonces that sign to a reduced pair. */
  ghost predicate Signable(c: EllipticCurve, d: nat, z: int, r: int, s: int) {
    exists k | 0 < k < c.n :: SignAttempt(c, d, z, k) == Ok((r, s))
  }

  lemma VerifiesReduced(c: EllipticCurve, d: nat, publicKey: Point, z: int, r: int, s: int)
    requires PrimeOrder(c) && Multiple(c, d, Affine(c.gx, c.gy)) == Ok(publicKey)
    requires 0 <= r < c.n && 0 < s < c.n
    ensures Verification(c, publicKey, z, (r, s)) == Ok(true) <==> Signable(c, d, z, r, s)
    ensures Verification(c, publicKey, z, (r, s)).Err? <==> (z + r * d) % c.n == 0
    ensures Verification(c, publicKey, z, (r, s)).Err? ==> Verification(c, publicKey, z, (r, s)) == Err(UnpackInfinity)
  {
    SmallMod(s, c.n);
    SmallMod(r, c.n);
    PrimeInverse(s, c.n);
    var w := InverseOf(s, c.n).value;
    var k := ((z + r * d) * w) % c.n;
    VerificationPoint(c, d, publicKey, z, r, s, k);
    BaseMultiple(c, k);
    VanishesExactly(c.n, z + r * d, s, w);
    if k != 0 {
      SignsWith(c, d, z, r, s, k);
    }
    forall j | 0 < j < c.n && SignAttempt(c, d, z, j) == Ok((r, s))
      ensures j == k
    {
      SignedNonce(c, d, z, r, s, j);
    }
  }

  /** Completeness and soundness of verification against signing, for every key, every
      hash (zero modulo the order included) and all integers r and s: it accepts
      exactly the pairs whose residues some nonce signs to. */
  lemma VerifiesExactlySigned(c: EllipticCurve, d: nat, publicKey: Point, z: int, r: int, s: int)
    requires PrimeOrder(c) && Multiple(c, d, Affine(c.gx, c.gy)) == Ok(publicKey)
    ensures Verification(c, publicKey, z, (r, s)) == Ok(true)
       <==> s % c.n != 0 && Signable(c, d, z, r % c.n, s % c.n)
  {
    if s % c.n == 0 {
      PrimeInverse(s, c.n);
    } else {
      VerificationReduces(c, publicKey, z, r, s);
      VerifiesReduced(c, d, publicKey, z, r % c.n, s % c.n);
    }
  }

  /** What verification raises, for all integers: the failures of inverting s, and
      otherwise that of unpacking infinity when z + r*d vanishes modulo the order. */
  lemma VerificationRaisesExactly(c: EllipticCurve, d: nat, publicKey: Point, z: int, r: int, s: int)
    requires PrimeOrder(c) && Multiple(c, d, Affine(c.gx, c.gy)) == Ok(publicKey)
    ensures var v := Verification(c, publicKey, z, (r, s));
            && (v == Err(ZeroDivision) <==> s == 0)
            && (v == Err(AssertionFailed) <==> s != 0 && s % c.n == 0)
            && (v == Err(UnpackInfinity) <==> s % c.n != 0 && (z + r * d) % c.n == 0)
            && v != Err(BadValue)
  {
    if s % c.n == 0 {
      PrimeInverse(s, c.n);
    } else {
      SmallMod(0, c.n);
      VerificationReduces(c, publicKey, z, r, s);
      VerifiesReduced(c, d, publicKey, z, r % c.n, s % c.n);
      ResidueSum(c.n, z, r, d);
    }
  }

  lemma ResidueSum(n: int, z: int, r: int, d: int)
    requires n > 1
    ensures (z + (r % n) * d) % n == (z + r * d) % n
  {
    CongruentMod(r, n);
    CongruentTerm(n, z, r % n, r, d);
  }

  lemma CongruentTerm(n: int, z: int, u: int, r: int, d: int)
    requires n > 1 && Congruent(u, r, n)
    ensures (z + u * d) % n == (z + r * d) % n
  {
    DividesProduct(n, u - r, d);
    ShiftedTerms(n, z, u * d, r * d, (u - r) * d);
  }

  lemma ShiftedTerms(n: int, z: int, a: int, b: int, e: int)
    requires n > 1 && Divides(n, e) && e == a - b
    ensures (z + a) % n == (z + b) % n
  {
    CongruentIffSameMod(z + a, z + b, n);
  }

  /** What the signing loop can return for some nonce. */
  ghost predicate Produced(c: EllipticCurve, d: nat, z: int, r: int, s: int) {
    Signable(c, d, z, r, s) && r != 0 && s != 0
  }

  lemma AttemptInRange(c: EllipticCurve, d: nat, z: int, r: int, s: int)
    requires PrimeOrder(c) && Signable(c, d, z, r, s)
    ensures 0 <= r < c.n && 0 <= s < c.n
  {
  }

  /** The range check that the original lacks: an accepted pair is one that signing can
      produce exactly when both halves lie in [1, n - 1]. */
  lemma AcceptedIsProducedExactly(c: EllipticCurve, d: nat, publicKey: Point, z: int, r: int, s: int)
    requires PrimeOrder(c) && Multiple(c, d, Affine(c.gx, c.gy)) == Ok(publicKey)
    requires Verification(c, publicKey, z, (r, s)) == Ok(true)
    ensures Produced(c, d, z, r, s) <==> 0 < r < c.n && 0 < s < c.n
  {
    VerifiesExactlySigned(c, d, publicKey, z, r, s);
    if Signable(c, d, z, r, s) {
      AttemptInRange(c, d, z, r, s);
    }
    if 0 < r < c.n && 0 < s < c.n {
      SmallMod(r, c.n);
      SmallMod(s, c.n);
    }
  }

  /** So every signature has accepted companions, which no nonce signs to. */
  lemma ShiftedVerifies(c: EllipticCurve, d: nat, publicKey: Point, z: int, r: int, s: int, i: int, j: int)
    requires PrimeOrder(c) && Multiple(c, d, Affine(c.gx, c.gy)) == Ok(publicKey) && Produced(c, d, z, r, s)
    ensures Verification(c, publicKey, z, (r + i * c.n, s + j * c.n)) == Ok(true)
    ensures Produced(c, d, z, r + i * c.n, s + j * c.n) <==> i == 0 && j == 0
  {
    AttemptInRange(c, d, z, r, s);
    var r', s' := r + i * c.n, s + j * c.n;
    DivModUnique(r', c.n, i, r);
    DivModUnique(s', c.n, j, s);
    VerifiesExactlySigned(c, d, publicKey, z, r', s');
    AcceptedIsProducedExactly(c, d, publicKey, z, r', s');
    OutOfRange(c.n, r, i);
    OutOfRange(c.n, s, j);
  }

  lemma OutOfRange(n: int, r: int, i: int)
    requires 0 < r < n
    ensures 0 < r + i * n < n <==> i == 0
  {
    if i != 0 {
      MulAtLeast(i, n);
    }
  }

  lemma VanishesExactly(n: int, e: int, s: int, w: int)
    requires n > 1 && IsInverse(s, w, n)
    ensures (e * w) % n == 0 <==> e % n == 0
  {
    if e % n == 0 {
      DividesProduct(n, e, w);
    }
    if (e * w) % n == 0 {
      assert w * s == s * w;
      assert w * e == e * w;
      Cancel(w, s % n, e, n) by {
        CongruentMod(s, n);
        DividesProduct(n, s % n - s, w);
        CongruentIffSameMod(w * (s % n), w * s, n);
        assert w * (s % n - s) == w * (s % n) - w * s;
        SmallMod(0, n);
        assert w * 0 == 0;
      }
    }
  }

  /** The nonce (z + r*d)/s signs to (r, s) exactly when r is its point's abscissa. */
  lemma SignsWith(c: EllipticCurve, d: nat, z: int, r: int, s: int, k: int)
    requires PrimeOrder(c) && 0 <= r < c.n && 0 < s < c.n && 0 < k < c.n && InverseOf(s, c.n).Ok?
    requires k == ((z + r * d) * InverseOf(s, c.n).value) % c.n
    ensures Multiple(c, k, Affine(c.gx, c.gy)).Ok? && Multiple(c, k, Affine(c.gx, c.gy)).value.Affine?
    ensures SignAttempt(c, d, z, k) == Ok((r, s)) <==> Multiple(c, k, Affine(c.gx, c.gy)).value.x % c.n == r
  {
    SignAttemptSucceeds(c, d, z, k);
    NonceSignatureDuality(c.n, z + r * d, k, InverseOf(k, c.n).value, s, InverseOf(s, c.n).value);
  }

  /** A nonce that signs to (r, s) is (z + r*d)/s. */
  lemma SignedNonce(c: EllipticCurve, d: nat, z: int, r: int, s: int, k: int)
    requires PrimeOrder(c) && 0 <= r < c.n && 0 < s < c.n && 0 < k < c.n && InverseOf(s, c.n).Ok?
    requires SignAttempt(c, d, z, k) == Ok((r, s))
    ensures k == ((z + r * d) * InverseOf(s, c.n).value) % c.n
  {
    SignAttemptSucceeds(c, d, z, k);
    NonceSignatureDuality(c.n, z + r * d, k, InverseOf(k, c.n).value, s, InverseOf(s, c.n).value);
  }

  /** Signatures produced by the signing loop are accepted. */
  lemma SignedVerifies(c: EllipticCurve, d: nat, publicKey: Point, z: int, k: int)
    requires PrimeOrder(c) && Multiple(c, d, Affine(c.gx, c.gy)) == Ok(publicKey)
    requires 0 < k < c.n
    ensures SignAttempt(c, d, z, k).Ok?
    ensures var sig := SignAttempt(c, d, z, k).value;
            sig.0 != 0 && sig.1 != 0 ==> Verification(c, publicKey, z, sig) == Ok(true)
  {
    SignAttemptSucceeds(c, d, z, k);
    var sig := SignAttempt(c, d, z, k).value;
    if sig.0 != 0 && sig.1 != 0 {
      AttemptInRange(c, d, z, sig.0, sig.1);
      VerifiesReduced(c, d, publicKey, z, sig.0, sig.1);
    }
  }

  // ---------------------------------------------------------------- the equations of the standard

  /** Multiplying by s undoes dividing by it. */
  lemma SolveFor(n: int, s: int, w: int, u: int, e: int)
    requires n > 1 && IsInverse(s, w, n) && 0 <= u < n
    ensures (u * s) % n == e % n <==> u == (e * w) % n
  {
    SmallMod(1, n);
    SmallMod(u, n);
    CongruentIffSameMod(s * w, 1, n);
    if (u * s) % n == e % n {
      CongruentIffSameMod(u * s, e, n);
      // u - e*w == (u*s - e)*w - (s*w - 1)*u
      DividesCombination(n, u * s - e, s * w - 1, w, -u);
      SolveIdentity(u, s, w, e);
      CongruentIffSameMod(u, e * w, n);
    }
    if u == (e * w) % n {
      CongruentMod(e * w, n);
      // u*s - e == (u - e*w)*s + (s*w - 1)*e
      DividesCombination(n, u - e * w, s * w - 1, s, e);
      SolveIdentity(u, s, w, e);
      CongruentIffSameMod(u * s, e, n);
    }
  }

  lemma SolveIdentity(u: int, s: int, w: int, e: int)
    ensures w * (u * s - e) + -u * (s * w - 1) == u - e * w
    ensures s * (u - e * w) + e * (s * w - 1) == u * s - e
  {
    assert w * (u * s) == u * (s * w);
    assert s * (e * w) == e * (s * w);
  }

  /** SEC 1 section 4.1.3: nonce k signs z under the key d to (r, s) exactly when r is the
      abscissa of the k-fold base point modulo n and s*k = z + r*d modulo n. */
  lemma SigningEquation(c: EllipticCurve, d: int, z: int, k: int, r: int, s: int)
    requires PrimeOrder(c) && 0 < k < c.n
    ensures Times(c, k, Affine(c.gx, c.gy)).Ok? && Times(c, k, Affine(c.gx, c.gy)).value.Affine?
    ensures SignAttempt(c, d, z, k) == Ok((r, s))
       <==> && r == Times(c, k, Affine(c.gx, c.gy)).value.x % c.n
            && 0 <= s < c.n && (s * k) % c.n == (z + r * d) % c.n
  {
    SignAttemptSucceeds(c, d, z, k);
    var w := InverseOf(k, c.n).value;
    if 0 <= s < c.n {
      SolveFor(c.n, k, w, s, z + r * d);
    }
  }

  /** The multipliers that verification needs exist. */
  lemma MultipliersExist(c: EllipticCurve, z: int, r: int, s: int) returns (u1: nat, u2: nat)
    requires PrimeOrder(c) && s % c.n != 0
    ensures u1 < c.n && u2 < c.n && (u1 * s) % c.n == z % c.n && (u2 * s) % c.n == r % c.n
  {
    PrimeInverse(s, c.n);
    var w := InverseOf(s, c.n).value;
    u1, u2 := (z * w) % c.n, (r * w) % c.n;
    SolveFor(c.n, s, w, u1, z);
    SolveFor(c.n, s, w, u2, r);
  }

  /** SEC 1 section 4.1.4: with u1*s = z and u2*s = r modulo n, verification compares r with
      the abscissa of u1 times the base point plus u2 times the key. */
  lemma VerificationEquation(c: EllipticCurve, publicKey: Point, z: int, r: int, s: int, u1: nat, u2: nat)
    requires PrimeOrder(c) && Valid(c, publicKey) && s % c.n != 0
    requires u1 < c.n && u2 < c.n && (u1 * s) % c.n == z % c.n && (u2 * s) % c.n == r % c.n
    ensures Times(c, u1, Affine(c.gx, c.gy)).Ok? && Times(c, u2, publicKey).Ok?
    ensures PointAdd(c, Times(c, u1, Affine(c.gx, c.gy)).value, Times(c, u2, publicKey).value).Ok?
    ensures var sum := PointAdd(c, Times(c, u1, Affine(c.gx, c.gy)).value, Times(c, u2, publicKey).value).value;
            Verification(c, publicKey, z, (r, s))
            == if sum.Infinity? then Err(UnpackInfinity) else Ok(r % c.n == sum.x % c.n)
  {
    PrimeInverse(s, c.n);
    var w := InverseOf(s, c.n).value;
    SolveFor(c.n, s, w, u1, z);
    SolveFor(c.n, s, w, u2, r);
    PointsAssociate(c);
    TimesIsMul(c, u1, Affine(c.gx, c.gy));
    TimesIsMul(c, u2, publicKey);
    AddSucceeds(c, Times(c, u1, Affine(c.gx, c.gy)).value, Times(c, u2, publicKey).value);
  }
}
