/** The assumption on the curve can be met: a three-point curve meets all of it; and what
    verification says there. */
module ToyCurve {
  import opened Wrappers
  import opened Modular
  import opened Curve
  import opened Group
  import opened Ecdsa

  /** y^2 = x^3 + 4x + 2 modulo 5, generated by (3, 1). */
  const TOY: EllipticCurve := Parameters(5, 4, 2, 3, 1, 3)

  const P: Point := Affine(3, 1)
  const Q: Point := Affine(3, 4)

  lemma InverseIs(k: int, x: int, p: int)
    requires p > 1 && IsInverse(k, x, p)
    ensures InverseOf(k, p) == Ok(x)
  {
    InverseOfExact(k, p);
  }

  lemma ToyPoint(x: int, y: int)
    requires Valid(TOY, Affine(x, y))
    ensures x == 3 && (y == 1 || y == 4)
  {
    assert (y * y - x * x * x - 4 * x - 2) % 5 == 0;
    if x == 0 { ToyOrdinate(y, 2); }
    else if x == 1 { ToyOrdinate(y, 7); }
    else if x == 2 { ToyOrdinate(y, 18); }
    else if x == 3 { ToyOrdinate(y, 41); }
    else { ToyOrdinate(y, 82); }
  }

  lemma ToyOrdinate(y: int, f: int)
    requires 0 <= y < 5 && (y * y - f) % 5 == 0
    ensures f % 5 == 0 || f % 5 == 1 || f % 5 == 4
    ensures f % 5 == 1 ==> y == 1 || y == 4
  {
    if y == 0 {} else if y == 1 {} else if y == 2 {} else if y == 3 {} else {}
  }

  /** The addition table. */
  lemma ToyTable()
    ensures Valid(TOY, P) && Valid(TOY, Q)
    ensures PointAdd(TOY, P, P) == Ok(Q)
    ensures PointAdd(TOY, Q, Q) == Ok(P)
    ensures PointAdd(TOY, P, Q) == Ok(Infinity)
    ensures PointAdd(TOY, Q, P) == Ok(Infinity)
  {
    InverseIs(2, 3, 5);
    InverseIs(8, 2, 5);
  }

  lemma PrimeOrderCanBeMet()
    ensures PrimeOrder(TOY)
  {
    ToyTable();
    assert Times(TOY, 1, P) == Ok(P);
    assert Times(TOY, 2, P) == Ok(Q);
    forall x, y | Valid(TOY, Affine(x, y)) ensures !Divides(5, 2 * y) {
      ToyPoint(x, y);
    }
    assert IsPrime(5) && IsPrime(3);
  }

  /** With the base point as key (d = 1), hash 1: the pair (1, 1) is refused, since
      G + G = (3, 4) and 3 = 0 modulo 3; the pair (0, 1) is accepted, since G + 0*Q = (3, 1),
      although signing never returns it; and (2, 1) raises on infinity. */
  lemma ToyVerification()
    ensures Verification(TOY, Affine(3, 1), 1, (1, 1)) == Ok(false)
    ensures Verification(TOY, Affine(3, 1), 1, (0, 1)) == Ok(true)
    ensures Verification(TOY, Affine(3, 1), 1, (2, 1)) == Err(UnpackInfinity)
  {
    PrimeOrderCanBeMet();
    ToyTable();
    assert Times(TOY, 0, P) == Ok(Infinity);
    assert Times(TOY, 1, P) == Ok(P);
    assert Times(TOY, 2, P) == Ok(Q);
    VerificationEquation(TOY, P, 1, 1, 1, 1, 1);
    VerificationEquation(TOY, P, 1, 0, 1, 1, 0);
    VerificationEquation(TOY, P, 1, 2, 1, 1, 2);
  }

  /** The constants of the test client. Their base point is a canonical point of the curve. */
  const SECP256K1: EllipticCurve := Parameters(
    0xfffffffffffffffffffffffffffffffffffffffffffffffffffffffefffffc2f, 0, 7,
    0x79be667ef9dcbbac55a06295ce870b07029bfcdb2dce28d959f2815b16f81798,
    0x483ada7726a3c4655da4fbfc0e1108a8fd17b448a68554199c47d08ffb10d4b8,
    0xfffffffffffffffffffffffffffffffebaaedce6af48a03bbfd25e8cd0364141)

  lemma Secp256k1BasePoint()
    ensures Valid(SECP256K1, Affine(SECP256K1.gx, SECP256K1.gy))
  {
  }
}
