/** Repeated addition in any associative structure with a unit. */
module Multiples {
  import opened Modular

  /** x + y on the elements satisfying `ok`. */
  datatype Structure<!T> = Structure(ok: T -> bool, op: (T, T) -> T, unit: T)

  ghost predicate Associative<T(!new)>(s: Structure<T>) {
    && s.ok(s.unit)
    && (forall x, y {:trigger s.op(x, y)} :: s.ok(x) && s.ok(y) ==> s.ok(s.op(x, y)))
    && (forall x {:trigger s.op(s.unit, x)} :: s.ok(x) ==> s.op(s.unit, x) == x)
    && (forall x {:trigger s.op(x, s.unit)} :: s.ok(x) ==> s.op(x, s.unit) == x)
    && (forall x, y, z {:trigger Three(s, x, y, z)} ::
          Three(s, x, y, z) ==> s.op(s.op(x, y), z) == s.op(x, s.op(y, z)))
  }

  /** Only `Regroup` mentions it, so that the law is used where it is called for. */
  predicate Three<T>(s: Structure<T>, x: T, y: T, z: T) {
    s.ok(x) && s.ok(y) && s.ok(z)
  }

  lemma Regroup<T(!new)>(s: Structure<T>, x: T, y: T, z: T)
    requires Associative(s) && s.ok(x) && s.ok(y) && s.ok(z)
    ensures s.op(s.op(x, y), z) == s.op(x, s.op(y, z))
  {
    assert Three(s, x, y, z);
  }

  /** The k-th multiple of x. */
  ghost function Mul<T(!new)>(s: Structure<T>, k: nat, x: T): (r: T)
    requires Associative(s) && s.ok(x)
    ensures s.ok(r)
  {
    if k == 0 then s.unit else s.op(Mul(s, k - 1, x), x)
  }

  lemma {:induction false} MulSum<T(!new)>(s: Structure<T>, j: nat, k: nat, x: T)
    requires Associative(s) && s.ok(x)
    ensures Mul(s, j + k, x) == s.op(Mul(s, j, x), Mul(s, k, x))
  {
    if k > 0 {
      MulSum(s, j, k - 1, x);
      Regroup(s, Mul(s, j, x), Mul(s, k - 1, x), x);
    }
  }

  lemma {:induction false} MulProduct<T(!new)>(s: Structure<T>, j: nat, k: nat, x: T)
    requires Associative(s) && s.ok(x)
    ensures j * k >= 0 && Mul(s, j * k, x) == Mul(s, j, Mul(s, k, x))
  {
    if j > 0 {
      MulProduct(s, j - 1, k, x);
      assert (j - 1) * k + k == j * k;
      MulSum(s, (j - 1) * k, k, x);
    }
  }

  lemma {:induction false} MulUnit<T(!new)>(s: Structure<T>, k: nat)
    requires Associative(s)
    ensures Mul(s, k, s.unit) == s.unit
  {
    if k > 0 {
      MulUnit(s, k - 1);
    }
  }

  lemma MulOne<T(!new)>(s: Structure<T>, x: T)
    requires Associative(s) && s.ok(x)
    ensures Mul(s, 1, x) == x
  {
    assert Mul(s, 0, x) == s.unit;
  }

  /** When n kills x, so does every multiple of n. */
  lemma MulKilled<T(!new)>(s: Structure<T>, n: nat, q: nat, x: T)
    requires Associative(s) && s.ok(x) && Mul(s, n, x) == s.unit
    ensures q * n >= 0 && Mul(s, q * n, x) == s.unit
  {
    MulProduct(s, q, n, x);
    MulUnit(s, q);
  }

  lemma MulShift<T(!new)>(s: Structure<T>, n: nat, q: nat, r: nat, x: T)
    requires Associative(s) && s.ok(x) && Mul(s, n, x) == s.unit
    ensures q * n >= 0 && Mul(s, q * n + r, x) == Mul(s, r, x)
  {
    MulKilled(s, n, q, x);
    MulSum(s, q * n, r, x);
  }

  /** When n kills x, multiples of x only depend on the multiplier modulo n. */
  lemma MulReduce<T(!new)>(s: Structure<T>, n: nat, k: nat, x: T)
    requires Associative(s) && s.ok(x) && n > 0 && Mul(s, n, x) == s.unit
    ensures k % n >= 0 && Mul(s, k % n, x) == Mul(s, k, x)
  {
    var q, r := Quotient(k, n), k % n;
    MulShift(s, n, q, r, x);
  }

  /** Two integers apart by a multiple of n give the same multiple. */
  lemma MulCongruent<T(!new)>(s: Structure<T>, n: nat, j: nat, k: nat, x: T)
    requires Associative(s) && s.ok(x) && n > 0 && Mul(s, n, x) == s.unit
    requires j % n == k % n
    ensures Mul(s, j, x) == Mul(s, k, x)
  {
    MulReduce(s, n, j, x);
    MulReduce(s, n, k, x);
  }

  /** When the prime n kills x, only its multiples do, unless x is the unit. */
  lemma MulUnitExactly<T(!new)>(s: Structure<T>, n: nat, k: nat, x: T)
    requires Associative(s) && s.ok(x) && IsPrime(n) && Mul(s, n, x) == s.unit && x != s.unit
    ensures Mul(s, k, x) == s.unit <==> k % n == 0
  {
    if k % n == 0 {
      MulCongruent(s, n, k, 0, x) by { SmallMod(0, n); }
    } else {
      var w := InverseMultiplier(k, n);
      MulProduct(s, w, k, x);
      MulUnit(s, w);
      MulOne(s, x);
      MulCongruent(s, n, w * k, 1, x);
    }
  }

  lemma InverseMultiplier(k: nat, n: nat) returns (w: nat)
    requires IsPrime(n) && k % n != 0
    ensures w * k >= 0 && (w * k) % n == 1 % n
  {
    PrimeInverse(k, n);
    w := TheInverse(k, n);
    SmallMod(1, n);
    assert w * k == k * w;
  }

  /** Halving the multiplier and doubling the element. */
  lemma MulDoubled<T(!new)>(s: Structure<T>, h: nat, x: T)
    requires Associative(s) && s.ok(x)
    ensures Mul(s, h, s.op(x, x)) == Mul(s, h * 2, x)
  {
    MulOne(s, x);
    MulSum(s, 1, 1, x);
    MulProduct(s, h, 2, x);
  }

  lemma MulNext<T(!new)>(s: Structure<T>, k: nat, x: T)
    requires Associative(s) && s.ok(x)
    ensures Mul(s, 1 + k, x) == s.op(x, Mul(s, k, x))
  {
    MulOne(s, x);
    MulSum(s, 1, k, x);
  }

  /** Equally many of x and of its inverse y cancel. */
  lemma {:induction false} MulOpposite<T(!new)>(s: Structure<T>, k: nat, x: T, y: T)
    requires Associative(s) && s.ok(x) && s.ok(y) && s.op(x, y) == s.unit
    ensures s.op(Mul(s, k, x), Mul(s, k, y)) == s.unit
  {
    if k > 0 {
      var u, v := Mul(s, k - 1, x), Mul(s, k - 1, y);
      MulOpposite(s, k - 1, x, y);
      MulNext(s, k - 1, y);
      // (u + x) + (y + v) == u + ((x + y) + v)
      Regroup(s, u, x, s.op(y, v));
      Regroup(s, x, y, v);
    }
  }

  /** What one round of double-and-add keeps: result + k * addend. */
  lemma DoubleAndAddStep<T(!new)>(s: Structure<T>, result: T, k: nat, addend: T)
    requires Associative(s) && s.ok(result) && s.ok(addend) && k > 0
    ensures var result' := if k % 2 == 1 then s.op(result, addend) else result;
            s.op(result', Mul(s, k / 2, s.op(addend, addend))) == s.op(result, Mul(s, k, addend))
  {
    var m := k / 2 * 2;
    MulDoubled(s, k / 2, addend);
    if k % 2 == 1 {
      assert k == 1 + m;
      MulNext(s, m, addend);
      Regroup(s, result, addend, Mul(s, m, addend));
    } else {
      assert k == m;
    }
  }

  /** The invariant of double-and-add. */
  ghost predicate Holds<T(!new)>(s: Structure<T>, result: T, rest: nat, addend: T, total: T)
    requires Associative(s)
  {
    s.ok(result) && s.ok(addend) && s.op(result, Mul(s, rest, addend)) == total
  }

  lemma AbstractRound<T(!new)>(s: Structure<T>, result: T, rest: nat, addend: T, total: T)
    requires Associative(s) && rest > 0 && Holds(s, result, rest, addend, total)
    ensures Holds(s, if rest % 2 == 1 then s.op(result, addend) else result, rest / 2, s.op(addend, addend), total)
  {
    DoubleAndAddStep(s, result, rest, addend);
  }

  /** A combination of x and of a multiple of x is one multiple of x. */
  lemma Combination<T(!new)>(s: Structure<T>, i: nat, j: nat, d: nat, m: nat, x: T)
    requires Associative(s) && s.ok(x) && m == i + j * d
    ensures s.op(Mul(s, i, x), Mul(s, j, Mul(s, d, x))) == Mul(s, m, x)
  {
    MulProduct(s, j, d, x);
    MulSum(s, i, j * d, x);
  }
}
