/** Decimal notation: printing, parsing and their round trips. */
module Decimals {

  function Digit(d: nat): (c: char)
    requires d < 10
    ensures '0' <= c <= '9' && c as int == 48 + d
  {
    ('0' as int + d) as char
  }

  function DigitValue(c: char): (d: nat)
    requires '0' <= c <= '9'
    ensures d < 10 && Digit(d) == c
  {
    c as int - '0' as int
  }

  predicate IsDigits(s: string) {
    forall i | 0 <= i < |s| :: '0' <= s[i] <= '9'
  }

  /** The canonical notation. */
  function Decimal(n: nat): (s: string)
    ensures |s| > 0 && IsDigits(s)
  {
    if n < 10 then [Digit(n)] else Decimal(n / 10) + [Digit(n % 10)]
  }

  function Parse(s: string): nat
    requires IsDigits(s)
  {
    if |s| == 0 then 0 else 10 * Parse(s[..|s| - 1]) + DigitValue(s[|s| - 1])
  }

  function Pow10(k: nat): (r: nat)
    ensures r > 0
  {
    if k == 0 then 1 else 10 * Pow10(k - 1)
  }

  lemma {:induction false} ParseDecimal(n: nat)
    ensures Parse(Decimal(n)) == n
  {
    if n >= 10 {
      ParseDecimal(n / 10);
      assert Decimal(n)[..|Decimal(n)| - 1] == Decimal(n / 10);
    } else {
      assert Decimal(n)[..0] == "";
    }
  }

  /** No leading zeros. */
  predicate Canonical(s: string) {
    IsDigits(s) && |s| > 0 && (|s| > 1 ==> s[0] != '0')
  }

  lemma {:induction false} DecimalCanonical(n: nat)
    ensures Canonical(Decimal(n)) && (n > 0 ==> Decimal(n)[0] != '0')
  {
    if n >= 10 {
      DecimalCanonical(n / 10);
    }
  }

  lemma {:induction false} CanonicalPositive(s: string)
    requires IsDigits(s) && |s| > 0 && s[0] != '0'
    ensures Parse(s) > 0
  {
    if |s| > 1 {
      CanonicalPositive(s[..|s| - 1]);
    }
  }

  /** The canonical notation is the only one without leading zeros. */
  lemma {:induction false} CanonicalUnique(s: string)
    requires Canonical(s)
    ensures Decimal(Parse(s)) == s
  {
    var init := s[..|s| - 1];
    assert s == init + [s[|s| - 1]];
    if |s| > 1 {
      CanonicalPositive(init);
      CanonicalUnique(init);
      assert Parse(s) / 10 == Parse(init) && Parse(s) % 10 == DigitValue(s[|s| - 1]);
    }
  }

  /** n has at most k digits exactly when it is below 10^k. */
  lemma {:induction false} DigitCount(n: nat, k: nat)
    requires k > 0
    ensures |Decimal(n)| <= k <==> n < Pow10(k)
  {
    if n < 10 {
      Pow10Positive(k);
    } else if k == 1 {
      assert Pow10(1) == 10 * Pow10(0);
    } else {
      DigitCount(n / 10, k - 1);
    }
  }

  lemma Pow10Positive(k: nat)
    requires k > 0
    ensures Pow10(k) >= 10
  {
  }

  lemma {:induction false} ParseConcat(a: string, b: string)
    requires IsDigits(a) && IsDigits(b)
    ensures IsDigits(a + b) && Parse(a + b) == Parse(a) * Pow10(|b|) + Parse(b)
  {
    if |b| == 0 {
      assert a + b == a;
    } else {
      var init := b[..|b| - 1];
      ParseConcat(a, init);
      assert (a + b)[..|a + b| - 1] == a + init;
      assert 10 * (Parse(a) * Pow10(|init|)) == Parse(a) * Pow10(|b|);
    }
  }

  function Zeros(k: nat): (s: string)
    ensures |s| == k && IsDigits(s)
  {
    seq(k, _ => '0')
  }

  lemma {:induction false} ParseZeros(k: nat)
    ensures Parse(Zeros(k)) == 0
  {
    if k > 0 {
      ParseZeros(k - 1);
      assert Zeros(k)[..k - 1] == Zeros(k - 1);
    }
  }

  lemma Pow10Values()
    ensures Pow10(8) == 100_000_000 && Pow10(19) == 10_000_000_000_000_000_000
        && Pow10(20) == 100_000_000_000_000_000_000
  {
    assert Pow10(4) == 10_000;
    assert Pow10(8) == 100_000_000;
    assert Pow10(12) == 1_000_000_000_000;
    assert Pow10(16) == 10_000_000_000_000_000;
    assert Pow10(19) == 10_000_000_000_000_000_000;
  }

  /** Digits of 64-bit numbers: at most 20, and at most 19 up to 2^63. */
  lemma SixtyFourBits(n: nat)
    ensures n < 0x1_0000_0000_0000_0000 ==> |Decimal(n)| <= 20
    ensures n <= 0x8000_0000_0000_0000 ==> |Decimal(n)| <= 19
    ensures n == 0xFFFF_FFFF_FFFF_FFFF ==> |Decimal(n)| == 20
  {
    Pow10Values();
    DigitCount(n, 20);
    DigitCount(n, 19);
  }

  /** Digits read from left to right. */
  lemma NotationExamples()
    ensures Decimal(0) == "0" && Decimal(120) == "120" && Parse("120") == 120
  {
    assert Decimal(1) == "1" && Decimal(12) == "12";
    assert "120"[..2] == "12" && "12"[..1] == "1" && "1"[..0] == "";
    assert Parse("1") == 1 && Parse("12") == 12;
  }
}
