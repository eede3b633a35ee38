/** `format_fpu64`: an integer shown with a decimal point. */
module FixedPoints {
  import opened Decimals
  import opened Format

  /** The digits before the point, and the `decimals` digits after it. */
  function Whole(value: nat, decimals: nat): (a: string)
    ensures IsDigits(a)
  {
    var s := Decimal(value);
    if |s| <= decimals then "0" else s[..|s| - decimals]
  }

  function Fraction(value: nat, decimals: nat): (b: string)
    ensures IsDigits(b) && |b| == decimals
  {
    var s := Decimal(value);
    if |s| <= decimals then Zeros(decimals - |s|) + s else s[|s| - decimals..]
  }

  /** The notation with `decimals` digits after the point. */
  function FixedPoint(value: nat, decimals: nat): string {
    Whole(value, decimals) + "." + Fraction(value, decimals)
  }

  // ---------------------------------------------------------------- its value

  /** Where the point is. */
  function PointIndex(s: string): (i: nat)
    requires '.' in s
    ensures i < |s| && s[i] == '.' && '.' !in s[..i]
  {
    if s[0] == '.' then 0 else 1 + PointIndex(s[1..])
  }

  predicate IsFixedPoint(s: string) {
    '.' in s && IsDigits(s[..PointIndex(s)]) && IsDigits(s[PointIndex(s) + 1..])
  }

  /** How many digits follow the point. */
  function FractionDigits(s: string): nat
    requires IsFixedPoint(s)
  {
    |s| - PointIndex(s) - 1
  }

  /** Integer part and fraction, as a count of the last decimal place. */
  function Scaled(s: string): nat
    requires IsFixedPoint(s)
  {
    var i := PointIndex(s);
    Parse(s[..i]) * Pow10(FractionDigits(s)) + Parse(s[i + 1..])
  }

  /** `count` parts of size 1/parts. */
  function InUnits(count: nat, parts: nat): real
    requires parts > 0
  {
    count as real / parts as real
  }

  /** The number a decimal-point string denotes. */
  function FixedValue(s: string): real
    requires IsFixedPoint(s)
  {
    InUnits(Scaled(s), Pow10(FractionDigits(s)))
  }

  lemma {:induction false} PointIndexIs(a: string, b: string)
    requires IsDigits(a)
    ensures '.' in a + "." + b && PointIndex(a + "." + b) == |a|
  {
    var s := a + "." + b;
    assert s[|a|] == '.';
    if |a| > 0 {
      assert s[1..] == a[1..] + "." + b;
      PointIndexIs(a[1..], b);
      assert s[0] == a[0];
    }
  }

  lemma FixedParts(a: string, b: string)
    requires IsDigits(a) && IsDigits(b)
    ensures IsFixedPoint(a + "." + b) && FractionDigits(a + "." + b) == |b|
    ensures Scaled(a + "." + b) == Parse(a + b)
  {
    var s := a + "." + b;
    PointIndexIs(a, b);
    assert s[..|a|] == a && s[|a| + 1..] == b;
    ParseConcat(a, b);
  }

  lemma {:induction false} LeadingZeros(k: nat, s: string)
    requires IsDigits(s)
    ensures Parse(Zeros(k) + s) == Parse(s)
  {
    ParseConcat(Zeros(k), s);
    ParseZeros(k);
  }

  lemma PartsParse(value: nat, decimals: nat)
    ensures Parse(Whole(value, decimals) + Fraction(value, decimals)) == value
  {
    var s := Decimal(value);
    ParseDecimal(value);
    if |s| <= decimals {
      var k := decimals - |s|;
      assert "0" + (Zeros(k) + s) == Zeros(k + 1) + s;
      LeadingZeros(k + 1, s);
    } else {
      assert s[..|s| - decimals] + s[|s| - decimals..] == s;
    }
  }

  lemma FixedPointScaled(value: nat, decimals: nat)
    ensures var s := FixedPoint(value, decimals);
            IsFixedPoint(s) && FractionDigits(s) == decimals && Scaled(s) == value
  {
    FixedParts(Whole(value, decimals), Fraction(value, decimals));
    PartsParse(value, decimals);
  }

  /** The string shown, read as a number, is the value in units of the last decimal place. */
  lemma FixedPointValue(value: nat, decimals: nat, s: string)
    requires s == FixedPoint(value, decimals)
    ensures IsFixedPoint(s) && FixedValue(s) == InUnits(value, Pow10(decimals))
  {
    FixedPointScaled(value, decimals);
  }

  // ---------------------------------------------------------------- the printer

  /** The smallest failing size of either branch, as the code compares it. */
  predicate Fits(value: nat, decimals: nat, dstLen: nat) {
    var digits := |Decimal(value)|;
    if digits <= decimals then dstLen > 2 + decimals - digits else dstLen > digits + 1 + decimals
  }

  /** The first n characters of src, filled up with NULs: what `strncpy` writes. */
  function Padded(src: string, n: nat): (r: seq<char>)
    ensures |r| == n
  {
    if |src| >= n then src[..n] else src + seq(n - |src|, _ => NUL)
  }

  /** A copy into the middle of a buffer, part by part. */
  method CopyChars(dst: array<char>, at: nat, data: seq<char>)
    requires at + |data| <= dst.Length
    modifies dst
    ensures dst[..at] == old(dst[..at]) && dst[at..at + |data|] == data
    ensures dst[at + |data|..] == old(dst[at + |data|..])
  {
    for k := 0 to |data|
      invariant dst[..at] == old(dst[..at])
      invariant forall j | 0 <= j < k :: dst[at + j] == data[j]
      invariant forall j | at + k <= j < dst.Length :: dst[j] == old(dst[j])
    {
      dst[at + k] := data[k];
    }
  }

  method StrNCopy(dst: array<char>, at: nat, src: string, n: nat)
    requires at + n <= dst.Length
    modifies dst
    ensures dst[..at] == old(dst[..at]) && dst[at..at + n] == Padded(src, n) && dst[at + n..] == old(dst[at + n..])
  {
    CopyChars(dst, at, Padded(src, n));
  }

  /** "0." and the zeros. */
  method PrintHead(dst: array<char>, zeros: nat)
    requires 2 + zeros <= dst.Length
    modifies dst
    ensures dst[..2 + zeros] == "0." + Zeros(zeros) && dst[2 + zeros..] == old(dst[2 + zeros..])
  {
    dst[0] := '0';
    dst[1] := '.';
    for i := 0 to zeros
      invariant dst[0] == '0' && dst[1] == '.'
      invariant forall k | 2 <= k < 2 + i :: dst[k] == '0'
      invariant forall k | 2 + zeros <= k < dst.Length :: dst[k] == old(dst[k])
    {
      dst[2 + i] := '0';
    }
    assert forall k | 0 <= k < 2 + zeros :: dst[k] == ("0." + Zeros(zeros))[k];
  }

  /** "0.", the zeros and the digits, cut off at the end of the buffer. */
  method PrintFraction(dst: array<char>, dstLen: nat, digits: string, decimals: nat)
    requires dstLen <= dst.Length && |digits| <= decimals && dstLen > 2 + decimals - |digits|
    modifies dst
    ensures dst[..dstLen] == Padded("0." + Zeros(decimals - |digits|) + digits, dstLen)
    ensures dst[dstLen..] == old(dst[dstLen..])
  {
    var head := 2 + decimals - |digits|;
    ghost var before := dst[..];
    PrintHead(dst, decimals - |digits|);
    assert dst[dstLen..] == dst[head..][dstLen - head..] == before[dstLen..];
    ghost var start := dst[..head];
    StrNCopy(dst, head, digits, dstLen - head);
    assert dst[..dstLen] == start + Padded(digits, dstLen - head);
    PaddedAfter(start, digits, dstLen - head);
  }

  lemma PaddedAfter(start: string, src: string, n: nat)
    ensures start + Padded(src, n) == Padded(start + src, |start| + n)
  {
  }

  /** The digits with a point among them; no terminator is written. */
  method PrintWithPoint(dst: array<char>, digits: string, decimals: nat)
    requires |digits| > decimals && |digits| + 1 <= dst.Length
    modifies dst
    ensures dst[..|digits| + 1] == digits[..|digits| - decimals] + "." + digits[|digits| - decimals..]
    ensures dst[|digits| + 1..] == old(dst[|digits| + 1..])
  {
    ghost var before := dst[..];
    var shift := |digits| - decimals;
    CopyChars(dst, 0, digits[..shift]);
    assert dst[..shift] == dst[0..shift];
    assert dst[shift + 1..] == dst[shift..][1..] == before[shift + 1..];
    Put(dst, shift, '.');
    ghost var head := dst[..shift + 1];
    StrNCopy(dst, shift + 1, digits[shift..], decimals);
    assert dst[..|digits| + 1] == dst[..shift + 1] + dst[shift + 1..shift + 1 + decimals];
    assert Padded(digits[shift..], decimals) == digits[shift..];
    assert before[shift + 1..][decimals..] == before[|digits| + 1..];
  }

  /** The zero-filled 21-byte buffer, printed into and measured with `strlen`. */
  method DigitsOf(value: nat) returns (digits: string)
    requires value < 0x1_0000_0000_0000_0000
    ensures digits == Decimal(value)
  {
    SixtyFourBits(value);
    var buffer := new char[21](_ => NUL);
    var printed := FormatU64(buffer, 21, value);
    DigitsAreNotNul(Decimal(value));
    CStringOf(buffer[..], Decimal(value));
    digits := CString(buffer[..]);
  }

  /** The two shapes as the branches build them. */
  lemma FixedPointShapes(value: nat, decimals: nat)
    ensures var s := Decimal(value);
            && |FixedPoint(value, decimals)| == (if |s| <= decimals then decimals + 2 else |s| + 1)
            && (|s| <= decimals ==> FixedPoint(value, decimals) == "0." + Zeros(decimals - |s|) + s)
            && (|s| > decimals ==> FixedPoint(value, decimals) == s[..|s| - decimals] + "." + s[|s| - decimals..])
  {
  }

  /** `format_fpu64`. A true result does not mean a terminated string: the
      first branch can cut the digits off, the second writes no terminator. The last
      two clauses say exactly when the string is complete. */
  method FormatFpu64(dst: array<char>, dstLen: nat, value: nat, decimals: nat) returns (ok: bool)
    requires value < 0x1_0000_0000_0000_0000 && decimals < 256 && dstLen <= dst.Length
    modifies dst
    ensures ok <==> Fits(value, decimals, dstLen)
    ensures |Decimal(value)| <= decimals ==> (ok <==> dstLen > 2 + decimals - |Decimal(value)|)
    ensures |Decimal(value)| > decimals ==> (ok <==> dstLen > |Decimal(value)| + 1 + decimals)
    ensures !ok ==> dst[..] == old(dst[..])
    ensures ok && |Decimal(value)| <= decimals ==>
        dst[..dstLen] == Padded(FixedPoint(value, decimals), dstLen) && dst[dstLen..] == old(dst[dstLen..])
    ensures ok && |Decimal(value)| > decimals ==>
        dst[..|Decimal(value)| + 1] == FixedPoint(value, decimals)
            && dst[|Decimal(value)| + 1..] == old(dst[|Decimal(value)| + 1..])
    ensures ok && |Decimal(value)| <= decimals ==>
        (Holds(dst[..dstLen], FixedPoint(value, decimals)) <==> dstLen >= decimals + 3)
    ensures ok && |Decimal(value)| > decimals ==>
        (Holds(dst[..], FixedPoint(value, decimals)) <==> old(dst[|Decimal(value)| + 1]) == NUL)
  {
    ghost var before := dst[..];
    var digits := DigitsOf(value);
    FixedPointShapes(value, decimals);
    if |digits| <= decimals {
      if dstLen <= 2 + decimals - |digits| {
        return false;
      }
      PrintFraction(dst, dstLen, digits, decimals);
      FractionCompleteExactly(value, decimals, dstLen);
    } else {
      if dstLen <= |digits| + 1 + decimals {
        return false;
      }
      PrintWithPoint(dst, digits, decimals);
      PointCompleteExactly(before, dst[..], FixedPoint(value, decimals));
    }
    return true;
  }

  /** When a buffer ends up holding the whole string and a terminator. */
  ghost predicate Holds(buffer: seq<char>, s: string) {
    s + [NUL] <= buffer
  }

  /** The first branch completes the string exactly from `decimals` + 3 bytes on,
      although it reports success for less. */
  lemma FractionCompleteExactly(value: nat, decimals: nat, dstLen: nat)
    requires |Decimal(value)| <= decimals && Fits(value, decimals, dstLen)
    ensures Holds(Padded(FixedPoint(value, decimals), dstLen), FixedPoint(value, decimals)) <==> dstLen >= decimals + 3
  {
    var s := FixedPoint(value, decimals);
    assert |s| == decimals + 2;
    if dstLen >= decimals + 3 {
      assert Padded(s, dstLen)[..|s|] == s;
    }
  }

  /** Truncation happens: 5 with one decimal in three bytes is "0.5" with no terminator. */
  lemma FractionCanLackTerminator()
    ensures Fits(5, 1, 3) && !Holds(Padded(FixedPoint(5, 1), 3), FixedPoint(5, 1))
  {
    FractionCompleteExactly(5, 1, 3);
  }

  /** The second branch completes it exactly when the byte after it was NUL before. */
  lemma PointCompleteExactly(before: seq<char>, after: seq<char>, s: string)
    requires |after| == |before| > |s| && after[..|s|] == s && after[|s|..] == before[|s|..]
    ensures Holds(after, s) <==> before[|s|] == NUL
  {
    assert after[|s|] == after[|s|..][0] == before[|s|];
    if before[|s|] == NUL {
      assert after[..|s| + 1] == s + [NUL];
    }
  }

  lemma FixedPointExamples()
    ensures FixedPoint(105, 8) == "0.00000105" && FixedPoint(105, 2) == "1.05" && FixedPoint(105, 3) == "0.105"
  {
    assert Decimal(10) == "10" && Decimal(105) == "105";
    assert Zeros(5) == "00000" && Zeros(0) == "";
  }
}
