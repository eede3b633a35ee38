/** The number printers of the device: digits written backwards into caller buffers. */
module Format {
  import opened Bytes
  import opened Decimals

  const NUL: char := '\0'

  /** `strlen` and the string it delimits: everything before the first NUL. */
  function CString(s: seq<char>): (r: string)
    ensures |r| <= |s| && r == s[..|r|] && NUL !in r
    ensures |r| < |s| ==> s[|r|] == NUL
  {
    if |s| == 0 || s[0] == NUL then [] else [s[0]] + CString(s[1..])
  }

  lemma {:induction false} CStringOf(s: seq<char>, t: string)
    requires t + [NUL] <= s && NUL !in t
    ensures CString(s) == t
  {
    if |t| > 0 {
      assert s[0] == t[0];
      CStringOf(s[1..], t[1..]);
      assert t == [t[0]] + t[1..];
    }
  }

  lemma DigitsAreNotNul(s: string)
    requires IsDigits(s)
    ensures NUL !in s
  {
  }

  /** Reverses the first `last + 1` cells, two indices closing in on each other. */
  method ReversePrefix(out: array<char>, last: nat)
    requires last < out.Length
    modifies out
    ensures out[..last + 1] == Reversed(old(out[..last + 1])) && out[last + 1..] == old(out[last + 1..])
  {
    ghost var before := out[..];
    var i, j := last, 0;
    while j < i
      invariant 0 <= j <= i + 1 && i == last - j
      invariant forall k | 0 <= k < j :: out[k] == before[last - k] && out[last - k] == before[k]
      invariant forall k | j <= k <= i :: out[k] == before[k]
      invariant forall k | last < k < out.Length :: out[k] == before[k]
    {
      var tmp := out[j];
      out[j] := out[i];
      out[i] := tmp;
      i := i - 1;
      j := j + 1;
    }
    assert forall k | 0 <= k <= last :: out[k] == before[last - k];
  }

  /** One digit printed: the rest of the number and the digits so far still make the whole. */
  lemma DigitOff(n: nat, digits: string)
    requires n > 9
    ensures Decimal(n) + Reversed(digits) == Decimal(n / 10) + Reversed(digits + [Digit(n % 10)])
  {
    assert Reversed(digits + [Digit(n % 10)]) == [Digit(n % 10)] + Reversed(digits);
  }

  lemma LastDigit(n: nat, digits: string)
    requires n <= 9
    ensures Decimal(n) + Reversed(digits) == Reversed(digits + [Digit(n)])
  {
    assert Reversed(digits + [Digit(n)]) == [Digit(n)] + Reversed(digits);
  }

  method Put(out: array<char>, i: nat, c: char)
    requires i < out.Length
    modifies out
    ensures out[..i + 1] == old(out[..i]) + [c] && out[i + 1..] == old(out[i + 1..])
  {
    out[i] := c;
  }

  /** The digits, last one first, as long as there is room for a terminator after them. */
  method PrintBackwards(out: array<char>, outLen: nat, value: nat) returns (ok: bool, i: nat)
    requires value < 0x1_0000_0000_0000_0000 && 0 < outLen <= out.Length
    requires outLen == 1 && value <= 9 ==> out.Length >= 2
    modifies out
    ensures ok <==> |Decimal(value)| + 1 <= outLen || (outLen == 1 && value <= 9)
    ensures ok ==> i + 1 == |Decimal(value)| && out[..i + 1] == Reversed(Decimal(value))
    ensures ok ==> out[i + 1..] == old(out[i + 1..])
    ensures !ok ==> out[outLen..] == old(out[outLen..])
  {
    ghost var before := out[..];
    SixtyFourBits(value);
    var n, room := value, outLen - 1;
    i := 0;
    while n > 9
      invariant 0 <= n && i + |Decimal(n)| == |Decimal(value)| && (i == 0 || i + 1 <= room)
      invariant Decimal(n) + Reversed(out[..i]) == Decimal(value)
      invariant out[i..] == before[i..]
    {
      DigitOff(n, out[..i]);
      assert out[i + 1..] == out[i..][1..] == before[i + 1..];
      Put(out, i, Digit(n % 10));
      n := n / 10;
      i := i + 1;
      if i + 1 > room {
        assert out[outLen..] == out[i..][outLen - i..];
        return false, i;
      }
    }
    LastDigit(n, out[..i]);
    ReversedTwice(out[..i] + [Digit(n)]);
    assert out[i + 1..] == out[i..][1..] == before[i + 1..];
    Put(out, i, Digit(n));
    return true, i;
  }

  /** `format_u64`. Its one unsafe call, a single digit into one byte, writes the
      terminator one past `outLen`: the memory has to be there. */
  method FormatU64(out: array<char>, outLen: nat, value: nat) returns (ok: bool)
    requires value < 0x1_0000_0000_0000_0000 && outLen <= out.Length
    requires outLen == 1 && value <= 9 ==> out.Length >= 2
    modifies out
    ensures ok <==> outLen > 0 && (|Decimal(value)| + 1 <= outLen || (outLen == 1 && value <= 9))
    ensures ok ==> out[..|Decimal(value)| + 1] == Decimal(value) + [NUL]
    ensures ok ==> out[|Decimal(value)| + 1..] == old(out[|Decimal(value)| + 1..])
    ensures !ok ==> out[outLen..] == old(out[outLen..])
  {
    if outLen == 0 {
      return false;
    }
    ghost var before := out[..];
    var i;
    ok, i := PrintBackwards(out, outLen, value);
    if !ok {
      return false;
    }
    assert out[i + 2..] == out[i + 1..][1..] == before[i + 2..];
    assert out[..i + 1] == out[..i + 1 + 1][..i + 1];
    Put(out, i + 1, NUL);
    assert out[..i + 1] == out[..i + 2][..i + 1];
    ReversedTwice(Decimal(value));
    assert out[i + 1] == out[..i + 2][i + 1] == NUL;
    assert out[i + 1..] == [out[i + 1]] + out[i + 2..];
    ReversePrefix(out, i);
    assert out[..i + 2] == out[..i + 1] + out[i + 1..][..1];
    assert out[i + 2..] == out[i + 1..][1..];
    return true;
  }

  // ---------------------------------------------------------------- signed numbers

  /** C's `/` and `%` by ten, truncating toward zero. */
  function TruncatedDiv10(n: int): int {
    if n >= 0 then n / 10 else -((-n) / 10)
  }

  function TruncatedMod10(n: int): int {
    n - 10 * TruncatedDiv10(n)
  }

  function Magnitude(n: int): nat {
    if n < 0 then -n else n
  }

  function SignedDecimal(n: int): string {
    if n < 0 then ['-'] + Decimal(-n) else Decimal(n)
  }

  /** `(int)n` for a size. */
  function AsInt32(n: nat): int {
    var low := n % 0x1_0000_0000;
    if low < 0x8000_0000 then low else low - 0x1_0000_0000
  }

  /** A signed number and its notation determine each other. */
  function ParseSigned(s: string): int
    requires |s| > 0 && IsDigits(if s[0] == '-' then s[1..] else s)
  {
    if s[0] == '-' then 0 - Parse(s[1..]) else Parse(s) as int
  }

  lemma SignedRoundTrip(n: int)
    ensures var s := SignedDecimal(n);
            IsDigits(if s[0] == '-' then s[1..] else s) && ParseSigned(s) == n
    ensures -0x8000_0000_0000_0000 <= n < 0x8000_0000_0000_0000 ==> |SignedDecimal(n)| <= 20
  {
    ParseDecimal(Magnitude(n));
    SixtyFourBits(Magnitude(n));
    if n < 0 {
      assert SignedDecimal(n)[1..] == Decimal(-n);
    }
  }

  /** The digit of one round is in range for either sign, and nothing is negated whole. */
  lemma SignedDigit(num: int, sign: int)
    requires num != 0 && (if num < 0 then sign == -1 else sign == 1)
    ensures TruncatedMod10(num) * sign == Magnitude(num) % 10
    ensures Magnitude(TruncatedDiv10(num)) == Magnitude(num) / 10
    ensures TruncatedDiv10(num) != 0 ==> (TruncatedDiv10(num) < 0 <==> num < 0)
  {
  }

  /** The digits of a magnitude, none for zero. */
  function Significant(n: nat): string {
    if n == 0 then [] else Decimal(n)
  }

  lemma SignificantDigitOff(n: nat, digits: string)
    requires n > 0
    ensures Significant(n) + Reversed(digits) == Significant(n / 10) + Reversed(digits + [Digit(n % 10)])
    ensures |Significant(n)| == |Significant(n / 10)| + 1
  {
    assert Reversed(digits + [Digit(n % 10)]) == [Digit(n % 10)] + Reversed(digits);
  }

  /** The digits of either sign, backwards; none for zero. */
  method PrintMagnitude(temp: array<char>, value: int, sign: int) returns (ptr: nat)
    requires |Significant(Magnitude(value))| <= 19 < temp.Length && sign == (if value < 0 then -1 else 1)
    modifies temp
    ensures ptr == |Significant(Magnitude(value))| && temp[..ptr] == Reversed(Significant(Magnitude(value)))
  {
    ghost var whole := Significant(Magnitude(value));
    var num := value;
    ptr := 0;
    while num != 0
      invariant num != 0 ==> (num < 0 <==> sign == -1)
      invariant ptr + |Significant(Magnitude(num))| == |whole|
      invariant Significant(Magnitude(num)) + Reversed(temp[..ptr]) == whole
      decreases Magnitude(num)
    {
      SignedDigit(num, sign);
      SignificantDigitOff(Magnitude(num), temp[..ptr]);
      Put(temp, ptr, ('0' as int + TruncatedMod10(num) * sign) as char);
      ptr := ptr + 1;
      num := TruncatedDiv10(num);
    }
    ReversedTwice(temp[..ptr]);
  }

  /** The notation of a 64-bit value, backwards, in the 21-byte temporary. */
  method PrintSignedBackwards(temp: array<char>, value: int) returns (ptr: nat)
    requires -0x8000_0000_0000_0000 <= value < 0x8000_0000_0000_0000 && temp.Length == 21
    modifies temp
    ensures ptr == |SignedDecimal(value)| <= 20 && temp[..ptr] == Reversed(SignedDecimal(value))
  {
    ghost var whole := Significant(Magnitude(value));
    SixtyFourBits(Magnitude(value));
    var sign := 1;
    if value < 0 {
      sign := -1;
    }
    ptr := PrintMagnitude(temp, value, sign);
    if value < 0 {
      assert Reversed(['-'] + whole) == Reversed(whole) + ['-'];
      Put(temp, ptr, '-');
      ptr := ptr + 1;
    } else if value == 0 {
      assert Reversed("0") == "0";
      Put(temp, ptr, '0');
      ptr := ptr + 1;
    }
  }

  /** The temporary, last cell first, in front of the destination. */
  method CopyBackwards(dst: array<char>, temp: array<char>, length: nat)
    requires length <= dst.Length && length <= temp.Length && dst != temp
    modifies dst
    ensures dst[..length] == Reversed(temp[..length]) && dst[length..] == old(dst[length..])
  {
    ghost var s := Reversed(temp[..length]);
    var ptr, index := length - 1, 0;
    while ptr >= 0
      invariant index == length - 1 - ptr && -1 <= ptr < length
      invariant forall k | 0 <= k < index :: dst[k] == s[k]
      invariant forall k | index <= k < dst.Length :: dst[k] == old(dst[k])
    {
      dst[index] := temp[ptr];
      index := index + 1;
      ptr := ptr - 1;
    }
  }

  /** `format_i64`. */
  method FormatI64(dst: array<char>, dstLen: nat, value: int) returns (ok: bool)
    requires -0x8000_0000_0000_0000 <= value < 0x8000_0000_0000_0000 && dstLen <= dst.Length
    modifies dst
    ensures ok <==> |SignedDecimal(value)| + 1 <= AsInt32(dstLen)
    ensures ok ==> dst[..|SignedDecimal(value)| + 1] == SignedDecimal(value) + [NUL]
    ensures ok ==> dst[|SignedDecimal(value)| + 1..] == old(dst[|SignedDecimal(value)| + 1..])
    ensures !ok ==> dst[..] == old(dst[..])
  {
    var temp := new char[21];
    var length := PrintSignedBackwards(temp, value);
    var distance := length + 1;
    CastNotAbove(dstLen);
    if AsInt32(dstLen) < distance {
      return false;
    }
    ghost var before := dst[..];
    ReversedTwice(SignedDecimal(value));
    CopyBackwards(dst, temp, length);
    assert dst[length + 1..] == dst[length..][1..] == before[length + 1..];
    Put(dst, length, NUL);
    return true;
  }

  lemma CastNotAbove(n: nat)
    ensures AsInt32(n) <= n && (n < 0x8000_0000 ==> AsInt32(n) == n)
    ensures 0x8000_0000 <= n < 0x1_0000_0000 ==> AsInt32(n) < 0
  {
    var q := n / 0x1_0000_0000;
    assert n == 0x1_0000_0000 * q + n % 0x1_0000_0000;
  }

  /** As a comparison with sizes that 32 bits hold. */
  lemma CastExactly(n: nat, k: nat)
    requires n < 0x1_0000_0000 && k > 0
    ensures k <= AsInt32(n) <==> k <= n < 0x8000_0000
  {
    CastNotAbove(n);
  }

  lemma SignedExamples()
    ensures SignedDecimal(-105) == "-105" && SignedDecimal(105) == "105" && SignedDecimal(0) == "0"
  {
    assert Decimal(10) == "10" && Decimal(105) == "105";
  }
}
