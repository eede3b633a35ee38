/** The decimal scan of a wallet's derivation path, and the key inputs it leads to. */
module PathScan {
  import opened Bytes
  import opened Decimals
  import Modular

  const WORD: nat := 0x1_0000_0000

  const SLASH: byte := 47
  const QUOTE: byte := 39

  predicate IsDigitByte(b: byte) {
    48 <= b <= 57
  }

  predicate AllDigits(s: Bytes) {
    forall i | 0 <= i < |s| :: IsDigitByte(s[i])
  }

  // ---------------------------------------------------------------- what a path says

  function Slashes(s: Bytes): nat {
    if |s| == 0 then 0 else Slashes(s[..|s| - 1]) + (if s[|s| - 1] == SLASH then 1 else 0)
  }

  /** The digits of the k-th part between slashes. */
  function Part(s: Bytes, k: nat): (d: Bytes)
    ensures AllDigits(d)
  {
    if |s| == 0 then []
    else
      var (init, last) := (s[..|s| - 1], s[|s| - 1]);
      Part(init, k) + (if IsDigitByte(last) && Slashes(init) == k then [last] else [])
  }

  function Number(d: Bytes): nat
    requires AllDigits(d)
  {
    if |d| == 0 then 0 else 10 * Number(d[..|d| - 1]) + (d[|d| - 1] - 48)
  }

  function DigitSum(d: Bytes): nat
    requires AllDigits(d)
  {
    if |d| == 0 then 0 else DigitSum(d[..|d| - 1]) + (d[|d| - 1] - 48)
  }

  // ---------------------------------------------------------------- the scan

  /** What one digit does to coin type, account and index. The part counter is 0, 2,
      4 and so on, so the second branch is dead and the third one, which adds to the
      account what it should add to the index, reads the second part. */
  function AddDigit(ix: byte, coinType: uint32, account: uint32, addressIndex: uint32, d: nat)
    : (uint32, uint32, uint32)
  {
    if ix == 0 then ((coinType * 10 % WORD + d) % WORD, account, addressIndex)
    else if ix == 1 then (coinType, (account * 10 % WORD + d) % WORD, addressIndex)
    else if ix == 2 then (coinType, (account + d) % WORD, addressIndex * 10 % WORD)
    else (coinType, account, addressIndex)
  }

  /** What the scan keeps after the characters t. */
  ghost predicate ScanHolds(t: Bytes, ix: int, coinType: int, account: int) {
    && Slashes(t) <= |t| && ix == 2 * Slashes(t)
    && coinType == Number(Part(t, 0)) % WORD
    && account == DigitSum(Part(t, 1)) <= 9 * |t|
  }

  /** The scan of the characters after "m/", for every text short enough for its
      8-bit part counter not to wrap: the coin type is the number of the first part
      in 32 bits, the account the digit sum (not the number) of the second part, and
      the index 0. */
  method Scan(s: Bytes) returns (coinType: uint32, account: uint32, addressIndex: uint32)
    requires |s| < 128
    ensures coinType == Number(Part(s, 0)) % WORD && account == DigitSum(Part(s, 1)) && addressIndex == 0
  {
    coinType, account, addressIndex := 0, 0, 0;
    var ix: byte := 0;
    for x := 0 to |s|
      invariant ScanHolds(s[..x], ix, coinType, account) && addressIndex == 0
    {
      assert s[..x + 1] == s[..x] + [s[x]];
      ScanRound(s[..x], s[x], s[..x + 1], ix, coinType, account);
      if s[x] == SLASH {
        ix := ix + 2;
      } else if IsDigitByte(s[x]) {
        var next := AddDigit(ix, coinType, account, addressIndex, s[x] - 48);
        coinType, account, addressIndex := next.0, next.1, next.2;
      }
    }
    assert s[..|s|] == s;
  }

  /** One more character keeps it. */
  lemma ScanRound(t: Bytes, b: byte, u: Bytes, ix: byte, coinType: uint32, account: uint32)
    requires |t| < 128 && ScanHolds(t, ix, coinType, account) && u == t + [b]
    ensures b == SLASH ==> ScanHolds(u, ix + 2, coinType, account)
    ensures b != SLASH && !IsDigitByte(b) ==> ScanHolds(u, ix, coinType, account)
    ensures IsDigitByte(b) ==>
        var next := AddDigit(ix, coinType, account, 0, b - 48);
        ScanHolds(u, ix, next.0, next.1) && next.2 == 0
  {
    if IsDigitByte(b) {
      DigitRound(t, b, u, ix, coinType, account);
    } else {
      OtherRound(t, b, u);
    }
  }

  lemma OtherRound(t: Bytes, b: byte, u: Bytes)
    requires u == t + [b] && !IsDigitByte(b)
    ensures Part(u, 0) == Part(t, 0) && Part(u, 1) == Part(t, 1) && |u| == |t| + 1
    ensures Slashes(u) == Slashes(t) + (if b == SLASH then 1 else 0)
  {
    SlashesAppend(t, b);
    PartAppend(t, b, 0);
    PartAppend(t, b, 1);
  }

  lemma DigitRound(t: Bytes, b: byte, u: Bytes, ix: byte, coinType: uint32, account: uint32)
    requires |t| < 128 && ScanHolds(t, ix, coinType, account) && u == t + [b] && IsDigitByte(b)
    ensures var next := AddDigit(ix, coinType, account, 0, b - 48); ScanHolds(u, ix, next.0, next.1) && next.2 == 0
  {
    var first, second := Part(t, 0), Part(t, 1);
    AddDigitMeaning(ix, coinType, account, first, second, b);
    DigitPart(t, b, u, 0);
    DigitPart(t, b, u, 1);
  }

  lemma DigitPart(t: Bytes, b: byte, u: Bytes, k: nat)
    requires u == t + [b] && IsDigitByte(b)
    ensures Slashes(u) == Slashes(t) && |u| == |t| + 1
    ensures Part(u, k) == if Slashes(t) == k then Part(t, k) + [b] else Part(t, k)
  {
    SlashesAppend(t, b);
    PartAppend(t, b, k);
  }

  /** At an even part counter a digit extends the first number or the second digit sum. */
  lemma AddDigitMeaning(ix: byte, coinType: uint32, account: uint32, first: Bytes, second: Bytes, b: byte)
    requires ix % 2 == 0 && IsDigitByte(b) && AllDigits(first) && AllDigits(second)
    requires coinType == Number(first) % WORD && account == DigitSum(second) < 9 * 128
    ensures AllDigits(first + [b]) && AllDigits(second + [b])
    ensures var next := AddDigit(ix, coinType, account, 0, b - 48);
            && next.0 == Number(if ix == 0 then first + [b] else first) % WORD
            && next.1 == DigitSum(if ix == 2 then second + [b] else second) <= account + 9
            && next.2 == 0
  {
    NumberAppend(first, b);
    NumberAppend(second, b);
    if ix == 0 {
      WordHorner(Number(first), b - 48);
    } else if ix == 2 {
      Modular.SmallMod(account + (b - 48), WORD);
    }
    Modular.SmallMod(0, WORD);
  }

  lemma SlashesAppend(t: Bytes, b: byte)
    ensures Slashes(t + [b]) == Slashes(t) + (if b == SLASH then 1 else 0)
  {
    assert (t + [b])[..|t|] == t;
  }

  lemma PartAppend(t: Bytes, b: byte, k: nat)
    ensures Part(t + [b], k) == if IsDigitByte(b) && Slashes(t) == k then Part(t, k) + [b] else Part(t, k)
  {
    assert (t + [b])[..|t|] == t;
  }

  lemma NumberAppend(d: Bytes, b: byte)
    requires AllDigits(d) && IsDigitByte(b)
    ensures AllDigits(d + [b])
    ensures Number(d + [b]) == 10 * Number(d) + (b - 48)
    ensures DigitSum(d + [b]) == DigitSum(d) + (b - 48)
  {
    assert (d + [b])[..|d|] == d;
  }

  lemma WordHorner(n: nat, d: nat)
    ensures (n % WORD * 10 % WORD + d) % WORD == (10 * n + d) % WORD
  {
    Modular.CongruentMod(n, WORD);
    Modular.CongruentMod(n % WORD * 10, WORD);
    Modular.DividesCombination(WORD, n % WORD * 10 % WORD - n % WORD * 10, n % WORD - n, 1, 10);
    Modular.CongruentIffSameMod(n % WORD * 10 % WORD + d, 10 * n + d, WORD);
  }

  // ---------------------------------------------------------------- printed paths

  /** The canonical digits as bytes. */
  function Digits(n: nat): (d: Bytes)
    ensures AllDigits(d) && |d| == |Decimal(n)|
  {
    Ascii(Decimal(n))
  }

  /** coin_type'/account'/address_index' as a wallet prints it after "m/". */
  function PrintedTail(c: nat, a: nat, i: nat): Bytes {
    Digits(c) + [QUOTE] + [SLASH] + Digits(a) + [QUOTE] + [SLASH] + Digits(i) + [QUOTE]
  }

  function PrintedPath(c: nat, a: nat, i: nat): Bytes {
    Ascii("m/") + PrintedTail(c, a, i)
  }

  lemma {:induction false} DigitsNumber(n: nat)
    ensures Number(Digits(n)) == n
  {
    if n >= 10 {
      DigitsNumber(n / 10);
      assert Digits(n) == Digits(n / 10) + [48 + n % 10];
      NumberAppend(Digits(n / 10), 48 + n % 10);
    } else {
      assert Digits(n) == [] + [48 + n];
      NumberAppend([], 48 + n);
    }
  }

  /** A run of digits belongs to the current part and to no other. */
  lemma {:induction false} PartDigits(t: Bytes, d: Bytes, k: nat, u: Bytes)
    requires AllDigits(d) && u == t + d
    ensures Slashes(u) == Slashes(t)
    ensures Part(u, k) == if Slashes(t) == k then Part(t, k) + d else Part(t, k)
    decreases |d|
  {
    if |d| == 0 {
      assert u == t;
    } else {
      var init, last := d[..|d| - 1], d[|d| - 1];
      var v := t + init;
      PartDigits(t, init, k, v);
      assert u == v + [last];
      DigitPart(v, last, u, k);
      RunEnds(Part(t, k), init, last, d);
    }
  }

  lemma RunEnds(p: Bytes, init: Bytes, last: byte, d: Bytes)
    requires |d| > 0 && init == d[..|d| - 1] && last == d[|d| - 1]
    ensures (p + init) + [last] == p + d
  {
  }

  lemma PartSeparator(t: Bytes, k: nat)
    ensures Slashes(t + [QUOTE] + [SLASH]) == Slashes(t) + 1 && Part(t + [QUOTE] + [SLASH], k) == Part(t, k)
    ensures Part(t + [QUOTE], k) == Part(t, k)
  {
    SlashesAppend(t, QUOTE);
    PartAppend(t, QUOTE, k);
    SlashesAppend(t + [QUOTE], SLASH);
    PartAppend(t + [QUOTE], SLASH, k);
  }

  /** A part and the separator after it: what the parts gain. */
  lemma PartThenSeparator(t: Bytes, d: Bytes, k: nat, u: Bytes)
    requires AllDigits(d) && u == t + d + [QUOTE] + [SLASH]
    ensures Slashes(u) == Slashes(t) + 1 && Part(u, k) == if Slashes(t) == k then Part(t, k) + d else Part(t, k)
  {
    PartDigits(t, d, k, t + d);
    PartSeparator(t + d, k);
  }

  /** The parts of a printed path are its three numbers. */
  lemma PrintedPart(c: nat, a: nat, i: nat, k: nat)
    requires k <= 2
    ensures Part(PrintedTail(c, a, i), k) == if k == 0 then Digits(c) else if k == 1 then Digits(a) else Digits(i)
  {
    ThreeParts(Digits(c), Digits(a), Digits(i), k, PrintedTail(c, a, i));
  }

  lemma ThreeParts(x: Bytes, y: Bytes, z: Bytes, k: nat, s: Bytes)
    requires AllDigits(x) && AllDigits(y) && AllDigits(z) && k <= 2
    requires s == x + [QUOTE] + [SLASH] + y + [QUOTE] + [SLASH] + z + [QUOTE]
    ensures Part(s, k) == if k == 0 then x else if k == 1 then y else z
  {
    var t := x + [QUOTE] + [SLASH] + y + [QUOTE] + [SLASH];
    TwoParts(x, y, k, t);
    assert s == t + z + [QUOTE];
    LastPart(t, z, k, s);
    assert [] + z == z;
  }

  lemma TwoParts(x: Bytes, y: Bytes, k: nat, t: Bytes)
    requires AllDigits(x) && AllDigits(y) && t == x + [QUOTE] + [SLASH] + y + [QUOTE] + [SLASH]
    ensures Slashes(t) == 2 && Part(t, k) == if k == 0 then x else if k == 1 then y else []
  {
    var u := x + [QUOTE] + [SLASH];
    OnePart(x, k, u);
    PartThenSeparator(u, y, k, t);
    NothingBefore(y);
  }

  lemma NothingBefore(y: Bytes)
    ensures [] + y == y
  {
  }

  lemma OnePart(x: Bytes, k: nat, u: Bytes)
    requires AllDigits(x) && u == x + [QUOTE] + [SLASH]
    ensures Slashes(u) == 1 && Part(u, k) == if k == 0 then x else []
  {
    assert u == [] + x + [QUOTE] + [SLASH];
    PartThenSeparator([], x, k, u);
    assert [] + x == x;
  }

  lemma LastPart(t: Bytes, z: Bytes, k: nat, s: Bytes)
    requires AllDigits(z) && s == t + z + [QUOTE]
    ensures Part(s, k) == if Slashes(t) == k then Part(t, k) + z else Part(t, k)
  {
    PartDigits(t, z, k, t + z);
    PartSeparator(t + z, k);
  }

  lemma {:induction false} DigitSumBound(d: Bytes)
    requires AllDigits(d)
    ensures DigitSum(d) <= 9 * |d| && DigitSum(d) <= Number(d)
    ensures |d| >= 2 && d[0] != 48 ==> DigitSum(d) < Number(d)
  {
    if |d| > 0 {
      DigitSumBound(d[..|d| - 1]);
      if |d| == 2 {
        assert d[..1][..0] == [];
        assert Number(d[..1]) == 10 * Number(d[..1][..0]) + (d[0] - 48);
      }
    }
  }

  /** A number equals its digit sum exactly below ten. */
  lemma DigitSumExactly(a: nat)
    ensures DigitSum(Digits(a)) == a <==> a <= 9
  {
    DigitsNumber(a);
    DigitSumBound(Digits(a));
    DecimalCanonical(a);
    DigitCount(a, 1);
    if a <= 9 {
      assert Digits(a) == [] + [48 + a];
      NumberAppend([], 48 + a);
    }
  }

  /** On every printed path with 32-bit components the scan yields the coin type, the
      digit sum of the account, and 0; so it reads the path as meant exactly when the
      account has one digit and the index is 0. */
  lemma ScanOfPrinted(c: uint32, a: uint32, i: uint32, s: Bytes)
    requires s == PrintedTail(c, a, i)
    ensures Number(Part(s, 0)) % WORD == c && Number(Part(s, 1)) % WORD == a && Number(Part(s, 2)) % WORD == i
    ensures (Number(Part(s, 0)) % WORD, DigitSum(Part(s, 1)), 0) == (c, a, i) <==> a <= 9 && i == 0
  {
    PrintedNumber(c, c, a, i, 0);
    PrintedNumber(a, c, a, i, 1);
    PrintedNumber(i, c, a, i, 2);
    PrintedPart(c, a, i, 1);
    DigitSumExactly(a);
  }

  lemma PrintedNumber(n: uint32, c: uint32, a: uint32, i: uint32, k: nat)
    requires k <= 2 && n == (if k == 0 then c else if k == 1 then a else i)
    ensures Number(Part(PrintedTail(c, a, i), k)) % WORD == n
  {
    PrintedPart(c, a, i, k);
    DigitsNumber(n);
    Modular.SmallMod(n, WORD);
  }

  /** Two different accounts can lead to the same keys: 1 and 10 do. */
  lemma AccountsCollide()
    ensures DigitSum(Part(PrintedTail(650, 1, 0), 1)) == DigitSum(Part(PrintedTail(650, 10, 0), 1))
  {
    assert Digits(1) == [49] && Digits(10) == [49] + [48];
    NumberAppend([], 49);
    assert [] + [49] == [49];
    NumberAppend([49], 48);
    PrintedPart(650, 1, 0, 1);
    PrintedPart(650, 10, 0, 1);
  }

  /** The path m/650'/12'/3' in bytes. */
  lemma PathInBytes()
    ensures PrintedPath(650, 12, 3) == [109, 47, 54, 53, 48, 39, 47, 49, 50, 39, 47, 51, 39]
    ensures PrintedTail(650, 12, 3) == [54, 53, 48, 39, 47, 49, 50, 39, 47, 51, 39]
  {
    DigitsInBytes();
    assert Ascii("m/") == [109, 47];
  }

  lemma DigitsInBytes()
    ensures Digits(650) == [54, 53, 48] && Digits(12) == [49, 50] && Digits(3) == [51]
  {
    assert Decimal(6) == "6" && Decimal(65) == "65" && Decimal(650) == "650";
    assert Decimal(1) == "1" && Decimal(12) == "12";
  }

  /** It scans to coin type 650, account 1 + 2, index 0. */
  lemma PathInBytesScans(s: Bytes)
    requires s == [54, 53, 48, 39, 47, 49, 50, 39, 47, 51, 39]
    ensures Number(Part(s, 0)) == 650 && DigitSum(Part(s, 1)) == 3
  {
    PathInBytes();
    PrintedPart(650, 12, 3, 0);
    PrintedPart(650, 12, 3, 1);
    DigitsNumber(650);
    DigitsInBytes();
    assert [49, 50][..1] == [49] && [49][..0] == [];
    assert DigitSum([49]) == 1;
  }
}
