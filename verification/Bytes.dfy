/** Byte strings as numbers, and the in-place endian flip of the key derivation. */
module Bytes {
  import Modular


  type byte = x: int | 0 <= x < 256
  type Bytes = seq<byte>
  type uint32 = x: int | 0 <= x < 0x1_0000_0000

  /** Text as bytes. */
  function Ascii(s: string): (b: Bytes)
    requires forall i | 0 <= i < |s| :: s[i] < 128 as char
    ensures |b| == |s|
  {
    seq(|s|, i requires 0 <= i < |s| => s[i] as int)
  }

  // ---------------------------------------------------------------- numbers

  function Pow256(n: nat): (r: nat)
    ensures r > 0
  {
    if n == 0 then 1 else 256 * Pow256(n - 1)
  }

  lemma {:induction false} Pow256Sum(m: nat, n: nat)
    ensures Pow256(m + n) == Pow256(m) * Pow256(n)
  {
    if m > 0 {
      Pow256Sum(m - 1, n);
      assert 256 * (Pow256(m - 1) * Pow256(n)) == Pow256(m) * Pow256(n);
    }
  }

  /** The value with the most significant byte first. */
  function BE(s: Bytes): nat {
    if |s| == 0 then 0 else BE(s[..|s| - 1]) * 256 + s[|s| - 1]
  }

  /** The value with the least significant byte first. */
  function LE(s: Bytes): nat {
    if |s| == 0 then 0 else s[0] + 256 * LE(s[1..])
  }

  /** The `len` low bytes of n, least significant first. */
  function ToLE(n: nat, len: nat): (s: Bytes)
    ensures |s| == len
  {
    if len == 0 then [] else [n % 256] + ToLE(n / 256, len - 1)
  }

  /** The `len` low bytes of n, most significant first. */
  function ToBE(n: nat, len: nat): (s: Bytes)
    ensures |s| == len
  {
    if len == 0 then [] else ToBE(n / 256, len - 1) + [n % 256]
  }

  function Reversed<T>(s: seq<T>): (r: seq<T>)
    ensures |r| == |s| && forall k | 0 <= k < |s| :: r[k] == s[|s| - 1 - k]
  {
    seq(|s|, k requires 0 <= k < |s| => s[|s| - 1 - k])
  }

  lemma ReversedTwice<T>(s: seq<T>)
    ensures Reversed(Reversed(s)) == s
  {
  }

  lemma {:induction false} ReversedValue(s: Bytes)
    ensures BE(Reversed(s)) == LE(s) && LE(Reversed(s)) == BE(s)
  {
    if |s| > 0 {
      assert Reversed(s) == Reversed(s[1..]) + [s[0]];
      assert Reversed(s)[..|s| - 1] == Reversed(s[1..]);
      ReversedValue(s[1..]);
      assert Reversed(s) == [s[|s| - 1]] + Reversed(s[..|s| - 1]);
      assert Reversed(s)[1..] == Reversed(s[..|s| - 1]);
      ReversedValue(s[..|s| - 1]);
    }
  }

  lemma {:induction false} ToBEIsReversedToLE(n: nat, len: nat)
    ensures ToBE(n, len) == Reversed(ToLE(n, len))
  {
    if len > 0 {
      ToBEIsReversedToLE(n / 256, len - 1);
      var t := ToLE(n / 256, len - 1);
      assert Reversed([n % 256] + t) == Reversed(t) + [n % 256];
    }
  }

  lemma {:induction false} LEBound(s: Bytes)
    ensures LE(s) < Pow256(|s|)
  {
    if |s| > 0 {
      LEBound(s[1..]);
    }
  }

  lemma BEBound(s: Bytes)
    ensures BE(s) < Pow256(|s|)
  {
    LEBound(Reversed(s));
    ReversedValue(s);
  }

  /** Reading back what was written. */
  lemma {:induction false} ToLEValue(n: nat, len: nat)
    requires n < Pow256(len)
    ensures LE(ToLE(n, len)) == n
  {
    if len > 0 {
      ToLEValue(n / 256, len - 1);
      assert ToLE(n, len)[1..] == ToLE(n / 256, len - 1);
    }
  }

  /** Four bytes, written out. */
  lemma ToLE4(n: nat)
    ensures ToLE(n, 4) == [n % 0x100, n / 0x100 % 0x100, n / 0x1_0000 % 0x100, n / 0x100_0000 % 0x100]
  {
    var a := n / 256;
    var b := a / 256;
    var c := b / 256;
    assert b == n / 0x1_0000 && c == n / 0x100_0000;
    assert ToLE(c, 1) == [c % 256];
    assert ToLE(b, 2) == [b % 256] + ToLE(c, 1);
    assert ToLE(a, 3) == [a % 256] + ToLE(b, 2);
  }

  lemma ToLE2(n: nat)
    ensures ToLE(n, 1) == [n % 0x100] && ToLE(n, 2) == [n % 0x100, n / 0x100 % 0x100]
  {
    assert ToLE(n / 256, 1) == [n / 256 % 256];
  }

  /** Too large numbers lose their high bytes. */
  lemma {:induction false} ToLEResidue(n: nat, len: nat)
    ensures LE(ToLE(n, len)) == n % Pow256(len)
  {
    if len > 0 {
      ToLEResidue(n / 256, len - 1);
      assert ToLE(n, len)[1..] == ToLE(n / 256, len - 1);
      ResidueByte(n, Pow256(len - 1));
    }
  }

  lemma ResidueByte(n: nat, m: nat)
    requires m > 0
    ensures n % 256 + 256 * (n / 256 % m) == n % (256 * m)
  {
    var q, r := n / 256 / m, n / 256 % m;
    assert n / 256 == q * m + r;
    assert n == q * (256 * m) + (256 * r + n % 256);
    Modular.DivModUnique(n, 256 * m, q, 256 * r + n % 256);
  }

  /** Writing back what was read. */
  lemma {:induction false} LERoundTrip(s: Bytes)
    ensures ToLE(LE(s), |s|) == s
  {
    if |s| > 0 {
      LERoundTrip(s[1..]);
      assert LE(s) % 256 == s[0] && LE(s) / 256 == LE(s[1..]);
      assert s == [s[0]] + s[1..];
    }
  }

  lemma ToBEValue(n: nat, len: nat)
    requires n < Pow256(len)
    ensures BE(ToBE(n, len)) == n
  {
    ToLEValue(n, len);
    ToBEIsReversedToLE(n, len);
    ReversedValue(ToLE(n, len));
  }

  lemma BERoundTrip(s: Bytes)
    ensures ToBE(BE(s), |s|) == s
  {
    LERoundTrip(Reversed(s));
    ReversedValue(s);
    ToBEIsReversedToLE(BE(s), |s|);
    ReversedTwice(s);
  }

  lemma {:induction false} LEConcat(s: Bytes, t: Bytes)
    ensures LE(s + t) == LE(s) + Pow256(|s|) * LE(t)
  {
    if |s| == 0 {
      assert s + t == t;
    } else {
      LEConcat(s[1..], t);
      assert (s + t)[1..] == s[1..] + t;
      assert 256 * (Pow256(|s| - 1) * LE(t)) == Pow256(|s|) * LE(t);
    }
  }

  lemma {:induction false} BEConcat(s: Bytes, t: Bytes)
    ensures BE(s + t) == BE(s) * Pow256(|t|) + BE(t)
  {
    if |t| == 0 {
      assert s + t == s;
    } else {
      var u := t[..|t| - 1];
      BEConcat(s, u);
      assert (s + t)[..|s + t| - 1] == s + u;
      assert (BE(s) * Pow256(|u|)) * 256 == BE(s) * Pow256(|t|);
    }
  }

  // ---------------------------------------------------------------- buffers

  /** s with t written over it from offset `at` on. */
  function Splice<T>(s: seq<T>, at: nat, t: seq<T>): (r: seq<T>)
    requires at + |t| <= |s|
    ensures |r| == |s|
  {
    s[..at] + t + s[at + |t|..]
  }

  /** `memcpy` and `memmove` from bytes already read. */
  method WriteAt<T>(buffer: array<T>, at: nat, data: seq<T>)
    requires at + |data| <= buffer.Length
    modifies buffer
    ensures buffer[..] == Splice(old(buffer[..]), at, data)
  {
    for k := 0 to |data|
      invariant buffer[..] == Splice(old(buffer[..]), at, data[..k])
    {
      SpliceStep(old(buffer[..]), at, data, k);
      buffer[at + k] := data[k];
    }
    assert data[..|data|] == data;
  }

  lemma SpliceStep<T>(s: seq<T>, at: nat, t: seq<T>, k: nat)
    requires at + |t| <= |s| && k < |t|
    ensures Splice(s, at, t[..k])[at + k := t[k]] == Splice(s, at, t[..k + 1])
  {
    assert t[..k + 1] == t[..k] + [t[k]];
  }

  // ---------------------------------------------------------------- be2le

  /** Where position k of a flipped string of length n reads from. */
  function FlipIndex(n: nat, k: nat): (j: nat)
    requires k < n
    ensures j < n
  {
    if n % 2 == 0 || k == 0 || k == n - 1 then n - 1 - k else k
  }

  /** What `be2le` leaves: a reversal for even lengths; for odd lengths the inner
      bytes are swapped twice, so only the two ends trade places. */
  function Flipped(s: Bytes): (r: Bytes)
    ensures |r| == |s|
  {
    seq(|s|, k requires 0 <= k < |s| => s[FlipIndex(|s|, k)])
  }

  /** Positions whose own turn in the loop has come, at loop index i. */
  predicate Turned(k: int, i: int) {
    k % 2 == 0 && k < i
  }

  /** Where position k reads from at loop index i: its mirror after one turn, itself after two. */
  function Source(n: nat, i: int, k: nat): (j: nat)
    requires k < n
    ensures j < n
  {
    if Turned(k, i) != Turned(n - 1 - k, i) then n - 1 - k else k
  }

  /** The buffer as the loop leaves it at index i. */
  function Turning(whole: Bytes, off: nat, n: nat, i: int): (r: Bytes)
    requires off + n <= |whole|
    ensures |r| == |whole|
  {
    seq(|whole|, k requires 0 <= k < |whole| =>
      if off <= k < off + n then whole[off + Source(n, i, k - off)] else whole[k])
  }

  function SwapCells<T>(s: seq<T>, i: nat, j: nat): seq<T>
    requires i < |s| && j < |s|
  {
    s[i := s[j]][j := s[i]]
  }

  /** A round of the loop swaps two positions. */
  lemma TurningStep(whole: Bytes, off: nat, n: nat, i: nat, j: int)
    requires off + n <= |whole| && i % 2 == 0 && i < n - 1 && j == n - 1 - i
    ensures SwapCells(Turning(whole, off, n, i), off + i, off + j) == Turning(whole, off, n, i + 2)
  {
    var before, after := Turning(whole, off, n, i), Turning(whole, off, n, i + 2);
    SourceStep(n, i);
    forall k | 0 <= k < |whole|
      ensures SwapCells(before, off + i, off + j)[k] == after[k]
    {
      if k == off + i {
      } else if k == off + j {
      } else if off <= k < off + n {
        assert Source(n, i + 2, k - off) == Source(n, i, k - off);
      }
    }
  }

  /** A round of the loop exchanges the sources of the two positions it swaps. */
  lemma SourceStep(n: nat, i: nat)
    requires i % 2 == 0 && i < n - 1
    ensures Source(n, i + 2, i) == Source(n, i, n - 1 - i) && Source(n, i + 2, n - 1 - i) == Source(n, i, i)
    ensures forall k | 0 <= k < n && k != i && k != n - 1 - i :: Source(n, i + 2, k) == Source(n, i, k)
  {
  }

  lemma TurningEnds(whole: Bytes, off: nat, n: nat)
    requires off + n <= |whole|
    ensures Turning(whole, off, n, 0) == whole
    ensures Turning(whole, off, n, 2 * (n / 2)) == Splice(whole, off, Flipped(whole[off..off + n]))
  {
    var start, end, s := Turning(whole, off, n, 0), Turning(whole, off, n, 2 * (n / 2)), whole[off..off + n];
    forall k | 0 <= k < |whole|
      ensures start[k] == whole[k]
    {
      if off <= k < off + n {
        assert Source(n, 0, k - off) == k - off;
      }
    }
    forall k | 0 <= k < |whole|
      ensures end[k] == Splice(whole, off, Flipped(s))[k]
    {
      if off <= k < off + n {
        assert Source(n, 2 * (n / 2), k - off) == FlipIndex(n, k - off);
        assert Flipped(s)[k - off] == s[FlipIndex(n, k - off)];
      }
    }
  }

  method Swap<T>(v: array<T>, i: nat, j: nat)
    requires i < v.Length && j < v.Length
    modifies v
    ensures v[..] == SwapCells(old(v[..]), i, j)
  {
    var t := v[i];
    v[i] := v[j];
    v[j] := t;
  }

  /** `be2le` and `le2be`: one swap a round, while the index advances by two. */
  method Be2Le(v: array<byte>, off: nat, length: nat)
    requires off + length <= v.Length
    modifies v
    ensures v[..] == Splice(old(v[..]), off, Flipped(old(v[..])[off..off + length]))
  {
    ghost var whole := v[..];
    TurningEnds(whole, off, length);
    var i, j, len := 0, length - 1, length / 2;
    while len > 0
      invariant 0 <= len && i == 2 * (length / 2 - len) && j == length - 1 - i
      invariant v[..] == Turning(whole, off, length, i)
    {
      TurningStep(whole, off, length, i, j);
      Swap(v, off + i, off + j);
      assert v[..] == Turning(whole, off, length, i + 2);
      i := i + 2;
      j := j - 2;
      len := len - 1;
    }
    assert i == 2 * (length / 2);
  }

  /** The flip is a reversal of every string of length n exactly for even n and n <= 3. */
  lemma FlipReversesExactly(n: nat)
    ensures (forall s: Bytes | |s| == n :: Flipped(s) == Reversed(s)) <==> n % 2 == 0 || n <= 3
  {
    if n % 2 == 0 || n <= 3 {
      forall s: Bytes | |s| == n ensures Flipped(s) == Reversed(s) {
        assert forall k | 0 <= k < n :: Flipped(s)[k] == Reversed(s)[k];
      }
    } else {
      var s: Bytes := seq(n, k => if k == 1 then 1 else 0);
      assert Flipped(s)[1] == 1 && Reversed(s)[1] == s[n - 2] == 0;
    }
  }

  /** Byte for byte: at odd lengths only the two ends trade places. */
  lemma FlippedBytes(s: Bytes, k: nat)
    requires k < |s|
    ensures |s| % 2 == 0 ==> Flipped(s)[k] == s[|s| - 1 - k]
    ensures |s| % 2 == 1 ==>
        Flipped(s)[k] == if k == 0 then s[|s| - 1] else if k == |s| - 1 then s[0] else s[k]
  {
  }

  /** It undoes itself at every length. */
  lemma FlippedTwice(s: Bytes)
    ensures Flipped(Flipped(s)) == s
  {
  }

  /** At even lengths it exchanges the two readings of the bytes. */
  lemma FlippedValue(s: Bytes)
    requires |s| % 2 == 0
    ensures Flipped(s) == Reversed(s) && BE(Flipped(s)) == LE(s) && LE(Flipped(s)) == BE(s)
  {
    ReversedValue(s);
    FlipReversesExactly(|s|);
  }
}
