/** The Python client's transaction codec: varints and a stream cursor. */
module Transactions {
  import opened Wrappers
  import opened Bytes

  const UINT16_MAX: nat := 65535
  const UINT32_MAX: nat := 4294967295
  const UINT64_MAX: nat := 18446744073709551615

  // ---------------------------------------------------------------- varints

  function WriteVarint(n: nat): Result<Bytes> {
    if n < 0xFC then Ok(ToLE(n, 1))
    else if n <= UINT16_MAX then Ok([0xFD] + ToLE(n, 2))
    else if n <= UINT32_MAX then Ok([0xFE] + ToLE(n, 4))
    else if n <= UINT64_MAX then Ok([0xFF] + ToLE(n, 8))
    else Err(BadValue)
  }

  /** How many bytes the number has, by its first byte. */
  function VarintWidth(first: byte): nat {
    if first == 0xFD then 2 else if first == 0xFE then 4 else if first == 0xFF then 8 else 1
  }

  /** A varint off the front of what is left of a stream, and what is left then. */
  function TakeVarint(s: Bytes): Result<(nat, Bytes)> {
    if |s| == 0 then Err(BadValue)
    else
      var n := VarintWidth(s[0]);
      if n == 1 then Ok((s[0], s[1..]))
      else if |s| - 1 < n then Err(BadValue)
      else Ok((LE(s[1..1 + n]), s[1 + n..]))
  }

  lemma Powers()
    ensures Pow256(1) == 0x100 && Pow256(2) == 0x1_0000 && Pow256(4) == 0x1_0000_0000
        && Pow256(8) == 0x1_0000_0000_0000_0000
  {
    Pow256Sum(1, 1);
    Pow256Sum(2, 2);
    Pow256Sum(4, 4);
  }

  lemma TakeWide(first: byte, body: Bytes, rest: Bytes, n: nat)
    requires VarintWidth(first) == |body| > 1 && LE(body) == n
    ensures TakeVarint([first] + body + rest) == Ok((n, rest))
  {
    var s := [first] + body + rest;
    assert s[1..1 + |body|] == body && s[1 + |body|..] == rest;
  }

  /** Reading undoes writing at all four widths, and leaves the following bytes. */
  lemma VarintRoundTrip(n: nat, rest: Bytes)
    ensures WriteVarint(n).Ok? <==> n <= UINT64_MAX
    ensures n <= UINT64_MAX ==> TakeVarint(WriteVarint(n).value + rest) == Ok((n, rest))
  {
    Powers();
    if n < 0xFC {
      assert ToLE(n, 1) == [n % 256] + ToLE(n / 256, 0);
      assert (ToLE(n, 1) + rest)[1..] == rest;
    } else if n <= UINT16_MAX {
      ToLEValue(n, 2);
      TakeWide(0xFD, ToLE(n, 2), rest, n);
    } else if n <= UINT32_MAX {
      ToLEValue(n, 4);
      TakeWide(0xFE, ToLE(n, 4), rest, n);
    } else if n <= UINT64_MAX {
      ToLEValue(n, 8);
      TakeWide(0xFF, ToLE(n, 8), rest, n);
    }
  }

  /** The four forms in bytes: low byte first after FD, FE and FF. */
  lemma VarintInBytes(n: nat, body: Bytes)
    ensures n < 0xFC ==> WriteVarint(n) == Ok([n])
    ensures 0xFC <= n < 0x1_0000 ==> WriteVarint(n) == Ok([0xFD] + [n % 0x100, n / 0x100])
    ensures 0x1_0000 <= n < 0x1_0000_0000 ==>
        WriteVarint(n) == Ok([0xFE] + [n % 0x100, n / 0x100 % 0x100, n / 0x1_0000 % 0x100, n / 0x100_0000])
    ensures 0x1_0000_0000 <= n < 0x1_0000_0000_0000_0000 && |body| == 8 && LE(body) == n ==>
        WriteVarint(n) == Ok([0xFF] + body)
    ensures n >= 0x1_0000_0000_0000_0000 ==> WriteVarint(n) == Err(BadValue)
  {
    if n < 0x1_0000 {
      ToLE2(n);
    } else if n < 0x1_0000_0000 {
      ToLE4(n);
    } else {
      LERoundTrip(body);
    }
  }

  /** The widths `write_varint` picks. */
  predicate Shortest(first: byte, n: nat) {
    if first == 0xFD then n >= 0xFC
    else if first == 0xFE then n > UINT16_MAX
    else if first == 0xFF then n > UINT32_MAX
    else first != 0xFC
  }

  /** Writing undoes reading exactly for the widths the writer picks: longer forms,
      and the one-byte FC, are read but never written. */
  lemma VarintCanonicalExactly(s: Bytes)
    requires TakeVarint(s).Ok?
    ensures var (n, rest) := TakeVarint(s).value;
            n <= UINT64_MAX && (WriteVarint(n).value + rest == s <==> Shortest(s[0], n))
  {
    Powers();
    var n, rest := TakeVarint(s).value.0, TakeVarint(s).value.1;
    var w := VarintWidth(s[0]);
    if w == 1 {
      assert s == [s[0]] + rest;
      assert ToLE(n, 1) == [n % 256] + ToLE(n / 256, 0);
      if n == 0xFC {
        assert (WriteVarint(n).value + rest)[0] == 0xFD;
      }
    } else {
      var body := s[1..1 + w];
      LEBound(body);
      LERoundTrip(body);
      assert s == [s[0]] + body + rest;
      if Shortest(s[0], n) {
        assert WriteVarint(n).value == [s[0]] + ToLE(n, w);
      } else {
        assert (WriteVarint(n).value + rest)[0] == WriteVarint(n).value[0] != s[0];
      }
    }
  }

  // ---------------------------------------------------------------- transactions

  /** nonce, to, value and the ASCII bytes of the memo. */
  datatype Transaction = Transaction(nonce: nat, to: Bytes, value: nat, memo: Bytes)

  predicate IsAscii(s: Bytes) {
    forall i | 0 <= i < |s| :: s[i] < 0x80
  }

  /** What the constructor lets through. */
  predicate Valid(t: Transaction) {
    t.nonce <= UINT64_MAX && t.value <= UINT64_MAX && |t.to| == 20 && IsAscii(t.memo)
  }

  function Serialize(t: Transaction): Result<Bytes> {
    var length :- WriteVarint(|t.memo|);
    Ok(ToBE(t.nonce, 8) + t.to + ToBE(t.value, 8) + length + t.memo)
  }

  /** A transaction off the front of a stream, and what is left then. */
  function Take(s: Bytes): Result<(Transaction, Bytes)> {
    if |s| < 36 then Err(BadValue)
    else
      var v :- TakeVarint(s[36..]);
      if |v.1| < v.0 || !IsAscii(v.1[..v.0]) then Err(BadValue)
      else Ok((Transaction(BE(s[..8]), s[8..28], BE(s[28..36]), v.1[..v.0]), v.1[v.0..]))
  }

  /** `from_bytes` undoes `serialize` for every valid transaction whose memo length a
      varint can hold, and leaves the following bytes unread. */
  lemma TransactionRoundTrip(t: Transaction, rest: Bytes)
    requires Valid(t)
    ensures Serialize(t).Ok? <==> |t.memo| <= UINT64_MAX
    ensures Serialize(t).Ok? ==> Take(Serialize(t).value + rest) == Ok((t, rest))
  {
    VarintRoundTrip(|t.memo|, t.memo + rest);
    if Serialize(t).Ok? {
      Powers();
      ToBEValue(t.nonce, 8);
      ToBEValue(t.value, 8);
      var length := WriteVarint(|t.memo|).value;
      FixedFields(ToBE(t.nonce, 8), t.to, ToBE(t.value, 8), length + t.memo + rest);
      var s := ToBE(t.nonce, 8) + t.to + ToBE(t.value, 8) + (length + t.memo + rest);
      assert Serialize(t).value + rest == s;
      assert length + t.memo + rest == length + (t.memo + rest);
      assert (t.memo + rest)[..|t.memo|] == t.memo && (t.memo + rest)[|t.memo|..] == rest;
    }
  }

  /** The stream form byte for byte: 8 bytes nonce and 8 bytes value, high byte first, around the
      20-byte address, then the memo's length and the memo. */
  lemma SerializeInBytes(nonce: Bytes, to: Bytes, value: Bytes, length: Bytes, memo: Bytes)
    requires |nonce| == 8 && |to| == 20 && |value| == 8 && WriteVarint(|memo|) == Ok(length)
    ensures Serialize(Transaction(BE(nonce), to, BE(value), memo)) == Ok(nonce + to + value + length + memo)
  {
    BERoundTrip(nonce);
    BERoundTrip(value);
  }

  /** It is read back exactly when every byte of the memo is below 80. */
  lemma TakeInBytes(nonce: Bytes, to: Bytes, value: Bytes, length: Bytes, memo: Bytes, rest: Bytes)
    requires |nonce| == 8 && |to| == 20 && |value| == 8 && WriteVarint(|memo|) == Ok(length)
    ensures Take(nonce + to + value + (length + (memo + rest)))
         == if forall i | 0 <= i < |memo| :: memo[i] < 0x80 then Ok((Transaction(BE(nonce), to, BE(value), memo), rest))
            else Err(BadValue)
  {
    VarintRoundTrip(|memo|, memo + rest);
    FixedFields(nonce, to, value, length + (memo + rest));
    assert (memo + rest)[..|memo|] == memo && (memo + rest)[|memo|..] == rest;
  }

  lemma FixedFields(a: Bytes, b: Bytes, c: Bytes, d: Bytes)
    requires |a| == 8 && |b| == 20 && |c| == 8
    ensures var s := a + b + c + d;
            s[..8] == a && s[8..28] == b && s[28..36] == c && s[36..] == d
  {
  }

  // ---------------------------------------------------------------- the stream

  /** A BytesIO: the data and a read position. */
  class Stream {
    const data: Bytes
    var pos: nat

    constructor (data: Bytes)
      ensures Rest() == data
    {
      this.data := data;
      pos := 0;
    }

    /** What has not been read yet. */
    function Rest(): Bytes
      reads this
    {
      if pos <= |data| then data[pos..] else []
    }

    /** `BytesIO.read`: as many bytes as there are, up to `size`. */
    method ReadUpTo(size: nat) returns (b: Bytes)
      modifies this
      ensures b == (if size <= |old(Rest())| then old(Rest())[..size] else old(Rest()))
      ensures Rest() == old(Rest())[|b|..]
    {
      var rest := Rest();
      b := if size <= |rest| then rest[..size] else rest;
      if pos <= |data| {
        assert data[pos + |b|..] == rest[|b|..];
      }
      pos := pos + |b|;
    }

    /** `read`: exactly `size` bytes; a short stream raises, after being read to its end. */
    method Read(size: nat) returns (r: Result<Bytes>)
      modifies this
      ensures r.Ok? <==> |old(Rest())| >= size
      ensures r.Ok? ==> r.value == old(Rest())[..size] && Rest() == old(Rest())[size..]
      ensures r.Err? ==> r == Err(BadValue) && Rest() == []
    {
      var b := ReadUpTo(size);
      if |b| < size {
        return Err(BadValue);
      }
      return Ok(b);
    }

    /** `read_varint` without a prefix. */
    method ReadVarint() returns (r: Result<nat>)
      modifies this
      ensures r.Ok? <==> TakeVarint(old(Rest())).Ok?
      ensures r.Ok? ==> (r.value, Rest()) == TakeVarint(old(Rest())).value
      ensures r.Err? ==> r == Err(BadValue)
    {
      ghost var s := Rest();
      var b := ReadUpTo(1);
      if |b| == 0 {
        return Err(BadValue);
      }
      var n := VarintWidth(b[0]);
      if n > 1 {
        b := ReadUpTo(n);
      }
      if |b| != n {
        return Err(BadValue);
      }
      LESingle(b);
      assert n > 1 ==> s[1..][..n] == s[1..1 + n] && s[1..][n..] == s[1 + n..];
      return Ok(LE(b));
    }

    /** `from_bytes`: three fixed fields, the memo by its length, then the ASCII
        decoding and the checks of the constructor, which cannot fail any more. */
    method FromBytes() returns (r: Result<Transaction>)
      modifies this
      ensures r.Ok? <==> Take(old(Rest())).Ok?
      ensures r.Ok? ==> (r.value, Rest()) == Take(old(Rest())).value && Valid(r.value)
      ensures r.Err? ==> r == Err(BadValue)
    {
      ghost var s := Rest();
      var nonce :- Read(8);
      var to :- Read(20);
      var value :- Read(8);
      FieldsOf(s);
      BEBound(nonce);
      BEBound(value);
      Powers();
      var memoLen :- ReadVarint();
      var memo :- Read(memoLen);
      if !IsAscii(memo) {
        return Err(BadValue);
      }
      return Ok(Transaction(BE(nonce), to, BE(value), memo));
    }
  }

  lemma LESingle(b: Bytes)
    ensures |b| == 1 ==> LE(b) == b[0]
  {
  }

  lemma FieldsOf(s: Bytes)
    ensures |s| >= 36 ==> s[8..][..20] == s[8..28] && s[8..][20..][..8] == s[28..36] && s[8..][20..][8..] == s[36..]
  {
  }
}
