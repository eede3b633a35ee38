/** The signing request: what is decoded, what is shown, and the bytes that are hashed. */
module SignHash {
  import opened Bytes
  import opened Decimals
  import opened Format
  import opened FixedPoints

  // ---------------------------------------------------------------- bitwise or

  function Pow2(k: nat): (r: nat)
    ensures r > 0
  {
    if k == 0 then 1 else 2 * Pow2(k - 1)
  }

  /** `a | b` on unsigned numbers, bit by bit. */
  function Or(a: nat, b: nat): nat {
    if a == 0 then b else if b == 0 then a
    else (if a % 2 == 1 || b % 2 == 1 then 1 else 0) + 2 * Or(a / 2, b / 2)
  }

  /** Without common bits, or is a sum. */
  lemma {:induction false} OrDisjoint(x: nat, k: nat, b: nat)
    requires b < Pow2(k)
    ensures x * Pow2(k) >= 0 && Or(x * Pow2(k), b) == x * Pow2(k) + b
  {
    if k > 0 && x > 0 && b > 0 {
      var a := x * Pow2(k - 1);
      assert x * Pow2(k) == 2 * a;
      OrDisjoint(x, k - 1, b / 2);
    } else if k == 0 {
      assert x * 1 == x;
    }
  }

  lemma {:induction false} Pow256IsPow2(k: nat)
    ensures Pow256(k) == Pow2(8 * k)
  {
    if k > 0 {
      Pow256IsPow2(k - 1);
      var m := 8 * (k - 1);
      assert Pow2(m + 8) == 2 * Pow2(m + 7) == 4 * Pow2(m + 6) == 8 * Pow2(m + 5) == 16 * Pow2(m + 4);
      assert Pow2(m + 4) == 2 * Pow2(m + 3) == 4 * Pow2(m + 2) == 8 * Pow2(m + 1) == 16 * Pow2(m);
    }
  }

  // ---------------------------------------------------------------- the amount

  lemma BEStep(s: Bytes, c: nat)
    requires c < |s|
    ensures BE(s[..c + 1]) == BE(s[..c]) * 256 + s[c]
  {
    assert s[..c + 1][..c] == s[..c];
  }

  lemma OrByte(m: nat, b: byte, k: nat)
    ensures m * Pow256(k + 1) >= 0 && b * Pow256(k) >= 0
    ensures Or(m * Pow256(k + 1), b * Pow256(k)) == (m * 256 + b) * Pow256(k)
  {
    Pow256IsPow2(k + 1);
    OrScaled(m, b, Pow256(k), 8 * (k + 1));
  }

  lemma OrScaled(m: nat, b: byte, u: nat, k: nat)
    requires u > 0 && Pow2(k) == 256 * u
    ensures m * (256 * u) >= 0 && b * u >= 0 && Or(m * (256 * u), b * u) == (m * 256 + b) * u
  {
    PlaceValue(m, b, u);
    OrDisjoint(m, k, b * u);
  }

  lemma PlaceValue(m: nat, b: byte, u: nat)
    requires u > 0
    ensures 0 <= b * u < 256 * u && m * (256 * u) + b * u == (m * 256 + b) * u
  {
  }

  /** One byte more: the or puts it into the next free place. */
  lemma AmountStep(s: Bytes, c: nat)
    requires |s| == 8 && c < 8
    ensures BE(s[..c]) * Pow256(8 - c) >= 0 && s[c] * Pow256(7 - c) >= 0
    ensures Or(BE(s[..c]) * Pow256(8 - c), s[c] * Pow256(7 - c)) == BE(s[..c + 1]) * Pow256(7 - c)
  {
    BEStep(s, c);
    OrByte(BE(s[..c]), s[c], 7 - c);
  }

  /** The big-endian amount, assembled by shifts and ors. */
  method DecodeAmount(amount: Bytes) returns (value: nat)
    requires |amount| == 8
    ensures value == BE(amount) < 0x1_0000_0000_0000_0000
  {
    value := 0;
    for c := 0 to 8
      invariant value == BE(amount[..c]) * Pow256(8 - c)
    {
      AmountStep(amount, c);
      value := Or(value, amount[c] * Pow256(7 - c));
    }
    assert amount[..8] == amount;
    BEBound(amount);
    assert Pow256(8) == 0x1_0000_0000_0000_0000 by {
      Pow256Sum(4, 4);
      assert Pow256(4) == 0x1_0000_0000;
    }
  }

  /** Thirty bytes are enough for every amount, and no smaller buffer is. */
  lemma ThirtyIsLeast(size: nat)
    ensures (forall value: nat | value < 0x1_0000_0000_0000_0000 :: Fits(value, 8, size)) <==> size >= 30
  {
    SixtyFourBits(0xFFFF_FFFF_FFFF_FFFF);
    if size >= 30 {
      forall value: nat | value < 0x1_0000_0000_0000_0000 ensures Fits(value, 8, size) {
        SixtyFourBits(value);
      }
    } else {
      assert !Fits(0xFFFF_FFFF_FFFF_FFFF, 8, size);
    }
  }

  // ---------------------------------------------------------------- the request

  /** The address length that goes with the hash type in an address's second byte. */
  function AddressLength(hashType: byte): nat {
    if hashType % 2 == 0 then 34 else 66
  }

  /** The globals the request is decoded into. */
  class Request {
    var serviceIndex: byte
    var receiveAddrLen: nat
    const receiveAddr: array<byte>
    const amount: array<byte>
    const shownAmount: array<char>

    constructor ()
      ensures Valid() && fresh(receiveAddr) && fresh(amount) && fresh(shownAmount)
    {
      serviceIndex, receiveAddrLen := 0, 0;
      receiveAddr := new byte[70];
      amount := new byte[8];
      shownAmount := new char[30];
    }

    ghost predicate Valid() {
      && receiveAddr.Length == 70 && amount.Length == 8 && shownAmount.Length == 30
      && receiveAddr != amount
    }

    /** The amount screen: formatted in a zeroed buffer and copied out whole. */
    method ShowAmount()
      requires Valid()
      modifies shownAmount
      ensures CString(shownAmount[..]) == FixedPoint(BE(amount[..]), 8)
    {
      var value := DecodeAmount(amount[..]);
      var test := new char[30](_ => NUL);
      ThirtyIsLeast(30);
      assert Fits(value, 8, 30);
      var ok := FormatFpu64(test, 30, value, 8);
      ShownString(test[..], value);
      CopyChars(shownAmount, 0, test[..]);
      assert shownAmount[..] == shownAmount[0..30];
    }

    /** The fields in front of the wallet: service index, receiver, amount. The data
        has to be as long as what is read from it. */
    method Decode(data: Bytes) returns (rest: Bytes)
      requires Valid() && |data| >= 3 && |data| >= if data[2] % 2 == 0 then 43 else 75
      modifies this, receiveAddr, amount, shownAmount
      ensures serviceIndex == data[0] && receiveAddrLen == if data[2] % 2 == 0 then 34 else 66
      ensures data[2] % 2 == 0 ==> receiveAddr[..34] == data[1..35] && amount[..] == data[35..43] && rest == data[43..]
      ensures data[2] % 2 == 1 ==> receiveAddr[..66] == data[1..67] && amount[..] == data[67..75] && rest == data[75..]
      ensures data == [serviceIndex] + receiveAddr[..receiveAddrLen] + amount[..] + rest
      ensures CString(shownAmount[..]) == FixedPoint(BE(amount[..]), 8)
    {
      serviceIndex := data[0];
      var afterIndex := data[1..];
      assert data == [data[0]] + afterIndex;
      var afterReceiver := TakeReceiver(afterIndex);
      ghost var receiver := receiveAddr[..receiveAddrLen];
      rest := TakeAmount(afterReceiver);
      assert afterIndex == receiver + (amount[..] + rest);
      FieldsAt(data, receiver, amount[..], rest);
    }

    method TakeAmount(data: Bytes) returns (rest: Bytes)
      requires Valid() && |data| >= 8
      modifies amount, shownAmount
      ensures data == amount[..] + rest
      ensures CString(shownAmount[..]) == FixedPoint(BE(amount[..]), 8)
    {
      WriteAt(amount, 0, data[..8]);
      assert amount[..] == data[..8];
      ShowAmount();
      rest := data[8..];
    }

    /** The receiver address, as long as its second byte says. */
    method TakeReceiver(data: Bytes) returns (rest: Bytes)
      requires Valid() && |data| >= 2 && |data| >= AddressLength(data[1])
      modifies this`receiveAddrLen, receiveAddr
      ensures receiveAddrLen == AddressLength(data[1])
      ensures data == receiveAddr[..receiveAddrLen] + rest
    {
      var addrLen := 0;
      if data[1] % 2 == 0 {
        addrLen := 34;
      } else {
        addrLen := 66;
      }
      WriteAt(receiveAddr, 0, data[..addrLen]);
      assert receiveAddr[..addrLen] == data[..addrLen];
      receiveAddrLen := addrLen;
      rest := data[addrLen..];
    }

    /** Decoding, showing and hashing one request: the number on the screen is the
        amount under the hash, in units of 10^-8. */
    method ShowAndHash(sha256: Bytes -> Bytes, sender: Bytes, data: Bytes)
        returns (txHash: Bytes, rest: Bytes, ghost hashed: Bytes)
      requires Valid() && |data| >= 3 && |data| >= (if data[2] % 2 == 0 then 43 else 75) && |sender| == 34
      modifies this, receiveAddr, amount, shownAmount
      ensures serviceIndex == data[0] && receiveAddrLen == if data[2] % 2 == 0 then 34 else 66
      ensures data[2] % 2 == 0 ==> receiveAddr[..34] == data[1..35] && amount[..] == data[35..43] && rest == data[43..]
      ensures data[2] % 2 == 1 ==> receiveAddr[..66] == data[1..67] && amount[..] == data[67..75] && rest == data[75..]
      ensures txHash == sha256(hashed) && hashed == Preimage(sender, receiveAddr[..receiveAddrLen], amount[..])
      ensures data == [serviceIndex] + receiveAddr[..receiveAddrLen] + amount[..] + rest
      ensures var shown := CString(shownAmount[..]);
              IsFixedPoint(shown) && FractionDigits(shown) == 8 && Scaled(shown) == BE(HashedAmount(hashed))
    {
      rest := Decode(data);
      var receiver := receiveAddr[..receiveAddrLen];
      assert receiver[1] == data[2];
      hashed := Preimage(sender, receiver, amount[..]);
      ShownIsHashed(sender, receiver, amount[..], CString(shownAmount[..]), HashedAmount(hashed));
      txHash := GetTransactionHash(sha256, sender, receiver, amount[..]);
    }

    /** A request put together from its fields is taken apart into them: a 34-byte receiver
        with an even second byte, or a 66-byte receiver with an odd one, is decoded
        whole, with the amount right behind it, which is shown and hashed. */
    method ShowAndHashFields(sha256: Bytes -> Bytes, sender: Bytes, service: byte, receiver: Bytes, value: Bytes,
                             tail: Bytes)
        returns (txHash: Bytes, rest: Bytes)
      requires Valid() && |sender| == 34 && |value| == 8
      requires (|receiver| == 34 && receiver[1] % 2 == 0) || (|receiver| == 66 && receiver[1] % 2 == 1)
      modifies this, receiveAddr, amount, shownAmount
      ensures serviceIndex == service && rest == tail
      ensures receiveAddrLen == |receiver| && receiveAddr[..receiveAddrLen] == receiver && amount[..] == value
      ensures txHash == sha256([0, 0, 0, 1] + sender + [0xFD] + [0, 0, 0, 0, 0, 0, 0, 0] + [0] + [1]
                               + receiver + value + [0] + [0])
      ensures var shown := CString(shownAmount[..]);
              IsFixedPoint(shown) && FractionDigits(shown) == 8 && Scaled(shown) == BE(value)
    {
      var data := [service] + receiver + value + tail;
      RequestLayout(service, receiver, value, tail);
      ghost var hashed;
      txHash, rest, hashed := ShowAndHash(sha256, sender, data);
      PreimageInBytes(sender, receiver, value);
      PreimageRoundTrip(sender, receiver, value);
    }
  }

  /** Where the fields of a request stand. */
  lemma RequestLayout(service: byte, receiver: Bytes, value: Bytes, tail: Bytes)
    requires |receiver| >= 2 && |value| == 8
    ensures var data, n := [service] + receiver + value + tail, |receiver|;
            && |data| >= 9 + n && data[0] == service && data[2] == receiver[1] && data[1..1 + n] == receiver
            && data[1 + n..9 + n] == value && data[9 + n..] == tail
  {
  }

  lemma FieldsAt(data: Bytes, receiver: Bytes, value: Bytes, rest: Bytes)
    requires |data| > 0 && data == [data[0]] + receiver + value + rest && |value| == 8
    ensures var n := |receiver|;
            data[1..1 + n] == receiver && data[1 + n..9 + n] == value && data[9 + n..] == rest
  {
  }

  /** In a zeroed 30-byte buffer the formatted amount is complete. */
  lemma ShownString(buffer: seq<char>, value: nat)
    requires value < 0x1_0000_0000_0000_0000 && |buffer| == 30
    requires |Decimal(value)| <= 8 ==> buffer == Padded(FixedPoint(value, 8), 30)
    requires |Decimal(value)| > 8 ==>
        |Decimal(value)| + 1 < 30 && buffer[..|Decimal(value)| + 1] == FixedPoint(value, 8)
            && buffer[|Decimal(value)| + 1] == NUL
    ensures CString(buffer) == FixedPoint(value, 8)
  {
    var s := FixedPoint(value, 8);
    FixedPointShapes(value, 8);
    DigitsAreNotNul(Whole(value, 8));
    DigitsAreNotNul(Fraction(value, 8));
    assert buffer[..|s|] == s && buffer[|s|] == NUL;
    assert buffer[..|s| + 1] == s + [NUL];
    CStringOf(buffer, s);
  }

  // ---------------------------------------------------------------- the bytes that are hashed

  /** Version, sender, type, code and content sizes, ownerships, one UCO transfer. */
  function Header(sender: Bytes): Bytes {
    [0, 0, 0, 1] + sender + [0xFD] + [0, 0, 0, 0] + [0, 0, 0, 0] + [0] + [1]
  }

  /** The transfer after the header; no NFT transfers and no recipients follow. */
  function Preimage(sender: Bytes, receiver: Bytes, amount: Bytes): Bytes {
    Header(sender) + receiver + amount + [0] + [0]
  }

  method Append(tx: array<byte>, index: nat, data: Bytes) returns (next: nat)
    requires index + |data| <= tx.Length
    modifies tx
    ensures next == index + |data| && tx[..next] == old(tx[..index]) + data
  {
    ghost var before := tx[..];
    WriteAt(tx, index, data);
    next := index + |data|;
    assert tx[..next] == before[..index] + data;
  }

  method PutHeader(tx: array<byte>, sender: Bytes) returns (index: nat)
    requires tx.Length == 200 && 15 + |sender| <= 200
    modifies tx
    ensures index == 15 + |sender| && tx[..index] == Header(sender)
  {
    index := Append(tx, 0, [0, 0, 0, 1]);
    assert tx[..index] == [0, 0, 0, 1];
    index := Append(tx, index, sender);
    index := PutFixedFields(tx, index);
  }

  method PutFixedFields(tx: array<byte>, start: nat) returns (index: nat)
    requires start + 11 <= tx.Length
    modifies tx
    ensures index == start + 11
    ensures tx[..index] == old(tx[..start]) + [0xFD] + [0, 0, 0, 0] + [0, 0, 0, 0] + [0] + [1]
  {
    index := Append(tx, start, [0xFD]);
    index := Append(tx, index, [0, 0, 0, 0]);
    index := Append(tx, index, [0, 0, 0, 0]);
    index := Append(tx, index, [0]);
    index := Append(tx, index, [1]);
  }

  /** `getTransactionHash`, the hash being a function of the bytes it is given. */
  method GetTransactionHash(sha256: Bytes -> Bytes, sender: Bytes, receiver: Bytes, amount: Bytes)
      returns (txHash: Bytes)
    requires |amount| == 8 && 25 + |sender| + |receiver| <= 200
    ensures txHash == sha256(Preimage(sender, receiver, amount))
  {
    var tx := new byte[200];
    var index := PutHeader(tx, sender);
    index := Append(tx, index, receiver);
    index := Append(tx, index, amount);
    index := Append(tx, index, [0]);
    index := Append(tx, index, [0]);
    assert tx[..index] == Preimage(sender, receiver, amount);
    txHash := sha256(tx[..index]);
  }

  /** The preimage, field by field: version 1, sender, type FD, two 4-byte sizes 0, no
      ownerships, one UCO transfer to the receiver, no NFT transfers, no recipients. */
  lemma PreimageInBytes(sender: Bytes, receiver: Bytes, amount: Bytes)
    ensures Preimage(sender, receiver, amount)
         == [0, 0, 0, 1] + sender + [0xFD] + [0, 0, 0, 0, 0, 0, 0, 0] + [0] + [1] + receiver + amount + [0] + [0]
  {
    assert [0, 0, 0, 0] + [0, 0, 0, 0] == [0, 0, 0, 0, 0, 0, 0, 0];
    assert Header(sender) == [0, 0, 0, 1] + sender + [0xFD] + [0, 0, 0, 0, 0, 0, 0, 0] + [0] + [1];
  }

  // ---------------------------------------------------------------- the device's own addresses

  type Digest = b: Bytes | |b| == 32 witness seq(32, _ => 0)

  /** `generateArchEthicAddress` with hash type 0, the only one it is called with: the curve
      byte, origin 0 and the public key, which their hash then overwrites in place. */
  method GenerateAddress(sha256: Bytes -> Digest, address: array<byte>, curveType: byte, publicKey: Bytes)
      returns (addressLen: nat)
    requires address.Length >= 34 && address.Length >= 2 + |publicKey|
    modifies address
    ensures addressLen == 34
    ensures address[..34] == [curveType] + [0] + sha256([curveType] + [0] + publicKey)
  {
    address[0] := curveType;
    address[1] := 0;
    ghost var head := [curveType] + [0];
    assert address[..2] == head;
    WriteAt(address, 2, publicKey);
    assert address[..2 + |publicKey|] == head + publicKey;
    var digest := sha256(address[..2 + |publicKey|]);
    WriteAt(address, 2, digest);
    assert address[..34] == head + digest;
    addressLen := 1 + 1 + 32;
  }

  /** What the device builds as a sender's address can be a receiver: a request to it is
      decoded whole. */
  lemma OwnAddressIsReceiver(own: Bytes, curveType: byte, digest: Digest, service: byte, value: Bytes, tail: Bytes)
    requires own == [curveType] + [0] + digest && |value| == 8
    ensures |own| == 34 && own[1] % 2 == 0 && IsAddress(own)
    ensures var data := [service] + own + value + tail;
            && |data| >= 43 && data[2] % 2 == 0
            && data[1..35] == own && data[35..43] == value && data[43..] == tail
  {
    RequestLayout(service, own, value, tail);
  }

  /** A receiver address as a request decodes it. */
  predicate IsAddress(a: Bytes) {
    |a| >= 2 && |a| == AddressLength(a[1])
  }

  /** Reads a preimage back, knowing only that the sender has 34 bytes. */
  function ParsePreimage(tx: Bytes): (Bytes, Bytes, Bytes)
    requires |tx| >= 125 - 32 && |tx| >= 59 + AddressLength(tx[50])
  {
    var length := AddressLength(tx[50]);
    (tx[4..38], tx[49..49 + length], tx[49 + length..57 + length])
  }

  /** The amount the hash covers: the 8 bytes before the last two. */
  function HashedAmount(tx: Bytes): Bytes
    requires |tx| >= 10
  {
    tx[|tx| - 10..|tx| - 2]
  }

  /** The preimage is uniquely decodable, has 25 bytes besides the addresses, and
      fits the 200-byte buffer. */
  lemma PreimageRoundTrip(sender: Bytes, receiver: Bytes, amount: Bytes)
    requires |sender| == 34 && IsAddress(receiver) && |amount| == 8
    ensures var tx := Preimage(sender, receiver, amount);
            && |tx| == 25 + |sender| + |receiver| <= 200
            && tx[50] == receiver[1]
            && ParsePreimage(tx) == (sender, receiver, amount)
            && HashedAmount(tx) == amount
  {
    HeaderParts(sender);
    Parts(Header(sender), receiver, amount);
  }

  lemma HeaderParts(sender: Bytes)
    requires |sender| == 34
    ensures |Header(sender)| == 49 && Header(sender)[4..38] == sender
  {
  }

  lemma Parts(head: Bytes, receiver: Bytes, amount: Bytes)
    requires |head| == 49 && |amount| == 8 && |receiver| >= 2
    ensures var (tx, length) := (head + receiver + amount + [0] + [0], |receiver|);
            && tx[50] == receiver[1] && tx[4..38] == head[4..38]
            && tx[49..49 + length] == receiver && tx[49 + length..57 + length] == amount
  {
  }

  /** Equal preimages come from equal senders, receivers and amounts. */
  lemma PreimageInjective(s1: Bytes, r1: Bytes, a1: Bytes, s2: Bytes, r2: Bytes, a2: Bytes)
    requires |s1| == |s2| == 34 && IsAddress(r1) && IsAddress(r2) && |a1| == |a2| == 8
    requires Preimage(s1, r1, a1) == Preimage(s2, r2, a2)
    ensures s1 == s2 && r1 == r2 && a1 == a2
  {
    PreimageRoundTrip(s1, r1, a1);
    PreimageRoundTrip(s2, r2, a2);
  }

  /** What is shown is what is hashed: the number on the screen is the amount read
      back from the hashed bytes, in units of 10^-8. */
  lemma ShownIsHashed(sender: Bytes, receiver: Bytes, amount: Bytes, shown: string, hashed: Bytes)
    requires |sender| == 34 && IsAddress(receiver) && |amount| == 8
    requires shown == FixedPoint(BE(amount), 8)
    requires hashed == HashedAmount(Preimage(sender, receiver, amount))
    ensures IsFixedPoint(shown) && FractionDigits(shown) == 8 && Scaled(shown) == BE(hashed)
    ensures FixedValue(shown) == InUnits(BE(hashed), 100_000_000)
  {
    PreimageRoundTrip(sender, receiver, amount);
    Pow10Values();
    ShownValue(BE(amount), 8, shown);
  }

  lemma ShownValue(value: nat, decimals: nat, shown: string)
    requires shown == FixedPoint(value, decimals) && Pow10(decimals) == 100_000_000
    ensures IsFixedPoint(shown) && FractionDigits(shown) == decimals && Scaled(shown) == value
    ensures FixedValue(shown) == InUnits(value, 100_000_000)
  {
    FixedPointScaled(value, decimals);
    FixedPointValue(value, decimals, shown);
  }

  /** And the screen determines the hashed amount: no two amounts look alike. */
  lemma ShownDetermines(a1: Bytes, a2: Bytes)
    requires |a1| == |a2| == 8 && FixedPoint(BE(a1), 8) == FixedPoint(BE(a2), 8)
    ensures a1 == a2
  {
    FixedPointScaled(BE(a1), 8);
    FixedPointScaled(BE(a2), 8);
    BERoundTrip(a1);
    BERoundTrip(a2);
  }
}
