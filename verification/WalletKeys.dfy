/** From a wallet and a service index to the inputs of the key derivation. */
module WalletKeys {
  import opened Bytes
  import opened KeyTree
  import opened Wallet
  import opened PathScan
  import opened DeviceKeys
  import Modular

  /** Overrun stands for an unguarded access past the wallet buffer or past the
      30-byte copy of the path. */
  datatype KeyInputs = Refused | Malformed | Overrun
    | Inputs(curveType: byte, curve: CurveId, path: seq<uint32>, seed: Bytes)

  const TEMP_SIZE: nat := 30

  function CurveOf(curveType: byte): CurveId {
    if curveType == 0 then Ed25519 else if curveType == 1 then Secp256r1 else Secp256k1
  }

  /** The encoder's curve bytes: 0 ed25519, 1 nistp256, 2 secp256k1. */
  function CurveByte(curve: CurveId): byte {
    match curve
    case Ed25519 => 0
    case Secp256r1 => 1
    case Secp256k1 => 2
  }

  /** The parser reads them back, and takes every other byte for secp256k1. */
  lemma CurveRoundTrip(curve: CurveId, b: byte)
    ensures CurveOf(CurveByte(curve)) == curve
    ensures CurveOf(b) == Ed25519 <==> b == 0
    ensures CurveOf(b) == Secp256r1 <==> b == 1
    ensures CurveOf(b) == Secp256k1 <==> b >= 2
  {
  }

  /** The zeroed 30-byte copy of the path text. */
  function TempPath(text: Bytes): (t: Bytes)
    requires |text| < TEMP_SIZE
    ensures |t| == TEMP_SIZE
  {
    text + seq(TEMP_SIZE - |text|, _ => 0)
  }

  /** The characters the scan looks at. */
  function Scanned(temp: Bytes, pathLen: byte): Bytes
    requires |temp| == TEMP_SIZE && pathLen <= TEMP_SIZE
  {
    if pathLen <= 2 then [] else temp[2..pathLen]
  }

  /** The device path the scanned characters lead to. */
  function ScannedPath(s: Bytes, offset: uint32): seq<uint32>
    requires |s| < 128
  {
    DigitSumBound(Part(s, 1));
    PartShorter(s, 1);
    DevicePath(Number(Part(s, 0)) % WORD, DigitSum(Part(s, 1)), offset)
  }

  /** The inputs, once the path is copied: curve at q, seed at its fixed place. */
  function InputsFrom(offset: uint32, b: Bytes, q: nat, temp: Bytes, pathLen: byte): KeyInputs
    requires |temp| == TEMP_SIZE
  {
    if temp[0] != 109 || temp[1] != SLASH then Malformed
    else if pathLen > TEMP_SIZE || q >= |b| || !SeedFits(b) then Overrun
    else Inputs(b[q], CurveOf(b[q]), ScannedPath(Scanned(temp, pathLen), offset), SeedOf(b))
  }

  /** What the service whose path length stands at `seek` derives from. */
  function KeyInputsAt(offset: uint32, b: Bytes, walletLen: byte, serviceIndex: byte, seek: nat): KeyInputs {
    if walletLen < 6 * serviceIndex + 39 then Refused
    else if seek >= |b| || seek + 1 + b[seek] > |b| then Overrun
    else
      var text := Text(b[seek + 1..seek + 1 + b[seek]]);
      if |text| >= TEMP_SIZE then Overrun
      else InputsFrom(offset, b, seek + 1 + b[seek], TempPath(text), b[seek])
  }

  predicate SeedFits(b: Bytes) {
    4 < |b| && 5 + b[4] as int <= |b|
  }

  function SeedOf(b: Bytes): Bytes
    requires SeedFits(b)
  {
    b[5..5 + b[4] as int]
  }

  lemma {:induction false} PartShorter(s: Bytes, k: nat)
    ensures |Part(s, k)| <= |s|
  {
    if |s| > 0 {
      PartShorter(s[..|s| - 1], k);
    }
  }

  /** `generateKeyFromWallet` up to the derivation it starts. */
  method GenerateKeyInputs(offset: uint32, wallet: Bytes, walletLen: byte, serviceIndex: byte, seek: nat)
      returns (r: KeyInputs)
    ensures r == KeyInputsAt(offset, wallet, walletLen, serviceIndex, seek)
    ensures r.Refused? <==> walletLen < 6 * serviceIndex + 39
    ensures r.Inputs? ==>
        && walletLen >= 6 * serviceIndex + 39
        && seek < |wallet| && seek + 1 + wallet[seek] < |wallet| && 4 < |wallet| && 5 + wallet[4] as int <= |wallet|
        && wallet[seek] <= 30 && wallet[seek + 1..][..2] == [109, 47]
        && r.curveType == wallet[seek + 1 + wallet[seek]] && r.seed == wallet[5..5 + wallet[4] as int]
        && r.curve == (if r.curveType == 0 then Ed25519 else if r.curveType == 1 then Secp256r1 else Secp256k1)
  {
    if walletLen < 6 * serviceIndex + 39 {
      return Refused;
    }
    if seek >= |wallet| || seek + 1 + wallet[seek] > |wallet| {
      return Overrun;
    }
    var pathLen := wallet[seek];
    var text := Text(wallet[seek + 1..seek + 1 + pathLen]);
    if |text| >= TEMP_SIZE {
      return Overrun;
    }
    r := ScanAndExtract(offset, wallet, seek + 1 + pathLen, TempPath(text), pathLen);
  }

  /** The second half: check of "m/", scan, curve and seed. */
  method ScanAndExtract(offset: uint32, wallet: Bytes, q: nat, temp: Bytes, pathLen: byte) returns (r: KeyInputs)
    requires |temp| == TEMP_SIZE
    ensures r == InputsFrom(offset, wallet, q, temp, pathLen)
  {
    if temp[0] != 109 || temp[1] != SLASH {
      return Malformed;
    }
    if pathLen > TEMP_SIZE || q >= |wallet| || !SeedFits(wallet) {
      return Overrun;
    }
    var path := ScanToPath(Scanned(temp, pathLen), offset);
    var curveType := wallet[q];
    r := Inputs(curveType, CurveOf(curveType), path, SeedOf(wallet));
  }

  method ScanToPath(s: Bytes, offset: uint32) returns (path: seq<uint32>)
    requires |s| < 128
    ensures path == ScannedPath(s, offset)
  {
    var coinType, account, addressIndex := Scan(s);
    Modular.SmallMod(offset, WORD);
    addressIndex := (addressIndex + offset) % WORD;
    path := DevicePath(coinType, account, addressIndex);
  }

  /** End to end, for every wallet with a printed path at a service index in range:
      unless the length guard refuses it, the screen shows the service's own path,
      and the key is derived from the wallet's seed on the service's curve along
      coin type, digit sum of the account, and the offset, all hardened. */
  lemma WalletToKeys(w: OnchainWallet, b: Bytes, rest: Bytes, index: byte, offset: uint32,
                     service: Service, c: uint32, a: uint32, i: uint32, p: nat, curve: CurveId, path: seq<uint32>)
    requires index < |w.services| && |Encode(w)| < 256 && b == Encode(w) + rest
    requires service == w.services[index] && service.path == PrintedPath(c, a, i) && p == PathOffset(w, index)
    requires |Encode(w)| >= 6 * index + 39
    requires curve == if service.curve == 0 then Ed25519 else if service.curve == 1 then Secp256r1 else Secp256k1
    requires path == [0x8000_0000 + c % 0x8000_0000, 0x8000_0000 + DigitSum(Digits(a)) % 0x8000_0000,
                      0x8000_0000 + offset % 0x8000_0000]
    ensures Locate(b, |Encode(w)|, index) == Found(PrintedPath(c, a, i), p)
    ensures KeyInputsAt(offset, b, |Encode(w)|, index, p) == Inputs(service.curve, curve, path, w.seed)
  {
    DigitSumBound(Digits(a));
    DevicePathInNumbers(c, DigitSum(Digits(a)), offset);
    LocateFinds(w, b, rest, index);
    KeysOnPath(b, |Encode(w)|, index, offset, w.seed, service, c, a, i, p, path);
  }

  lemma KeysOnPath(b: Bytes, walletLen: byte, index: byte, offset: uint32, seed: Bytes,
                   service: Service, c: uint32, a: uint32, i: uint32, p: nat, path: seq<uint32>)
    requires walletLen >= 6 * index + 39 && Holds(b, p, service) && service.path == PrintedPath(c, a, i)
    requires SeedFits(b) && SeedOf(b) == seed && DigitSum(Digits(a)) < WORD
    requires path == DevicePath(c, DigitSum(Digits(a)), offset)
    ensures KeyInputsAt(offset, b, walletLen, index, p)
         == Inputs(service.curve, CurveOf(service.curve), path, seed)
  {
    KeysOfHeld(b, walletLen, index, offset, seed, service, c, a, i, p);
  }

  /** The same from the bytes that stand at p. */
  lemma KeysOfHeld(b: Bytes, walletLen: byte, index: byte, offset: uint32, seed: Bytes,
                   service: Service, c: uint32, a: uint32, i: uint32, p: nat)
    requires walletLen >= 6 * index + 39 && Holds(b, p, service) && service.path == PrintedPath(c, a, i)
    requires SeedFits(b) && SeedOf(b) == seed
    ensures DigitSum(Digits(a)) < WORD
    ensures KeyInputsAt(offset, b, walletLen, index, p)
         == Inputs(service.curve, CurveOf(service.curve), DevicePath(c, DigitSum(Digits(a)), offset), seed)
  {
    var path := PrintedScans(service, c, a, i, offset);
    InputsOfService(b, walletLen, index, p, service, offset, path);
  }

  /** The path that the copy of a printed one scans to. */
  lemma PrintedScans(service: Service, c: uint32, a: uint32, i: uint32, offset: uint32) returns (path: seq<uint32>)
    requires service.path == PrintedPath(c, a, i)
    ensures DigitSum(Digits(a)) < WORD && path == DevicePath(c, DigitSum(Digits(a)), offset)
    ensures Scans(TempPath(service.path), |service.path|, offset, path)
  {
    PrintedScanned(service, c, a, i);
    PrintedToPath(c, a, i, offset, PrintedTail(c, a, i));
    path := DevicePath(c, DigitSum(Digits(a)), offset);
  }

  /** What the copied path of a service scans to. */
  ghost predicate Scans(temp: Bytes, length: byte, offset: uint32, path: seq<uint32>) {
    && |temp| == TEMP_SIZE >= length && temp[0] == 109 && temp[1] == SLASH
    && ScannedPath(Scanned(temp, length), offset) == path
  }

  lemma InputsOfCopy(offset: uint32, b: Bytes, q: nat, temp: Bytes, length: byte, path: seq<uint32>)
    requires q < |b| && SeedFits(b) && Scans(temp, length, offset, path)
    ensures InputsFrom(offset, b, q, temp, length) == Inputs(b[q], CurveOf(b[q]), path, SeedOf(b))
  {
  }

  lemma InputsOfText(b: Bytes, walletLen: byte, index: byte, p: nat, text: Bytes, offset: uint32)
    requires walletLen >= 6 * index + 39 && p < |b| && p + 1 + b[p] <= |b|
    requires Text(b[p + 1..p + 1 + b[p]]) == text && |text| < TEMP_SIZE
    ensures KeyInputsAt(offset, b, walletLen, index, p) == InputsFrom(offset, b, p + 1 + b[p], TempPath(text), b[p])
  {
  }

  lemma HeldText(b: Bytes, p: nat, service: Service)
    requires Holds(b, p, service)
    ensures b[p] == |service.path| && p + 1 + b[p] < |b| && b[p + 1 + b[p]] == service.curve
    ensures Text(b[p + 1..p + 1 + b[p]]) == service.path
  {
    assert b[p + 1..p + 1 + b[p]] == service.path;
    TextOfPath(service);
  }

  lemma InputsOfService(b: Bytes, walletLen: byte, index: byte, p: nat, service: Service, offset: uint32,
      path: seq<uint32>)
    requires walletLen >= 6 * index + 39 && Holds(b, p, service) && SeedFits(b)
    requires Scans(TempPath(service.path), |service.path|, offset, path)
    ensures KeyInputsAt(offset, b, walletLen, index, p)
         == Inputs(service.curve, CurveOf(service.curve), path, SeedOf(b))
  {
    HeldText(b, p, service);
    InputsOfText(b, walletLen, index, p, service.path, offset);
    InputsOfCopy(offset, b, p + 1 + b[p], TempPath(service.path), b[p], path);
  }

  lemma TextOfPath(service: Service)
    ensures Text(service.path) == service.path
  {
  }

  lemma PrintedToPath(c: uint32, a: uint32, i: uint32, offset: uint32, s: Bytes)
    requires s == PrintedTail(c, a, i) && |s| < 128
    ensures DigitSum(Digits(a)) < WORD && ScannedPath(s, offset) == DevicePath(c, DigitSum(Digits(a)), offset)
  {
    DigitSumBound(Digits(a));
    DigitsNumber(a);
    PrintedPart(c, a, i, 1);
    PrintedNumber(c, c, a, i, 0);
  }

  /** The copy of a printed path scans to its tail. */
  lemma PrintedScanned(service: Service, c: nat, a: nat, i: nat)
    requires service.path == PrintedPath(c, a, i)
    ensures var t := TempPath(service.path);
            && t[0] == 109 && t[1] == SLASH && Text(service.path) == service.path
            && Scanned(t, |service.path|) == PrintedTail(c, a, i)
  {
    assert Ascii("m/") == [109, 47];
    assert |PrintedTail(c, a, i)| >= 1;
    assert TempPath(service.path)[2..|service.path|] == service.path[2..];
  }

  /** A service encoded for a curve gets its key on that curve. */
  lemma EncodedCurve(w: OnchainWallet, b: Bytes, rest: Bytes, index: byte, offset: uint32,
                     service: Service, c: uint32, a: uint32, i: uint32, p: nat, curve: CurveId)
    requires index < |w.services| && |Encode(w)| < 256 && b == Encode(w) + rest
    requires service == w.services[index] && service.path == PrintedPath(c, a, i) && p == PathOffset(w, index)
    requires |Encode(w)| >= 6 * index + 39 && service.curve == CurveByte(curve)
    ensures KeyInputsAt(offset, b, |Encode(w)|, index, p).Inputs?
    ensures KeyInputsAt(offset, b, |Encode(w)|, index, p).curve == curve
  {
    LocateFinds(w, b, rest, index);
    KeysOfHeld(b, |Encode(w)|, index, offset, w.seed, service, c, a, i, p);
    CurveRoundTrip(curve, service.curve);
  }
}
