/** The entry point that picks a master key and a derivation loop, and the paths the
    device hands to it. */
module DeviceKeys {
  import opened Wrappers
  import opened Bytes
  import opened KeyTree
  import Bip32Ed25519
  import Slip10

  datatype Mode = Normal | Ed25519Slip10

  /** `get_seed_key`. */
  function SeedKey(curve: CurveId): Bytes {
    match curve
    case Secp256k1 => Ascii("Bitcoin seed")
    case Secp256r1 => Ascii("Nist256p1 seed")
    case Ed25519 => Ascii("ed25519 seed")
  }

  /** A caller's seed key, unless it is absent or empty. */
  function ChosenSeedKey(curve: CurveId, seedKey: Bytes): Bytes {
    if |seedKey| == 0 then SeedKey(curve) else seedKey
  }

  function MasterNode(i: Block64, right: Block32): Node {
    Node(i[..32], right, i[32..])
  }

  /** The retry loops on the way all end, and the seed fits where it is copied. */
  ghost predicate Terminates(p: Primitives, n: nat, mode: Mode, curve: CurveId, sk: Bytes, seed: Bytes,
      path: seq<uint32>) {
    if curve == Ed25519 then
      mode == Normal ==> |seed| <= 64 && Bip32Ed25519.Master(p, sk, seed).Some?
    else
      && 0 < n <= Pow256(32)
      && Slip10.Master(p, n, sk, seed).Some?
      && forall right: Block32 ::
           Derive(Slip10.Step(p, curve, n), MasterNode(Slip10.Master(p, n, sk, seed).value, right), path).Some?
  }

  /** What the chosen scheme derives. `right` is the second half of the key field,
      which only BIP32-Ed25519 writes. */
  ghost function Derived(p: Primitives, n: nat, mode: Mode, curve: CurveId, sk: Bytes, seed: Bytes,
      path: seq<uint32>, right: Block32): Option<Node>
    requires Terminates(p, n, mode, curve, sk, seed, path)
  {
    if curve == Ed25519 && mode == Ed25519Slip10 then
      Derive(Slip10.EdStep(p), MasterNode(p.hmacSha512(sk, seed), right), path)
    else if curve == Ed25519 then
      Derive(Bip32Ed25519.Step(p), Bip32Ed25519.Master(p, sk, seed).value, path)
    else
      Derive(Slip10.Step(p, curve, n), MasterNode(Slip10.Master(p, n, sk, seed).value, right), path)
  }

  /** `expand_seed_slip10`. */
  method ExpandSeedSlip10(p: Primitives, sk: Bytes, seed: Bytes, key: ExtendedPrivateKey)
    requires key.Valid()
    modifies key.privateKey, key.chainCode
    ensures key.Content() == MasterNode(p.hmacSha512(sk, seed), old(key.Content()).right)
  {
    var hash := new byte[64];
    Copy(hash, 0, p.hmacSha512(sk, seed));
    assert hash[..] == hash[0..64];
    ghost var h := hash[..];
    Copy(key.privateKey, 0, hash[..32]);
    Copy(key.chainCode, 0, hash[32..]);
    assert key.privateKey[..32] == h[..32] by { assert key.privateKey[..32] == key.privateKey[0..32]; }
    assert key.chainCode[..] == h[32..] by { assert key.chainCode[..] == key.chainCode[0..32]; }
  }

  /** `archethic_derive_node_with_seed_key`: false stands for its exception. */
  method DeriveNodeWithSeedKey(p: Primitives, n: nat, mode: Mode, curve: CurveId, masterSeed: Bytes,
      path: seq<uint32>, seedKey: Bytes)
    returns (ok: bool, key: ExtendedPrivateKey, ghost right: Block32)
    requires Terminates(p, n, mode, curve, ChosenSeedKey(curve, seedKey), masterSeed, path)
    ensures fresh(key) && key.Valid()
    ensures ok <==> Derived(p, n, mode, curve, ChosenSeedKey(curve, seedKey), masterSeed, path, right).Some?
    ensures ok ==> Some(key.Content()) == Derived(p, n, mode, curve, ChosenSeedKey(curve, seedKey), masterSeed,
        path, right)
  {
    var sk := ChosenSeedKey(curve, seedKey);
    key := new ExtendedPrivateKey();
    right := key.Content().right;
    if mode == Ed25519Slip10 && curve == Ed25519 {
      ghost var done;
      ExpandSeedSlip10(p, sk, masterSeed, key);
      Slip10.EdDerivesExactly(p, key.Content(), path);
      ok, done := Slip10.HdwSlip10(p, key, path);
      assert path[..|path|] == path;
    } else if curve == Ed25519 {
      Bip32Ed25519.ExpandSeed(p, sk, masterSeed, key);
      Bip32Ed25519.HdwBip32Ed25519(p, key, path);
      ok := true;
    } else {
      ghost var master := Slip10.Master(p, n, sk, masterSeed).value;
      Slip10.ExpandSeed(p, n, sk, masterSeed, key);
      right := key.Content().right;
      assert key.Content() == MasterNode(master, right) by {
        assert master == key.privateKey[..32] + key.chainCode[..];
      }
      ok := Slip10.HdwBip32(p, curve, n, key, path);
    }
  }

  /** m/coin_type'/account'/address_index', as `deriveArchEthicKeyPair` builds it. */
  function DevicePath(coinType: uint32, account: uint32, addressIndex: uint32): seq<uint32> {
    [Harden(coinType), Harden(account), Harden(addressIndex)]
  }

  /** The curve fixes the mode on the device. */
  function DeviceMode(curve: CurveId): Mode {
    if curve == Ed25519 then Ed25519Slip10 else Normal
  }

  /** Every path built for the device is hardened throughout, so that the Ed25519 scheme,
      which refuses all others, derives along it whatever the seed. */
  lemma DevicePathDerives(p: Primitives, n: nat, sk: Bytes, seed: Bytes, right: Block32,
                          coinType: uint32, account: uint32, addressIndex: uint32)
    ensures Slip10.AllHardened(DevicePath(coinType, account, addressIndex))
    ensures Derived(p, n, DeviceMode(Ed25519), Ed25519, sk, seed,
                    DevicePath(coinType, account, addressIndex), right).Some?
  {
    Slip10.EdDerivesExactly(p, MasterNode(p.hmacSha512(sk, seed), right), DevicePath(coinType, account, addressIndex));
  }

  /** The private key of every node derived on a prime-order curve is in [1, n - 1]. */
  lemma DerivedKeyInRange(p: Primitives, n: nat, mode: Mode, curve: CurveId, sk: Bytes, seed: Bytes,
      path: seq<uint32>, right: Block32)
    requires curve != Ed25519 && Terminates(p, n, mode, curve, sk, seed, path)
    ensures Slip10.InRange(n, Derived(p, n, mode, curve, sk, seed, path, right).value)
  {
    var i := Slip10.Master(p, n, sk, seed).value;
    EndsExactly(Slip10.IsPrivateKey(n), Rehash(p, sk), p.hmacSha512(sk, seed));
    assert Slip10.IsPrivateKey(n)(i);
    Slip10.InRangeAlong(p, curve, n, MasterNode(i, right), path);
  }

  // ---------------------------------------------------------------- the same in bytes and numbers

  /** The default HMAC keys of the seeds. */
  lemma SeedKeysInBytes()
    ensures SeedKey(Secp256k1) == [66, 105, 116, 99, 111, 105, 110, 32, 115, 101, 101, 100]
    ensures SeedKey(Secp256r1) == [78, 105, 115, 116, 50, 53, 54, 112, 49, 32, 115, 101, 101, 100]
    ensures SeedKey(Ed25519) == [101, 100, 50, 53, 53, 49, 57, 32, 115, 101, 101, 100]
  {
  }

  /** The device's path: each number with its top bit set. */
  lemma DevicePathInNumbers(coinType: uint32, account: uint32, addressIndex: uint32)
    ensures DevicePath(coinType, account, addressIndex)
         == [0x8000_0000 + coinType % 0x8000_0000, 0x8000_0000 + account % 0x8000_0000,
             0x8000_0000 + addressIndex % 0x8000_0000]
  {
  }

  /** Which scheme stands behind mode and curve. */
  lemma SchemeOfMode(p: Primitives, n: nat, mode: Mode, curve: CurveId, sk: Bytes, seed: Bytes,
      path: seq<uint32>, right: Block32)
    requires Terminates(p, n, mode, curve, sk, seed, path)
    ensures curve == Ed25519 && mode == Ed25519Slip10 ==>
        Derived(p, n, mode, curve, sk, seed, path, right)
          == Derive(Slip10.EdStep(p), MasterNode(p.hmacSha512(sk, seed), right), path)
    ensures curve == Ed25519 && mode == Normal ==>
        && Bip32Ed25519.Master(p, sk, seed).Some?
        && Derived(p, n, mode, curve, sk, seed, path, right)
             == Derive(Bip32Ed25519.Step(p), Bip32Ed25519.Master(p, sk, seed).value, path)
    ensures curve != Ed25519 ==>
        var master := Slip10.Master(p, n, sk, seed).value;
        Derived(p, n, mode, curve, sk, seed, path, right)
          == Derive(Slip10.Step(p, curve, n), Node(master[..32], right, master[32..]), path)
  {
  }

  /** An element of the device's path, big-endian. */
  function HardenedBytes(h: uint32): Bytes {
    [h / 0x100_0000, h / 0x1_0000 % 0x100, h / 0x100 % 0x100, h % 0x100]
  }

  lemma EdStepInBytes(p: Primitives, node: Node, index: uint32, d: Block64)
    requires index >= 0x8000_0000
    requires d == p.hmacSha512(node.chain, [0x00] + node.left + HardenedBytes(index))
    ensures Slip10.EdStep(p)(node, index) == Some(Node(d[..32], node.right, d[32..]))
  {
    Slip10.EdChildInBytes(p, node, index, HardenedBytes(index), d);
  }

  /** On Ed25519 the device's key is four HMACs: of the seed under "ed25519 seed", and then of 00,
      the key and the hardened index under the chain code, once for each number. */
  lemma DeviceEd25519InBytes(p: Primitives, n: nat, seed: Bytes, right: Block32,
                             coinType: uint32, account: uint32, addressIndex: uint32,
                             h1: uint32, h2: uint32, h3: uint32,
                             d0: Block64, d1: Block64, d2: Block64, d3: Block64)
    requires h1 == 0x8000_0000 + coinType % 0x8000_0000 && h2 == 0x8000_0000 + account % 0x8000_0000
    requires h3 == 0x8000_0000 + addressIndex % 0x8000_0000
    requires d0 == p.hmacSha512([101, 100, 50, 53, 53, 49, 57, 32, 115, 101, 101, 100], seed)
    requires d1 == p.hmacSha512(d0[32..], [0x00] + d0[..32] + HardenedBytes(h1))
    requires d2 == p.hmacSha512(d1[32..], [0x00] + d1[..32] + HardenedBytes(h2))
    requires d3 == p.hmacSha512(d2[32..], [0x00] + d2[..32] + HardenedBytes(h3))
    ensures Derived(p, n, DeviceMode(Ed25519), Ed25519, ChosenSeedKey(Ed25519, []), seed,
                    DevicePath(coinType, account, addressIndex), right)
         == Some(Node(d3[..32], right, d3[32..]))
  {
    SeedKeysInBytes();
    DevicePathInNumbers(coinType, account, addressIndex);
    EdStepInBytes(p, Node(d0[..32], right, d0[32..]), h1, d1);
    EdStepInBytes(p, Node(d1[..32], right, d1[32..]), h2, d2);
    EdStepInBytes(p, Node(d2[..32], right, d2[32..]), h3, d3);
    DeriveThree(Slip10.EdStep(p), Node(d0[..32], right, d0[32..]), h1, h2, h3,
      Node(d1[..32], right, d1[32..]), Node(d2[..32], right, d2[32..]), Node(d3[..32], right, d3[32..]));
  }

  lemma DeriveThree(step: (Node, uint32) -> Option<Node>, n0: Node, i1: uint32, i2: uint32, i3: uint32,
      n1: Node, n2: Node, n3: Node)
    requires step(n0, i1) == Some(n1) && step(n1, i2) == Some(n2) && step(n2, i3) == Some(n3)
    ensures Derive(step, n0, [i1, i2, i3]) == Some(n3)
  {
    assert [i1, i2, i3][1..] == [i2, i3] && [i2, i3][1..] == [i3] && [i3][1..] == [];
    assert Derive(step, n3, []) == Some(n3);
    assert Derive(step, n2, [i3]) == Some(n3);
    assert Derive(step, n1, [i2, i3]) == Some(n3);
  }
}
