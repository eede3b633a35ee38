/** BIP32-Ed25519: the master key, the child step, and the in-place loop. */
module Bip32Ed25519 {
  import opened Wrappers
  import opened Bytes
  import opened KeyTree
  import Modular

  // ---------------------------------------------------------------- the child step

  /** kL + 8 * the low 28 bytes of zL, in 256 bits. */
  function ChildLeft(kL: Block32, zL: Block32): Block32 {
    Plus256(8 * LE(zL[..28]), LE(kL))
  }

  /** kR + zR, in 256 bits. */
  function ChildRight(kR: Block32, zR: Block32): Block32 {
    Plus256(LE(zR), LE(kR))
  }

  /** The input of either HMAC: the parent's private key below a hardened index,
      its public key A = kL.G below a normal one. */
  function HmacInput(p: Primitives, node: Node, index: uint32, hardenedTag: byte, normalTag: byte): Bytes {
    (if IsHardened(index) then [hardenedTag] + node.left + node.right
     else [normalTag] + p.edwardsPublic(Reversed(node.left))) + ToLE(index, 4)
  }

  /** Private child derivation; both HMACs read the parent. */
  function Child(p: Primitives, node: Node, index: uint32): Node {
    var z := p.hmacSha512(node.chain, HmacInput(p, node, index, 0, 2));
    var c := p.hmacSha512(node.chain, HmacInput(p, node, index, 1, 3));
    Node(ChildLeft(node.left, z[..32]), ChildRight(node.right, z[32..]), c[32..])
  }

  /** Every step succeeds. */
  ghost function Step(p: Primitives): (Node, uint32) -> Option<Node> {
    (node: Node, index: uint32) => Some(Child(p, node, index))
  }

  // ---------------------------------------------------------------- the step in bytes and numbers

  /** Below a hardened index: Z is the HMAC of 00, both key halves and the little-endian index,
      the chain code the right half of the HMAC of 01 and the same, and the key halves
      grow by 8 times the low 28 bytes of ZL, and by ZR, modulo 2^256. */
  lemma HardenedChild(p: Primitives, node: Node, index: uint32, i: Bytes, z: Block64, c: Block64)
    requires index >= 0x8000_0000
    requires i == [index % 0x100, index / 0x100 % 0x100, index / 0x1_0000 % 0x100, index / 0x100_0000]
    requires z == p.hmacSha512(node.chain, [0x00] + node.left + node.right + i)
    requires c == p.hmacSha512(node.chain, [0x01] + node.left + node.right + i)
    ensures IsMadeFrom(Child(p, node, index), node, z, c)
  {
    ToLE4(index);
    assert i == ToLE(index, 4);
    ChildFromInputs(p, node, index, z, c);
  }

  /** Below a normal index: the tags are 02 and 03, and the public key of the left half takes
      the private key's place. */
  lemma NormalChild(p: Primitives, node: Node, index: uint32, i: Bytes, scalar: Block32, z: Block64, c: Block64)
    requires index < 0x8000_0000 && BE(scalar) == LE(node.left)
    requires i == [index % 0x100, index / 0x100 % 0x100, index / 0x1_0000 % 0x100, index / 0x100_0000]
    requires z == p.hmacSha512(node.chain, [0x02] + p.edwardsPublic(scalar) + i)
    requires c == p.hmacSha512(node.chain, [0x03] + p.edwardsPublic(scalar) + i)
    ensures IsMadeFrom(Child(p, node, index), node, z, c)
  {
    BigEndianScalar(node.left, scalar);
    ToLE4(index);
    assert i == ToLE(index, 4);
    ChildFromInputs(p, node, index, z, c);
  }

  lemma ChildFromInputs(p: Primitives, node: Node, index: uint32, z: Block64, c: Block64)
    requires z == p.hmacSha512(node.chain, HmacInput(p, node, index, 0, 2))
    requires c == p.hmacSha512(node.chain, HmacInput(p, node, index, 1, 3))
    ensures IsMadeFrom(Child(p, node, index), node, z, c)
  {
    MadeFromHmacs(node, z, c);
  }

  lemma BigEndianScalar(k: Block32, scalar: Block32)
    requires BE(scalar) == LE(k)
    ensures scalar == Reversed(k)
  {
    ReversedValue(k);
    BERoundTrip(scalar);
    BERoundTrip(Reversed(k));
  }

  /** The child's key halves and chain code, by their numbers. */
  ghost predicate IsMadeFrom(child: Node, parent: Node, z: Block64, c: Block64) {
    && LE(child.left) == (8 * LE(z[..28]) + LE(parent.left)) % TWO_256
    && LE(child.right) == (LE(z[32..]) + LE(parent.right)) % TWO_256
    && child.chain == c[32..]
  }

  lemma MadeFromHmacs(parent: Node, z: Block64, c: Block64)
    ensures IsMadeFrom(Node(ChildLeft(parent.left, z[..32]), ChildRight(parent.right, z[32..]), c[32..]), parent, z, c)
  {
    assert z[..32][..28] == z[..28];
    Plus256Value(8 * LE(z[..28]), LE(parent.left));
    Plus256Value(LE(z[32..]), LE(parent.right));
  }

  /** No input of a Z is ever an input of a chain code. */
  lemma InputsApart(p: Primitives, node1: Node, index1: uint32, node2: Node, index2: uint32)
    ensures HmacInput(p, node1, index1, 0, 2)[0] == if index1 >= 0x8000_0000 then 0x00 else 0x02
    ensures HmacInput(p, node2, index2, 1, 3)[0] == if index2 >= 0x8000_0000 then 0x01 else 0x03
    ensures HmacInput(p, node1, index1, 0, 2) != HmacInput(p, node2, index2, 1, 3)
  {
  }

  // ---------------------------------------------------------------- its arithmetic in the scratch buffer

  lemma TruncatedBE(z: Block32)
    ensures BE([0, 0, 0, 0] + Reversed(z)[4..]) == LE(z[..28])
    ensures 8 * LE(z[..28]) < Pow256(29)
  {
    var low := z[..28];
    assert Reversed(z)[4..] == Reversed(low);
    BEConcat([0, 0, 0, 0], Reversed(low));
    ReversedValue(low);
    BEZero4();
    LEBound(low);
    assert Pow256(29) == 256 * Pow256(28);
  }

  lemma BEZero4()
    ensures BE([0, 0, 0, 0]) == 0
  {
    assert [0, 0, 0, 0][..3] == [0, 0, 0];
    assert [0, 0, 0][..2] == [0, 0];
    assert [0, 0][..1] == [0];
  }

  lemma {:induction false} Pow256Grows(m: nat, n: nat)
    requires m <= n
    ensures Pow256(m) <= Pow256(n)
  {
    if m < n {
      Pow256Grows(m, n - 1);
    }
  }

  lemma DoubleBE(b: Bytes, d: Bytes)
    requires 2 * BE(b) < Pow256(32) && d == BESum(b, b)
    ensures BE(d) == 2 * BE(b)
  {
    BESumValue(b, b);
  }

  lemma EightfoldBE(d0: Bytes, d1: Bytes, d2: Bytes, d3: Bytes)
    requires 8 * BE(d0) < Pow256(32)
    requires d1 == BESum(d0, d0) && d2 == BESum(d1, d1) && d3 == BESum(d2, d2)
    ensures BE(d3) == 8 * BE(d0)
  {
    DoubleBE(d0, d1);
    DoubleBE(d1, d2);
    DoubleBE(d2, d3);
  }

  /** The flips, the cleared bytes, three doublings and the addition make `ChildLeft`. */
  lemma LeftInScratch(kL: Block32, zL: Block32, d0: Bytes, d1: Bytes, d2: Bytes, d3: Bytes)
    requires d0 == [0, 0, 0, 0] + Reversed(zL)[4..]
    requires d1 == BESum(d0, d0) && d2 == BESum(d1, d1) && d3 == BESum(d2, d2)
    ensures Reversed(BESum(d3, Reversed(kL))) == ChildLeft(kL, zL)
  {
    TruncatedBE(zL);
    Pow256Grows(29, 32);
    LeftSum(kL, LE(zL[..28]), d0, d1, d2, d3);
  }

  lemma LeftSum(kL: Block32, z: nat, d0: Bytes, d1: Bytes, d2: Bytes, d3: Bytes)
    requires BE(d0) == z && 8 * z < Pow256(32)
    requires d1 == BESum(d0, d0) && d2 == BESum(d1, d1) && d3 == BESum(d2, d2)
    ensures Reversed(BESum(d3, Reversed(kL))) == Plus256(8 * z, LE(kL))
  {
    EightfoldBE(d0, d1, d2, d3);
    ReversedValue(kL);
  }

  lemma RightInScratch(kR: Block32, zR: Block32)
    ensures Reversed(BESum(Reversed(zR), Reversed(kR))) == ChildRight(kR, zR)
  {
    ReversedValue(kR);
    ReversedValue(zR);
  }

  // ---------------------------------------------------------------- the loop, stage by stage

  /** A = kL.G, with kL flipped for the call and flipped back. */
  method ParentPublicKey(p: Primitives, key: ExtendedPrivateKey) returns (a: Block32)
    requires key.Valid()
    modifies key.privateKey
    ensures key.privateKey[..] == old(key.privateKey[..])
    ensures a == p.edwardsPublic(Reversed(key.privateKey[..32]))
  {
    ghost var k := key.privateKey[..];
    assert k == k[..32] + k[32..];
    Flip32(key.privateKey, 0);
    a := p.edwardsPublic(key.privateKey[..32]);
    assert key.privateKey[..32] == Reversed(k[..32]) && key.privateKey[32..] == k[32..];
    Flip32(key.privateKey, 0);
    ReversedTwice(k[..32]);
    SameHalves(key.privateKey[..], k);
  }

  /** The little-endian index after the first `len` bytes of the scratch buffer. */
  method PutIndex(tmp: array<byte>, len: nat, index: uint32)
    requires len + 4 <= tmp.Length
    modifies tmp
    ensures tmp[..len] == old(tmp[..len]) && tmp[len..len + 4] == ToLE(index, 4)
  {
    tmp[len + 0] := index % 0x100;
    tmp[len + 1] := index / 0x100 % 0x100;
    tmp[len + 2] := index / 0x1_0000 % 0x100;
    tmp[len + 3] := index / 0x100_0000 % 0x100;
    ToLE4(index);
  }

  /** Step 1 up to Z: tag, key and index, then the HMAC over exactly these bytes,
      written over them. */
  method ComputeZ(p: Primitives, key: ExtendedPrivateKey, tmp: array<byte>, a: Block32, index: uint32)
    requires key.Valid() && tmp.Length == 69 && tmp != key.privateKey && tmp != key.chainCode
    requires a == p.edwardsPublic(Reversed(key.privateKey[..32]))
    modifies tmp
    ensures tmp[1..65] == p.hmacSha512(key.chainCode[..], HmacInput(p, key.Content(), index, 0, 2))
  {
    var len;
    if !IsHardened(index) {
      tmp[0] := 2;
      Copy(tmp, 1, a);
      len := 1 + 32;
      assert tmp[..len] == tmp[..1] + tmp[1..33];
    } else {
      tmp[0] := 0;
      Copy(tmp, 1, key.privateKey[..]);
      len := 1 + 32 * 2;
      assert tmp[..len] == tmp[..1] + tmp[1..65];
    }
    PutIndex(tmp, len, index);
    len := len + 4;
    assert tmp[..len] == tmp[..len - 4] + tmp[len - 4..len];
    assert tmp[..len] == HmacInput(p, key.Content(), index, 0, 2) by {
      assert key.privateKey[..] == key.Content().left + key.Content().right;
    }
    Copy(tmp, 1, p.hmacSha512(key.chainCode[..], tmp[..len]));
  }

  /** kL' = 8*zL + kL in the left half of Z; the right half and the key stay. */
  method AddLeft(key: ExtendedPrivateKey, tmp: array<byte>)
    requires key.Valid() && tmp.Length == 69 && tmp != key.privateKey && tmp != key.chainCode
    modifies tmp, key.privateKey
    ensures key.privateKey[..] == old(key.privateKey[..])
    ensures tmp[33..] == old(tmp[33..])
    ensures tmp[1..33] == ChildLeft(key.privateKey[..32], old(tmp[1..33]))
  {
    ghost var z, k := tmp[1..33], key.privateKey[..];
    ghost var kL := k[..32];
    assert k == k[..32] + k[32..];
    Flip32(tmp, 1);
    Flip32(key.privateKey, 0);
    ScaleAndAdd(key, tmp, kL, z);
    Flip32(tmp, 1);
    Flip32(key.privateKey, 0);
    ReversedTwice(kL);
    SameHalves(key.privateKey[..], k);
  }

  /** The big-endian part of it: 8*zL by three doublings, then plus kL. */
  method ScaleAndAdd(key: ExtendedPrivateKey, tmp: array<byte>, ghost kL: Block32, ghost zL: Block32)
    requires key.Valid() && tmp.Length == 69 && tmp != key.privateKey
    requires key.privateKey[0..32] == Reversed(kL) && tmp[1..33] == Reversed(zL)
    modifies tmp
    ensures tmp[33..] == old(tmp[33..])
    ensures Reversed(tmp[1..33]) == ChildLeft(kL, zL)
  {
    ClearTop(tmp);
    ghost var d0 := tmp[1..33];
    MathAdd(tmp, 1, tmp, 1, tmp, 1);
    ghost var d1 := tmp[1..33];
    MathAdd(tmp, 1, tmp, 1, tmp, 1);
    ghost var d2 := tmp[1..33];
    MathAdd(tmp, 1, tmp, 1, tmp, 1);
    LeftInScratch(kL, zL, d0, d1, d2, tmp[1..33]);
    MathAdd(tmp, 1, tmp, 1, key.privateKey, 0);
  }

  /** The four most significant bytes of zL, once it is big-endian. */
  method ClearTop(tmp: array<byte>)
    requires tmp.Length == 69
    modifies tmp
    ensures tmp[33..] == old(tmp[33..])
    ensures tmp[1..33] == [0, 0, 0, 0] + old(tmp[1..33])[4..]
  {
    Copy(tmp, 1, [0, 0, 0, 0]);
    assert tmp[1..33] == tmp[1..5] + tmp[5..][..28];
    assert tmp[33..] == tmp[5..][28..];
  }

  /** kR' = zR + kR in the right half of Z; the left half and the key stay. */
  method AddRight(key: ExtendedPrivateKey, tmp: array<byte>)
    requires key.Valid() && tmp.Length == 69 && tmp != key.privateKey && tmp != key.chainCode
    modifies tmp, key.privateKey
    ensures key.privateKey[..] == old(key.privateKey[..])
    ensures tmp[..33] == old(tmp[..33])
    ensures tmp[33..65] == ChildRight(key.privateKey[32..], old(tmp[33..65]))
  {
    ghost var z, k := tmp[33..65], key.privateKey[..];
    ghost var kR := k[32..];
    assert k == k[..32] + k[32..64];
    Flip32(tmp, 33);
    Flip32(key.privateKey, 32);
    MathAdd(tmp, 33, tmp, 33, key.privateKey, 32);
    RightInScratch(kR, z);
    Flip32(tmp, 33);
    Flip32(key.privateKey, 32);
    ReversedTwice(kR);
    SameHalves(key.privateKey[..], k);
  }

  /** The child's key goes into the structure, the parent's key stays in Z. */
  method SwapKeys(key: ExtendedPrivateKey, tmp: array<byte>)
    requires key.Valid() && tmp.Length == 69 && tmp != key.privateKey && tmp != key.chainCode
    modifies tmp, key.privateKey
    ensures key.privateKey[..] == old(tmp[1..65]) && tmp[1..65] == old(key.privateKey[..])
  {
    ghost var k, z := key.privateKey[..], tmp[1..65];
    for j := 0 to 64
      invariant forall i | 0 <= i < j :: key.privateKey[i] == z[i] && tmp[1 + i] == k[i]
      invariant forall i | j <= i < 64 :: key.privateKey[i] == k[i] && tmp[1 + i] == z[i]
    {
      var x := key.privateKey[j];
      key.privateKey[j] := tmp[1 + j];
      tmp[1 + j] := x;
    }
  }

  /** Step 2: the chain code's HMAC. In the hardened case only tag and index are
      written, the parent's key being there since the swap. */
  method ComputeChain(p: Primitives, key: ExtendedPrivateKey, tmp: array<byte>, a: Block32, index: uint32,
      ghost parent: Node)
    requires key.Valid() && tmp.Length == 69 && tmp != key.privateKey && tmp != key.chainCode
    requires a == p.edwardsPublic(Reversed(parent.left)) && parent.chain == key.chainCode[..]
    requires tmp[1..65] == parent.left + parent.right
    modifies tmp, key.chainCode
    ensures key.chainCode[..] == p.hmacSha512(parent.chain, HmacInput(p, parent, index, 1, 3))[32..]
  {
    var len;
    if !IsHardened(index) {
      tmp[0] := 3;
      Copy(tmp, 1, a);
      len := 1 + 32;
      assert tmp[..len] == tmp[..1] + tmp[1..33];
    } else {
      tmp[0] := 1;
      len := 1 + 32 * 2;
      assert tmp[..len] == tmp[..1] + tmp[1..65];
    }
    PutIndex(tmp, len, index);
    len := len + 4;
    assert tmp[..len] == tmp[..len - 4] + tmp[len - 4..len];
    assert tmp[..len] == HmacInput(p, parent, index, 1, 3);
    ghost var c := p.hmacSha512(parent.chain, tmp[..len]);
    Copy(tmp, 0, p.hmacSha512(key.chainCode[..], tmp[..len]));
    assert tmp[0..64] == c;
    assert tmp[32..64] == c[32..];
    Copy(key.chainCode, 0, tmp[32..64]);
  }

  /** One round of the loop is one child step, whatever the scratch buffer held. */
  method DeriveChild(p: Primitives, key: ExtendedPrivateKey, tmp: array<byte>, index: uint32)
    requires key.Valid() && tmp.Length == 69 && tmp != key.privateKey && tmp != key.chainCode
    modifies tmp, key.privateKey, key.chainCode
    ensures key.Content() == Child(p, old(key.Content()), index)
    ensures Node(key.privateKey[..32], key.privateKey[32..], key.chainCode[..])
         == Child(p, Node(old(key.privateKey[..32]), old(key.privateKey[32..]), old(key.chainCode[..])), index)
  {
    ghost var parent := key.Content();
    assert key.privateKey[..] == parent.left + parent.right;
    var a := ParentPublicKey(p, key);
    ComputeZ(p, key, tmp, a, index);
    ghost var z := tmp[1..65];
    assert tmp[1..33] == z[..32] && tmp[33..65] == z[32..];
    assert tmp[33..65] == tmp[33..][..32];
    AddLeft(key, tmp);
    assert tmp[33..65] == tmp[33..][..32] == z[32..];
    assert tmp[1..33] == tmp[..33][1..];
    AddRight(key, tmp);
    assert tmp[1..33] == tmp[..33][1..];
    ghost var child := tmp[1..65];
    assert child == tmp[1..33] + tmp[33..65];
    SwapKeys(key, tmp);
    ComputeChain(p, key, tmp, a, index, parent);
    assert key.privateKey[..32] == child[..32] && key.privateKey[32..] == child[32..];
  }

  /** `hdw_bip32_ed25519`: the whole loop, on one scratch buffer of arbitrary content. */
  method HdwBip32Ed25519(p: Primitives, key: ExtendedPrivateKey, path: seq<uint32>)
    requires key.Valid()
    modifies key.privateKey, key.chainCode
    ensures Some(key.Content()) == Derive(Step(p), old(key.Content()), path)
  {
    ghost var master := key.Content();
    var tmp := new byte[1 + 64 + 4];
    for i := 0 to |path|
      invariant Some(key.Content()) == Derive(Step(p), master, path[..i])
    {
      DeriveLast(Step(p), master, path, i);
      DeriveChild(p, key, tmp, path[i]);
    }
    assert path[..|path|] == path;
  }

  /** The loop along one path and then along another is the derivation along both. */
  method HdwAlongBoth(p: Primitives, key: ExtendedPrivateKey, front: seq<uint32>, back: seq<uint32>)
    requires key.Valid()
    modifies key.privateKey, key.chainCode
    ensures Some(key.Content()) == Derive(Step(p), old(key.Content()), front + back)
  {
    DeriveComposes(Step(p), key.Content(), front, back);
    HdwBip32Ed25519(p, key, front);
    HdwBip32Ed25519(p, key, back);
  }

  // ---------------------------------------------------------------- the master key

  /** `private_key[31] & 0x20`. */
  predicate ThirdHighestBit(k: Bytes)
    requires |k| == 64
  {
    k[31] / 0x20 % 2 == 1
  }

  /** `private_key[0] &= 0xF8`, `private_key[31] = (private_key[31] & 0x7F) | 0x40`. */
  function Clamp(k: Bytes): Bytes
    requires |k| == 64
  {
    var top := k[31] % 0x80;
    k[0 := k[0] - k[0] % 8][31 := if top / 0x40 % 2 == 1 then top else top + 0x40]
  }

  ghost function Usable(): Block64 -> bool {
    (k: Block64) => !ThirdHighestBit(k)
  }

  /** The master node, when the rehashing of the seed ever clears the third highest bit. */
  ghost function Master(p: Primitives, sk: Bytes, seed: Bytes): Option<Node> {
    match FirstAccepted(Usable(), Rehash(p, sk), p.hmacSha512(sk, seed))
    case None => None
    case Some(k) =>
      var c := Clamp(k);
      Some(Node(c[..32], c[32..], p.hmacSha256(sk, [0x01] + seed)))
  }

  /** `expand_seed_ed25519_bip32`, with its loop assumed to end; the copy of the seed
      has to fit the 65-byte buffer. */
  method ExpandSeed(p: Primitives, sk: Bytes, seed: Bytes, key: ExtendedPrivateKey)
    requires key.Valid() && |seed| <= 64 && Master(p, sk, seed).Some?
    modifies key.privateKey, key.chainCode
    ensures Some(key.Content()) == Master(p, sk, seed)
  {
    ghost var k0 := p.hmacSha512(sk, seed);
    ghost var last: nat :| IsFirst(Usable(), Rehash(p, sk), k0, last);
    FirstIsUnique(Usable(), Rehash(p, sk), k0, last);
    FirstHashes(p, sk, seed, key);
    ghost var j := 0;
    while key.privateKey[31] / 0x20 % 2 == 1
      invariant j <= last && key.privateKey[..] == Iterate(Rehash(p, sk), k0, j)
      invariant key.chainCode[..] == p.hmacSha256(sk, [0x01] + seed)
      decreases last - j
    {
      ghost var k: Block64 := key.privateKey[..];
      NextIterate(Usable(), Rehash(p, sk), k0, j, last, k);
      Copy(key.privateKey, 0, p.hmacSha512(sk, key.privateKey[..]));
      j := j + 1;
    }
    assert Usable()(key.privateKey[..]);
    ClampKey(key.privateKey);
  }

  method FirstHashes(p: Primitives, sk: Bytes, seed: Bytes, key: ExtendedPrivateKey)
    requires key.Valid() && |seed| <= 64
    modifies key.privateKey, key.chainCode
    ensures key.privateKey[..] == p.hmacSha512(sk, seed) && key.chainCode[..] == p.hmacSha256(sk, [0x01] + seed)
  {
    Copy(key.chainCode, 0, p.hmacSha256(sk, [0x01] + seed));
    Copy(key.privateKey, 0, p.hmacSha512(sk, seed));
  }

  method ClampKey(k: array<byte>)
    requires k.Length == 64
    modifies k
    ensures k[..] == Clamp(old(k[..]))
  {
    k[0] := k[0] - k[0] % 8;
    var top := k[31] % 0x80;
    k[31] := if top / 0x40 % 2 == 1 then top else top + 0x40;
  }

  /** The master key in bytes: HMAC of the seed, rehashed while bit 5 of byte 31 is set; of the
      first other digest the three low bits, the top bit and bit 254 are fixed; and the
      chain code is the HMAC-SHA256 of 01 and the seed. */
  lemma MasterInBytes(p: Primitives, sk: Bytes, seed: Bytes, ks: seq<Block64>, k: Block64)
    requires |ks| > 0 && ks[0] == p.hmacSha512(sk, seed) && k == ks[|ks| - 1]
    requires forall i | 0 <= i < |ks| - 1 :: ks[i][31] / 0x20 % 2 == 1 && ks[i + 1] == p.hmacSha512(sk, ks[i])
    requires k[31] / 0x20 % 2 == 0
    ensures Master(p, sk, seed)
         == Some(Node([k[0] / 8 * 8] + k[1..31] + [0x40 + k[31] % 0x20], k[32..], p.hmacSha256(sk, [0x01] + seed)))
  {
    assert Runs(Usable(), Rehash(p, sk), ks);
    RunEnds(Usable(), Rehash(p, sk), ks);
    ClampBytes(k);
  }

  lemma ClampBytes(k: Block64)
    requires k[31] / 0x20 % 2 == 0
    ensures Clamp(k)[..32] == [k[0] / 8 * 8] + k[1..31] + [0x40 + k[31] % 0x20] && Clamp(k)[32..] == k[32..]
  {
    ClampedByte(k[31]);
  }

  lemma ClampedByte(b: byte)
    requires b / 0x20 % 2 == 0
    ensures (var top := b % 0x80; if top / 0x40 % 2 == 1 then top else top + 0x40) == 0x40 + b % 0x20
  {
  }

  // ---------------------------------------------------------------- the scalar stays in range

  const TWO_227: nat := 0x8_0000_0000_0000_0000_0000_0000_0000_0000_0000_0000_0000_0000_0000_0000
  const TWO_248: nat := 0x100_0000_0000_0000_0000_0000_0000_0000_0000_0000_0000_0000_0000_0000_0000_0000
  const TWO_253: nat := 0x20 * TWO_248
  const TWO_254: nat := 0x40 * TWO_248
  const MAX_DEPTH: nat := 0x400_0000

  /** Bit 254 set, bit 255 clear and the three low bits clear, as bytes; and the
      distance from 2^254 that `depth` additions can have covered. */
  ghost predicate ScalarInRange(kL: Block32, depth: nat) {
    && kL[0] % 8 == 0
    && kL[31] / 0x40 == 1
    && LE(kL) < TWO_254 + TWO_253 + depth * TWO_227
  }

  lemma Powers()
    ensures 8 * Pow256(28) == TWO_227 && Pow256(31) == TWO_248 && Pow256(32) == 0x100 * TWO_248
    ensures TWO_253 == MAX_DEPTH * TWO_227
  {
    PowersTo24();
    Pow256Sum(24, 4);
    Pow256Sum(28, 3);
    Pow256Sum(28, 4);
  }

  lemma PowersTo24()
    ensures Pow256(3) == 0x100_0000 && Pow256(4) == 0x1_0000_0000
    ensures Pow256(24) == 0x1_0000_0000_0000_0000_0000_0000_0000_0000_0000_0000_0000_0000
  {
    assert Pow256(2) == 0x1_0000 && Pow256(3) == 0x100_0000;
    Pow256Sum(2, 2);
    Pow256Sum(4, 4);
    Pow256Sum(8, 8);
    Pow256Sum(16, 8);
  }

  /** The byte form of the two ends of a 32-byte little-endian number. */
  lemma EndsOfLE(s: Block32)
    ensures LE(s) % 8 == s[0] % 8
    ensures s[31] * TWO_248 <= LE(s) < (s[31] + 1) * TWO_248
  {
    LowEnd(s[0], LE(s[1..]));
    HighEnd(s);
  }

  lemma LowEnd(b: nat, rest: nat)
    ensures (b + 256 * rest) % 8 == b % 8 && (8 * rest + b) % 8 == b % 8
  {
    Modular.DivModUnique(b + 256 * rest, 8, 32 * rest + b / 8, b % 8);
    Modular.DivModUnique(8 * rest + b, 8, rest + b / 8, b % 8);
  }

  lemma HighEnd(s: Block32)
    ensures s[31] * TWO_248 <= LE(s) < (s[31] + 1) * TWO_248
  {
    var low, high := s[..31], [s[31]];
    LEConcat(low, high);
    assert s == low + high;
    LEBound(low);
    assert LE(high) == s[31];
    Powers();
  }

  lemma InRangeValue(kL: Block32, depth: nat)
    requires ScalarInRange(kL, depth)
    ensures LE(kL) % 8 == 0 && TWO_254 <= LE(kL)
  {
    EndsOfLE(kL);
  }

  lemma RangeArithmetic(kL: nat, z: nat, depth: nat)
    requires kL < TWO_254 + TWO_253 + depth * TWO_227 && 8 * z < TWO_227 && depth < MAX_DEPTH
    ensures 8 * z + kL < TWO_254 + TWO_253 + (depth + 1) * TWO_227 <= 0x80 * TWO_248
  {
    Powers();
  }

  /** One level deeper: the additions stay below 2^255, so the carry they drop is 0
      and the child's scalar is the plain sum. */
  lemma StepNeverCarries(kL: Block32, zL: Block32, depth: nat)
    requires ScalarInRange(kL, depth) && depth < MAX_DEPTH
    ensures 8 * LE(zL[..28]) + LE(kL) < 0x80 * TWO_248
    ensures LE(ChildLeft(kL, zL)) == 8 * LE(zL[..28]) + LE(kL)
    ensures ScalarInRange(ChildLeft(kL, zL), depth + 1)
  {
    Powers();
    LEBound(zL[..28]);
    RangeArithmetic(LE(kL), LE(zL[..28]), depth);
    SumStaysClamped(kL, LE(zL[..28]), ChildLeft(kL, zL));
  }

  lemma SumStaysClamped(kL: Block32, z: nat, child: Block32)
    requires kL[0] % 8 == 0 && kL[31] / 0x40 == 1
    requires child == Plus256(8 * z, LE(kL)) && 8 * z + LE(kL) < 0x80 * TWO_248
    ensures LE(child) == 8 * z + LE(kL)
    ensures child[0] % 8 == 0 && child[31] / 0x40 == 1
  {
    ExactSum(8 * z, LE(kL), child);
    EndsOfLE(kL);
    EndsOfLE(child);
    LowEnd(LE(kL), z);
    TopByte(kL[31], LE(kL), child[31], LE(child));
  }

  lemma ExactSum(m: nat, n: nat, sum: Block32)
    requires m + n < 0x80 * TWO_248 && sum == Plus256(m, n)
    ensures LE(sum) == m + n
  {
    Powers();
    ToLEValue(m + n, 32);
  }

  /** Between 2^254 and 2^255 the top byte is between 0x40 and 0x7F. */
  lemma TopByte(t: byte, m: nat, u: byte, n: nat)
    requires t / 0x40 == 1 && t * TWO_248 <= m <= n < 0x80 * TWO_248
    requires u * TWO_248 <= n < (u + 1) * TWO_248
    ensures u / 0x40 == 1
  {
  }

  /** The clamp puts the master scalar in range. */
  lemma MasterInRange(p: Primitives, sk: Bytes, seed: Bytes)
    requires Master(p, sk, seed).Some?
    ensures ScalarInRange(Master(p, sk, seed).value.left, 0)
  {
    EndsExactly(Usable(), Rehash(p, sk), p.hmacSha512(sk, seed));
    var k := FirstAccepted(Usable(), Rehash(p, sk), p.hmacSha512(sk, seed)).value;
    assert Usable()(k);
    ClampedInRange(k);
  }

  lemma ClampedInRange(k: Block64)
    requires !ThirdHighestBit(k)
    ensures ScalarInRange(Clamp(k)[..32], 0)
  {
    ClampedTop(k[31]);
    var kL: Block32 := Clamp(k)[..32];
    assert kL[31] < 0x60;
    HighEnd(kL);
  }

  lemma ClampedTop(b: byte)
    requires b / 0x20 % 2 == 0
    ensures var top := b % 0x80; 0x40 <= (if top / 0x40 % 2 == 1 then top else top + 0x40) < 0x60
  {
  }

  /** What the left half of Z adds at this index. */
  function Increment(p: Primitives, node: Node, index: uint32): nat {
    8 * LE(p.hmacSha512(node.chain, HmacInput(p, node, index, 0, 2))[..28])
  }

  lemma ChildInRange(p: Primitives, node: Node, index: uint32, depth: nat)
    requires ScalarInRange(node.left, depth) && depth < MAX_DEPTH
    ensures ScalarInRange(Child(p, node, index).left, depth + 1)
    ensures LE(Child(p, node, index).left) == Increment(p, node, index) + LE(node.left)
  {
    var z := p.hmacSha512(node.chain, HmacInput(p, node, index, 0, 2));
    StepNeverCarries(node.left, z[..32], depth);
    assert z[..32][..28] == z[..28];
  }

  lemma {:induction false} InRangeAlong(p: Primitives, node: Node, depth: nat, path: seq<uint32>)
    requires ScalarInRange(node.left, depth) && depth + |path| <= MAX_DEPTH
    ensures Derive(Step(p), node, path).Some?
    ensures ScalarInRange(Derive(Step(p), node, path).value.left, depth + |path|)
    decreases |path|
  {
    if |path| > 0 {
      var child := Child(p, node, path[0]);
      ChildInRange(p, node, path[0], depth);
      InRangeAlong(p, child, depth + 1, path[1..]);
      assert Derive(Step(p), node, path) == Derive(Step(p), child, path[1..]);
    }
  }

  /** Along every path of at most 2^26 steps from a master key, the scalar is a
      multiple of 8 with bit 254 set and bit 255 clear, it is below
      2^254 + 2^253 + depth * 2^227, and no addition on the way drops a carry. */
  lemma ScalarStaysInRange(p: Primitives, sk: Bytes, seed: Bytes, path: seq<uint32>, index: uint32)
    requires Master(p, sk, seed).Some? && |path| <= MAX_DEPTH
    ensures Derive(Step(p), Master(p, sk, seed).value, path).Some?
    ensures var node := Derive(Step(p), Master(p, sk, seed).value, path).value;
            && ScalarInRange(node.left, |path|)
            && LE(node.left) % 8 == 0 && TWO_254 <= LE(node.left)
            && (|path| < MAX_DEPTH ==> LE(Child(p, node, index).left) == Increment(p, node, index) + LE(node.left))
  {
    MasterInRange(p, sk, seed);
    var master := Master(p, sk, seed).value;
    InRangeAlong(p, master, 0, path);
    var node := Derive(Step(p), master, path).value;
    InRangeValue(node.left, |path|);
    if |path| < MAX_DEPTH {
      ChildInRange(p, node, index, |path|);
    }
  }
}
