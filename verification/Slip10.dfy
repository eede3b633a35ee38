/** SLIP-0010 and BIP-0032 private derivation: the Ed25519 loop that accepts only
    hardened indices, and the loop over prime-order curves with its retries. */
module Slip10 {
  import opened Wrappers
  import opened Bytes
  import opened KeyTree

  // ---------------------------------------------------------------- shared pieces

  /** The big-endian index after the first 33 bytes of the scratch buffer. */
  method PutIndexBE(tmp: array<byte>, index: uint32)
    requires tmp.Length == 69
    modifies tmp
    ensures tmp[..33] == old(tmp[..33]) && tmp[33..37] == ToBE(index, 4)
  {
    tmp[33] := index / 0x100_0000 % 0x100;
    tmp[34] := index / 0x1_0000 % 0x100;
    tmp[35] := index / 0x100 % 0x100;
    tmp[36] := index % 0x100;
    IndexBytesBE(index);
  }

  lemma IndexBytesBE(index: uint32)
    ensures ToBE(index, 4) == [index / 0x100_0000 % 0x100, index / 0x1_0000 % 0x100, index / 0x100 % 0x100,
        index % 0x100]
  {
    var a := index / 256;
    var b := a / 256;
    var c := b / 256;
    assert b == index / 0x1_0000 && c == index / 0x100_0000;
    assert ToBE(c, 1) == [c % 256];
    assert ToBE(b, 2) == ToBE(c, 1) + [b % 256];
    assert ToBE(a, 3) == ToBE(b, 2) + [a % 256];
  }

  /** Index and HMAC in place: the digest of `first33` and the index replaces them. */
  method HashScratch(p: Primitives, key: ExtendedPrivateKey, tmp: array<byte>, index: uint32, ghost first33: Bytes)
    requires key.Valid() && tmp.Length == 69 && tmp != key.chainCode && tmp[..33] == first33
    modifies tmp
    ensures tmp[..64] == p.hmacSha512(key.chainCode[..], first33 + ToBE(index, 4))
  {
    PutIndexBE(tmp, index);
    assert tmp[..37] == tmp[..33] + tmp[33..37];
    Copy(tmp, 0, p.hmacSha512(key.chainCode[..], tmp[..37]));
    assert tmp[..64] == tmp[0..64];
  }

  /** The new key and chain code out of the scratch buffer; the second half of the
      64-byte key field is not touched. */
  method StoreChild(key: ExtendedPrivateKey, tmp: array<byte>)
    requires key.Valid() && tmp.Length == 69 && tmp != key.privateKey && tmp != key.chainCode
    modifies key.privateKey, key.chainCode
    ensures key.Content() == Node(tmp[..32], old(key.Content()).right, tmp[32..64])
  {
    Copy(key.privateKey, 0, tmp[..32]);
    Copy(key.chainCode, 0, tmp[32..64]);
    assert key.privateKey[..32] == key.privateKey[0..32] && key.chainCode[..] == key.chainCode[0..32];
  }

  // ---------------------------------------------------------------- Ed25519: hardened only

  ghost function EdChild(p: Primitives, node: Node, index: uint32): Option<Node> {
    if !IsHardened(index) then None
    else
      var i := p.hmacSha512(node.chain, [0] + node.left + ToBE(index, 4));
      Some(Node(i[..32], node.right, i[32..]))
  }

  ghost function EdStep(p: Primitives): (Node, uint32) -> Option<Node> {
    (node: Node, index: uint32) => EdChild(p, node, index)
  }

  predicate AllHardened(path: seq<uint32>) {
    forall i | 0 <= i < |path| :: IsHardened(path[i])
  }

  lemma AllHardenedConcat(p: seq<uint32>, q: seq<uint32>)
    ensures AllHardened(p + q) <==> AllHardened(p) && AllHardened(q)
  {
    if AllHardened(p + q) {
      forall i | 0 <= i < |p| ensures IsHardened(p[i]) {
        assert (p + q)[i] == p[i];
      }
      forall i | 0 <= i < |q| ensures IsHardened(q[i]) {
        assert (p + q)[|p| + i] == q[i];
      }
    }
  }

  /** The child in bytes: refused below 2^31, else the halves of the HMAC of 00, the key and
      the big-endian index. */
  lemma EdChildInBytes(p: Primitives, node: Node, index: uint32, i: Bytes, d: Block64)
    requires i == [index / 0x100_0000, index / 0x1_0000 % 0x100, index / 0x100 % 0x100, index % 0x100]
    requires d == p.hmacSha512(node.chain, [0x00] + node.left + i)
    ensures EdChild(p, node, index)
         == if index < 0x8000_0000 then None else Some(Node(d[..32], node.right, d[32..]))
  {
    IndexBytesBE(index);
    assert i == ToBE(index, 4);
  }

  /** A path derives exactly when every element is hardened. */
  lemma {:induction false} EdDerivesExactly(p: Primitives, node: Node, path: seq<uint32>)
    ensures Derive(EdStep(p), node, path).Some? <==> AllHardened(path)
    decreases |path|
  {
    if |path| > 0 {
      assert path == [path[0]] + path[1..];
      if IsHardened(path[0]) {
        EdDerivesExactly(p, EdChild(p, node, path[0]).value, path[1..]);
        assert AllHardened(path) <==> AllHardened(path[1..]);
      }
    }
  }

  /** One round of the loop on a hardened index. */
  method DeriveEdChild(p: Primitives, key: ExtendedPrivateKey, tmp: array<byte>, index: uint32)
    requires key.Valid() && tmp.Length == 69 && tmp != key.privateKey && tmp != key.chainCode && IsHardened(index)
    modifies tmp, key.privateKey, key.chainCode
    ensures Some(key.Content()) == EdChild(p, old(key.Content()), index)
  {
    ghost var parent := key.Content();
    tmp[0] := 0;
    Copy(tmp, 1, key.privateKey[..32]);
    assert tmp[..33] == tmp[..1] + tmp[1..33];
    HashScratch(p, key, tmp, index, [0] + parent.left);
    ghost var digest := tmp[..64];
    assert tmp[..32] == digest[..32] && tmp[32..64] == digest[32..];
    StoreChild(key, tmp);
  }

  /** `hdw_slip10`: it stops at the first normal index, with the key of the path up to there. */
  method HdwSlip10(p: Primitives, key: ExtendedPrivateKey, path: seq<uint32>) returns (ok: bool, ghost done: nat)
    requires key.Valid()
    modifies key.privateKey, key.chainCode
    ensures ok <==> AllHardened(path)
    ensures done <= |path| && AllHardened(path[..done]) && (done < |path| ==> !IsHardened(path[done]))
    ensures Some(key.Content()) == Derive(EdStep(p), old(key.Content()), path[..done])
  {
    ghost var master := key.Content();
    var tmp := new byte[1 + 64 + 4];
    done := 0;
    for i := 0 to |path|
      invariant done == i && AllHardened(path[..i])
      invariant Some(key.Content()) == Derive(EdStep(p), master, path[..i])
    {
      if !IsHardened(path[i]) {
        return false, i;
      }
      DeriveLast(EdStep(p), master, path, i);
      DeriveEdChild(p, key, tmp, path[i]);
      done := done + 1;
    }
    assert path[..|path|] == path;
    return true, done;
  }

  /** The loop along one path and, when that succeeds, along another leaves what one
      run along both leaves. */
  method HdwSlip10AlongBoth(p: Primitives, key: ExtendedPrivateKey, front: seq<uint32>, back: seq<uint32>)
    returns (ok: bool, ghost done: nat)
    requires key.Valid()
    modifies key.privateKey, key.chainCode
    ensures ok <==> AllHardened(front + back)
    ensures done <= |front + back| && AllHardened((front + back)[..done])
    ensures done < |front + back| ==> !IsHardened((front + back)[done])
    ensures Some(key.Content()) == Derive(EdStep(p), old(key.Content()), (front + back)[..done])
  {
    ghost var master := key.Content();
    AllHardenedConcat(front, back);
    ok, done := HdwSlip10(p, key, front);
    if !ok {
      assert done < |front| by { assert front[..|front|] == front; }
      assert (front + back)[..done] == front[..done] && (front + back)[done] == front[done];
      return;
    }
    assert front[..done] == front;
    ghost var more;
    ok, more := HdwSlip10(p, key, back);
    done := |front| + more;
    assert (front + back)[..done] == front + back[..more];
    DeriveComposes(EdStep(p), master, front, back[..more]);
  }

  // ---------------------------------------------------------------- prime-order curves

  /** The first 33 bytes below a hardened or a normal index. */
  function Compressed(w: Block65): Block33 {
    [if w[64] % 2 == 1 then 0x03 else 0x02] + w[1..33]
  }

  function FirstInput(p: Primitives, curve: CurveId, node: Node, index: uint32): Block33 {
    if IsHardened(index) then [0] + node.left else Compressed(p.publicPoint(curve, node.left))
  }

  ghost function Retry(p: Primitives, chain: Block32, index: uint32): Block64 -> Block64 {
    (i: Block64) => p.hmacSha512(chain, [1] + i[32..] + ToBE(index, 4))
  }

  /** I is kept when IL is below the order and does not cancel the parent's key. */
  ghost function Keeps(n: nat, parent: nat): Block64 -> bool
    requires n > 0
  {
    (i: Block64) => Kept(n, parent, i)
  }

  predicate Kept(n: nat, parent: nat, i: Block64)
    requires n > 0
  {
    BE(i[..32]) < n && (BE(i[..32]) + parent) % n != 0
  }

  /** The first I of a child. */
  function FirstDigest(p: Primitives, curve: CurveId, node: Node, index: uint32): Block64 {
    p.hmacSha512(node.chain, FirstInput(p, curve, node, index) + ToBE(index, 4))
  }

  /** The child a kept I makes: (IL + k) mod n, and IR as its chain code. */
  function Combine(n: nat, node: Node, i: Block64): Node
    requires n > 0
  {
    Node(ToBE((BE(i[..32]) + BE(node.left)) % n, 32), node.right, i[32..])
  }

  /** SLIP-0010 private child: made from the first kept I among HMAC(first input)
      and HMAC(01 | IR | index) over and over; None if there is none. */
  ghost function Child(p: Primitives, curve: CurveId, n: nat, node: Node, index: uint32): Option<Node>
    requires n > 0
  {
    match FirstAccepted(Keeps(n, BE(node.left)), Retry(p, node.chain, index), FirstDigest(p, curve, node, index))
    case None => None
    case Some(i) => Some(Combine(n, node, i))
  }

  lemma ChildFrom(p: Primitives, curve: CurveId, n: nat, node: Node, index: uint32, j: nat)
    requires n > 0
    requires IsFirst(Keeps(n, BE(node.left)), Retry(p, node.chain, index), FirstDigest(p, curve, node, index), j)
    ensures Child(p, curve, n, node, index)
        == Some(Combine(n, node, Iterate(Retry(p, node.chain, index), FirstDigest(p, curve, node, index), j)))
  {
    FirstIsUnique(Keeps(n, BE(node.left)), Retry(p, node.chain, index), FirstDigest(p, curve, node, index), j);
  }

  lemma ChildEnds(p: Primitives, curve: CurveId, n: nat, node: Node, index: uint32) returns (last: nat)
    requires n > 0 && Child(p, curve, n, node, index).Some?
    ensures IsFirst(Keeps(n, BE(node.left)), Retry(p, node.chain, index), FirstDigest(p, curve, node, index), last)
  {
    last :| IsFirst(Keeps(n, BE(node.left)), Retry(p, node.chain, index), FirstDigest(p, curve, node, index), last);
  }

  /** The child in bytes and numbers. The first input is 00 and the key from index 2^31 on, else
      02 or 03, by the parity of y, and x of the public point; every retry's input is 01 and the
      right half of the digest before. A digest is refused when its left half is not below
      n or makes the sum with the key 0 modulo n; the first other one gives that sum as
      the key and its right half as the chain code. */
  lemma ChildInBytes(p: Primitives, curve: CurveId, n: nat, node: Node, index: uint32, i: Bytes, first: Bytes,
      ds: seq<Block64>, d: Block64)
    requires 0 < n <= TWO_256
    requires i == [index / 0x100_0000, index / 0x1_0000 % 0x100, index / 0x100 % 0x100, index % 0x100]
    requires index >= 0x8000_0000 ==> first == [0x00] + node.left
    requires index < 0x8000_0000 ==> IsCompressed(first, p.publicPoint(curve, node.left))
    requires |ds| > 0 && ds[0] == p.hmacSha512(node.chain, first + i) && d == ds[|ds| - 1]
    requires forall j | 0 <= j < |ds| - 1 ::
               && (BE(ds[j][..32]) >= n || (BE(ds[j][..32]) + BE(node.left)) % n == 0)
               && ds[j + 1] == p.hmacSha512(node.chain, [0x01] + ds[j][32..] + i)
    requires BE(d[..32]) < n && (BE(d[..32]) + BE(node.left)) % n != 0
    ensures var child := Child(p, curve, n, node, index);
            && child.Some?
            && BE(child.value.left) == (BE(d[..32]) + BE(node.left)) % n
            && child.value.right == node.right && child.value.chain == d[32..]
  {
    IndexBytesBE(index);
    FirstInBytes(p, curve, node, index, first);
    RunOfChild(p, n, node, index, i, ds, d);
    CombineValue(n, node, d);
  }

  lemma FirstInBytes(p: Primitives, curve: CurveId, node: Node, index: uint32, first: Bytes)
    requires index >= 0x8000_0000 ==> first == [0x00] + node.left
    requires index < 0x8000_0000 ==> IsCompressed(first, p.publicPoint(curve, node.left))
    ensures first == FirstInput(p, curve, node, index)
  {
    if index < 0x8000_0000 {
      assert first == [first[0]] + first[1..];
    }
  }

  predicate IsCompressed(first: Bytes, w: Block65) {
    |first| == 33 && first[1..] == w[1..33] && first[0] == if w[64] % 2 == 1 then 0x03 else 0x02
  }

  lemma RunOfChild(p: Primitives, n: nat, node: Node, index: uint32, i: Bytes, ds: seq<Block64>, d: Block64)
    requires n > 0 && i == ToBE(index, 4) && |ds| > 0 && d == ds[|ds| - 1]
    requires BE(d[..32]) < n && (BE(d[..32]) + BE(node.left)) % n != 0
    requires forall j | 0 <= j < |ds| - 1 ::
               && (BE(ds[j][..32]) >= n || (BE(ds[j][..32]) + BE(node.left)) % n == 0)
               && ds[j + 1] == p.hmacSha512(node.chain, [0x01] + ds[j][32..] + i)
    ensures FirstAccepted(Keeps(n, BE(node.left)), Retry(p, node.chain, index), ds[0]) == Some(d)
  {
    assert Runs(Keeps(n, BE(node.left)), Retry(p, node.chain, index), ds);
    RunEnds(Keeps(n, BE(node.left)), Retry(p, node.chain, index), ds);
  }

  lemma CombineValue(n: nat, node: Node, d: Block64)
    requires 0 < n <= TWO_256
    ensures BE(Combine(n, node, d).left) == (BE(d[..32]) + BE(node.left)) % n
  {
    Pow256Of32();
    ToBEValue((BE(d[..32]) + BE(node.left)) % n, 32);
  }

  /** A first input is never the input of a retry. */
  lemma FirstIsNoRetry(p: Primitives, curve: CurveId, node: Node, index: uint32, ir: Block32)
    ensures FirstInput(p, curve, node, index)[0] in {0x00, 0x02, 0x03}
    ensures FirstInput(p, curve, node, index) + ToBE(index, 4) != [0x01] + ir + ToBE(index, 4)
  {
    var i := ToBE(index, 4);
    assert (FirstInput(p, curve, node, index) + i)[0] != ([0x01] + ir + i)[0];
  }

  ghost function Step(p: Primitives, curve: CurveId, n: nat): (Node, uint32) -> Option<Node>
    requires n > 0
  {
    (node: Node, index: uint32) => Child(p, curve, n, node, index)
  }

  /** A private key of the curve. */
  ghost predicate InRange(n: nat, node: Node) {
    1 <= BE(node.left) < n
  }

  /** `01 | IR` for the next attempt. The original copies 32 bytes over a range that
      shares its last byte with the source; as a forward copy. */
  method PrepareRetry(tmp: array<byte>, ghost ir: Block32)
    requires tmp.Length == 69 && tmp[32..64] == ir
    modifies tmp
    ensures tmp[..33] == [1] + ir
  {
    tmp[0] := 1;
    var source := tmp[32..64];
    assert source == ir;
    Copy(tmp, 1, source);
    assert tmp[..33] == tmp[..1] + tmp[1..33];
  }

  /** `cx_math_addm` on reduced operands, over the first 32 bytes of the scratch buffer. */
  method AddMod(tmp: array<byte>, k: array<byte>, n: nat)
    requires tmp.Length == 69 && k.Length == 64 && tmp != k
    requires BE(tmp[..32]) < n && BE(k[..32]) < n && n <= Pow256(32)
    modifies tmp
    ensures tmp[..32] == ToBE((BE(old(tmp[..32])) + BE(k[..32])) % n, 32)
    ensures BE(tmp[..32]) == (BE(old(tmp[..32])) + BE(k[..32])) % n
    ensures tmp[32..64] == old(tmp[32..64])
  {
    ghost var tail := tmp[32..];
    var sum := (BE(tmp[..32]) + BE(k[..32])) % n;
    ToBEValue(sum, 32);
    Copy(tmp, 0, ToBE(sum, 32));
    assert tmp[..32] == tmp[0..32];
    assert tmp[32..64] == tmp[32..][..32] == tail[..32];
  }

  method LoadFirstInput(p: Primitives, curve: CurveId, key: ExtendedPrivateKey, tmp: array<byte>, index: uint32)
    requires key.Valid() && tmp.Length == 69 && tmp != key.privateKey && tmp != key.chainCode
    modifies tmp
    ensures tmp[..33] == FirstInput(p, curve, key.Content(), index)
  {
    if IsHardened(index) {
      tmp[0] := 0;
      Copy(tmp, 1, key.privateKey[..32]);
      assert tmp[..33] == tmp[..1] + tmp[1..33];
    } else {
      var w := p.publicPoint(curve, key.privateKey[..32]);
      Copy(tmp, 0, [if w[64] % 2 == 1 then 0x03 else 0x02] + w[1..33]);
      assert tmp[..33] == tmp[0..33];
    }
  }

  /** The check of one digest: kept and combined, or made into the next first 33 bytes. */
  method KeepOrRetry(n: nat, key: ExtendedPrivateKey, tmp: array<byte>, ghost i: Block64) returns (kept: bool)
    requires key.Valid() && tmp.Length == 69 && tmp != key.privateKey && tmp != key.chainCode
    requires 0 < n <= Pow256(32) && InRange(n, key.Content()) && tmp[..64] == i
    modifies tmp
    ensures kept == Kept(n, BE(key.privateKey[..32]), i)
    ensures kept ==> tmp[..32] == ToBE((BE(i[..32]) + BE(key.privateKey[..32])) % n, 32) && tmp[32..64] == i[32..]
    ensures !kept ==> tmp[..33] == [1] + i[32..]
  {
    ghost var il, ir := i[..32], i[32..];
    assert tmp[..32] == il && tmp[32..64] == ir;
    if BE(tmp[..32]) < n {
      AddMod(tmp, key.privateKey, n);
      if BE(tmp[..32]) != 0 {
        return true;
      }
    }
    PrepareRetry(tmp, ir);
    return false;
  }

  /** One attempt of the retry loop. */
  method Attempt(p: Primitives, n: nat, key: ExtendedPrivateKey, tmp: array<byte>, index: uint32, ghost first33: Bytes)
    returns (kept: bool, ghost i: Block64)
    requires key.Valid() && tmp.Length == 69 && tmp != key.privateKey && tmp != key.chainCode
    requires 0 < n <= Pow256(32) && InRange(n, key.Content()) && tmp[..33] == first33
    modifies tmp
    ensures i == p.hmacSha512(key.chainCode[..], first33 + ToBE(index, 4))
    ensures kept == Kept(n, BE(key.Content().left), i)
    ensures kept ==> Node(tmp[..32], key.Content().right, tmp[32..64]) == Combine(n, key.Content(), i)
    ensures !kept ==> tmp[..33] == [1] + i[32..]
  {
    HashScratch(p, key, tmp, index, first33);
    i := tmp[..64];
    kept := KeepOrRetry(n, key, tmp, i);
    CombineParts(n, key.Content(), i);
  }

  lemma CombineParts(n: nat, node: Node, i: Block64)
    requires n > 0
    ensures Combine(n, node, i).left == ToBE((BE(i[..32]) + BE(node.left)) % n, 32)
    ensures Combine(n, node, i).right == node.right && Combine(n, node, i).chain == i[32..]
  {
  }

  /** Before attempt j the loop holds the input of the j-th digest, all earlier ones being refused. */
  ghost predicate AtAttempt(p: Primitives, curve: CurveId, n: nat, node: Node, index: uint32, j: nat, last: nat,
      first33: Bytes)
    requires n > 0
  {
    var f, i0, keeps := Retry(p, node.chain, index), FirstDigest(p, curve, node, index), Keeps(n, BE(node.left));
    && IsFirst(keeps, f, i0, last) && j <= last
    && p.hmacSha512(node.chain, first33 + ToBE(index, 4)) == Iterate(f, i0, j)
    && forall k | 0 <= k < j :: !keeps(Iterate(f, i0, k))
  }

  lemma AttemptKept(p: Primitives, curve: CurveId, n: nat, node: Node, index: uint32, j: nat, last: nat,
      first33: Bytes, i: Block64)
    requires n > 0 && AtAttempt(p, curve, n, node, index, j, last, first33)
    requires i == p.hmacSha512(node.chain, first33 + ToBE(index, 4)) && Kept(n, BE(node.left), i)
    ensures Child(p, curve, n, node, index) == Some(Combine(n, node, i))
  {
    assert Keeps(n, BE(node.left))(i);
    ChildFrom(p, curve, n, node, index, j);
  }

  lemma AttemptRefused(p: Primitives, curve: CurveId, n: nat, node: Node, index: uint32, j: nat, last: nat,
      first33: Bytes, i: Block64)
    requires n > 0 && AtAttempt(p, curve, n, node, index, j, last, first33)
    requires i == p.hmacSha512(node.chain, first33 + ToBE(index, 4)) && !Kept(n, BE(node.left), i)
    ensures j < last && AtAttempt(p, curve, n, node, index, j + 1, last, [1] + i[32..])
  {
    assert !Keeps(n, BE(node.left))(i);
    NotYet(Keeps(n, BE(node.left)), Retry(p, node.chain, index), FirstDigest(p, curve, node, index), j, last);
    assert Retry(p, node.chain, index)(i) == p.hmacSha512(node.chain, [1] + i[32..] + ToBE(index, 4));
  }

  /** The retry loop: it leaves the child's key and chain code in the scratch buffer. */
  method FindChild(p: Primitives, curve: CurveId, n: nat, key: ExtendedPrivateKey, tmp: array<byte>, index: uint32)
    requires key.Valid() && tmp.Length == 69 && tmp != key.privateKey && tmp != key.chainCode
    requires 0 < n <= Pow256(32) && InRange(n, key.Content()) && Child(p, curve, n, key.Content(), index).Some?
    modifies tmp
    ensures Child(p, curve, n, key.Content(), index) == Some(Node(tmp[..32], key.Content().right, tmp[32..64]))
  {
    ghost var parent := key.Content();
    ghost var first33: Bytes := FirstInput(p, curve, parent, index);
    ghost var last := ChildEnds(p, curve, n, parent, index);
    LoadFirstInput(p, curve, key, tmp, index);
    ghost var j := 0;
    while true
      invariant tmp[..33] == first33 && AtAttempt(p, curve, n, parent, index, j, last, first33)
      decreases last - j
    {
      var kept;
      ghost var i;
      kept, i := Attempt(p, n, key, tmp, index, first33);
      if kept {
        AttemptKept(p, curve, n, parent, index, j, last, first33, i);
        break;
      }
      AttemptRefused(p, curve, n, parent, index, j, last, first33, i);
      first33 := [1] + i[32..];
      j := j + 1;
    }
  }

  lemma CombineInRange(n: nat, node: Node, i: Block64)
    requires 0 < n <= Pow256(32) && Keeps(n, BE(node.left))(i)
    ensures InRange(n, Combine(n, node, i))
  {
    ToBEValue((BE(i[..32]) + BE(node.left)) % n, 32);
  }

  /** Every child's key is a private key again. */
  lemma ChildInRange(p: Primitives, curve: CurveId, n: nat, node: Node, index: uint32)
    requires 0 < n <= Pow256(32) && Child(p, curve, n, node, index).Some?
    ensures InRange(n, Child(p, curve, n, node, index).value)
  {
    var last := ChildEnds(p, curve, n, node, index);
    ChildFrom(p, curve, n, node, index, last);
    CombineInRange(n, node, Iterate(Retry(p, node.chain, index), FirstDigest(p, curve, node, index), last));
  }

  /** Below a private key, every key along every path is a private key. */
  lemma {:induction false} InRangeAlong(p: Primitives, curve: CurveId, n: nat, node: Node, path: seq<uint32>)
    requires 0 < n <= Pow256(32) && InRange(n, node) && Derive(Step(p, curve, n), node, path).Some?
    ensures InRange(n, Derive(Step(p, curve, n), node, path).value)
    decreases |path|
  {
    if |path| > 0 {
      ChildInRange(p, curve, n, node, path[0]);
      InRangeAlong(p, curve, n, Child(p, curve, n, node, path[0]).value, path[1..]);
    }
  }

  /** One round of the loop is one SLIP-0010 child. */
  method DeriveChild(p: Primitives, curve: CurveId, n: nat, key: ExtendedPrivateKey, tmp: array<byte>, index: uint32)
    requires key.Valid() && tmp.Length == 69 && tmp != key.privateKey && tmp != key.chainCode
    requires 0 < n <= Pow256(32) && InRange(n, key.Content()) && Child(p, curve, n, key.Content(), index).Some?
    modifies tmp, key.privateKey, key.chainCode
    ensures Some(key.Content()) == Child(p, curve, n, old(key.Content()), index)
    ensures InRange(n, key.Content())
  {
    ChildInRange(p, curve, n, key.Content(), index);
    FindChild(p, curve, n, key, tmp, index);
    StoreChild(key, tmp);
  }

  /** `hdw_bip32`: refused for Ed25519; otherwise, for the curve's order n, a private
      key to start from, and its retry loops assumed to end. */
  method HdwBip32(p: Primitives, curve: CurveId, n: nat, key: ExtendedPrivateKey, path: seq<uint32>) returns (ok: bool)
    requires key.Valid()
    requires curve != Ed25519 ==> 0 < n <= Pow256(32) && InRange(n, key.Content())
    requires curve != Ed25519 ==> Derive(Step(p, curve, n), key.Content(), path).Some?
    modifies key.privateKey, key.chainCode
    ensures ok <==> curve != Ed25519
    ensures !ok ==> key.Content() == old(key.Content())
    ensures ok ==> Some(key.Content()) == Derive(Step(p, curve, n), old(key.Content()), path)
    ensures ok ==> InRange(n, key.Content())
  {
    if curve == Ed25519 {
      return false;
    }
    ghost var master := key.Content();
    var tmp := new byte[1 + 64 + 4];
    for i := 0 to |path|
      invariant Some(key.Content()) == Derive(Step(p, curve, n), master, path[..i])
      invariant InRange(n, key.Content())
    {
      DeriveLast(Step(p, curve, n), master, path, i);
      PrefixDerives(Step(p, curve, n), master, path, i + 1);
      DeriveChild(p, curve, n, key, tmp, path[i]);
    }
    assert path[..|path|] == path;
    return true;
  }

  /** The loop along one path and then along another is the derivation along both. */
  method HdwBip32AlongBoth(p: Primitives, curve: CurveId, n: nat, key: ExtendedPrivateKey, front: seq<uint32>,
      back: seq<uint32>)
    returns (ok: bool)
    requires key.Valid()
    requires curve != Ed25519 ==> 0 < n <= Pow256(32) && InRange(n, key.Content())
    requires curve != Ed25519 ==> Derive(Step(p, curve, n), key.Content(), front + back).Some?
    modifies key.privateKey, key.chainCode
    ensures ok <==> curve != Ed25519
    ensures !ok ==> key.Content() == old(key.Content())
    ensures ok ==> Some(key.Content()) == Derive(Step(p, curve, n), old(key.Content()), front + back)
    ensures ok ==> InRange(n, key.Content())
  {
    if curve != Ed25519 {
      DeriveComposes(Step(p, curve, n), key.Content(), front, back);
    }
    ok := HdwBip32(p, curve, n, key, front);
    if ok {
      ok := HdwBip32(p, curve, n, key, back);
    }
  }

  lemma PrefixDerives<N>(step: (N, uint32) -> Option<N>, node: N, path: seq<uint32>, i: nat)
    requires i <= |path| && Derive(step, node, path).Some?
    ensures Derive(step, node, path[..i]).Some?
  {
    assert path == path[..i] + path[i..];
    DeriveComposes(step, node, path[..i], path[i..]);
  }

  // ---------------------------------------------------------------- the master key

  ghost function IsPrivateKey(n: nat): Block64 -> bool {
    (i: Block64) => 1 <= BE(i[..32]) < n
  }

  /** SLIP-0010 master key: the first iterate of HMAC whose left half is a private key. */
  ghost function Master(p: Primitives, n: nat, sk: Bytes, seed: Bytes): Option<Block64> {
    FirstAccepted(IsPrivateKey(n), Rehash(p, sk), p.hmacSha512(sk, seed))
  }

  /** The master key in bytes: HMAC of the seed, rehashed while its left half is not a
      private key. */
  lemma MasterInBytes(p: Primitives, n: nat, sk: Bytes, seed: Bytes, ds: seq<Block64>, d: Block64)
    requires |ds| > 0 && ds[0] == p.hmacSha512(sk, seed) && d == ds[|ds| - 1]
    requires forall j | 0 <= j < |ds| - 1 ::
               (BE(ds[j][..32]) == 0 || BE(ds[j][..32]) >= n) && ds[j + 1] == p.hmacSha512(sk, ds[j])
    requires 1 <= BE(d[..32]) < n
    ensures Master(p, n, sk, seed) == Some(d)
  {
    assert Runs(IsPrivateKey(n), Rehash(p, sk), ds);
    RunEnds(IsPrivateKey(n), Rehash(p, sk), ds);
  }

  /** `expand_seed`, its loop assumed to end. */
  method ExpandSeed(p: Primitives, n: nat, sk: Bytes, seed: Bytes, key: ExtendedPrivateKey)
    requires key.Valid() && Master(p, n, sk, seed).Some?
    modifies key.privateKey, key.chainCode
    ensures key.privateKey[..32] + key.chainCode[..] == Master(p, n, sk, seed).value
    ensures InRange(n, key.Content())
  {
    ghost var i0 := p.hmacSha512(sk, seed);
    ghost var last: nat :| IsFirst(IsPrivateKey(n), Rehash(p, sk), i0, last);
    FirstIsUnique(IsPrivateKey(n), Rehash(p, sk), i0, last);
    var hash := new byte[64];
    Copy(hash, 0, p.hmacSha512(sk, seed));
    StoreMaster(key, hash);
    ghost var j := 0;
    while BE(key.privateKey[..32]) == 0 || BE(key.privateKey[..32]) >= n
      invariant j <= last
      invariant key.privateKey[..32] + key.chainCode[..] == Iterate(Rehash(p, sk), i0, j)
      decreases last - j
    {
      ghost var i: Block64 := key.privateKey[..32] + key.chainCode[..];
      assert i[..32] == key.privateKey[..32];
      NextIterate(IsPrivateKey(n), Rehash(p, sk), i0, j, last, i);
      LoadMaster(key, hash);
      Copy(hash, 0, p.hmacSha512(sk, hash[..]));
      StoreMaster(key, hash);
      j := j + 1;
    }
    ghost var i := key.privateKey[..32] + key.chainCode[..];
    assert i[..32] == key.privateKey[..32];
    assert IsPrivateKey(n)(i);
  }

  method LoadMaster(key: ExtendedPrivateKey, hash: array<byte>)
    requires key.Valid() && hash.Length == 64 && hash != key.privateKey && hash != key.chainCode
    modifies hash
    ensures hash[..] == key.privateKey[..32] + key.chainCode[..]
  {
    Copy(hash, 0, key.privateKey[..32]);
    assert hash[..32] == hash[0..32];
    Copy(hash, 32, key.chainCode[..]);
    assert hash[..] == hash[..32] + hash[32..64];
  }

  method StoreMaster(key: ExtendedPrivateKey, hash: array<byte>)
    requires key.Valid() && hash.Length == 64 && hash != key.privateKey && hash != key.chainCode
    modifies key.privateKey, key.chainCode
    ensures key.privateKey[..32] + key.chainCode[..] == hash[..]
  {
    Copy(key.privateKey, 0, hash[..32]);
    Copy(key.chainCode, 0, hash[32..]);
    assert key.privateKey[..32] == key.privateKey[0..32] && key.chainCode[..] == key.chainCode[0..32];
    assert hash[..] == hash[..32] + hash[32..];
  }
}
