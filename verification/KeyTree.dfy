/** What the key-derivation loops share: nodes, paths, the key structure they
    overwrite in place, and the primitives of the device. */
module KeyTree {
  import opened Wrappers
  import opened Bytes

  type Block32 = b: Bytes | |b| == 32 witness seq(32, _ => 0)
  type Block33 = b: Bytes | |b| == 33 witness seq(33, _ => 0)
  type Block64 = b: Bytes | |b| == 64 witness seq(64, _ => 0)
  type Block65 = b: Bytes | |b| == 65 witness seq(65, _ => 0)

  datatype CurveId = Secp256k1 | Secp256r1 | Ed25519

  /** The SDK calls, as functions of which only the result's length is known. */
  datatype Primitives = Primitives(
    hmacSha512: (Bytes, Bytes) -> Block64,
    hmacSha256: (Bytes, Bytes) -> Block32,
    // the compressed public key of a big-endian Ed25519 scalar
    edwardsPublic: Bytes -> Block32,
    // the uncompressed public key of a private key
    publicPoint: (CurveId, Bytes) -> Block65)

  // ---------------------------------------------------------------- paths

  const HARDENED := 0x8000_0000

  /** `child & 0x80000000`. */
  predicate IsHardened(index: uint32) {
    index >= HARDENED
  }

  /** `index | 0x80000000`. */
  function Harden(index: uint32): (h: uint32)
    ensures IsHardened(h) && h % HARDENED == index % HARDENED
  {
    if index >= HARDENED then index else index + HARDENED
  }

  /** A derivation along a path, one child step after the other. None marks a step
      that is refused or never ends. */
  ghost function Derive<N>(step: (N, uint32) -> Option<N>, node: N, path: seq<uint32>): Option<N> {
    if |path| == 0 then Some(node)
    else
      match step(node, path[0])
      case None => None
      case Some(child) => Derive(step, child, path[1..])
  }

  /** Deriving along p + q is deriving along p and then along q. */
  lemma {:induction false} DeriveComposes<N>(step: (N, uint32) -> Option<N>, node: N, p: seq<uint32>, q: seq<uint32>)
    ensures Derive(step, node, p + q) ==
      match Derive(step, node, p)
      case None => None
      case Some(middle) => Derive(step, middle, q)
  {
    if |p| == 0 {
      assert p + q == q;
    } else {
      assert (p + q)[1..] == p[1..] + q;
      match step(node, p[0])
      case None =>
      case Some(child) => DeriveComposes(step, child, p[1..], q);
    }
  }

  /** The last step of a derivation. */
  lemma DeriveLast<N>(step: (N, uint32) -> Option<N>, node: N, path: seq<uint32>, i: nat)
    requires i < |path| && Derive(step, node, path[..i]).Some?
    ensures Derive(step, node, path[..i + 1]) == step(Derive(step, node, path[..i]).value, path[i])
  {
    assert path[..i + 1] == path[..i] + [path[i]];
    DeriveComposes(step, node, path[..i], [path[i]]);
    var middle := Derive(step, node, path[..i]).value;
    assert [path[i]][1..] == [];
    assert Derive(step, middle, [path[i]]) == step(middle, path[i]);
  }

  // ---------------------------------------------------------------- retry loops

  ghost function Iterate<X>(f: X -> X, x: X, j: nat): X {
    if j == 0 then x else f(Iterate(f, x, j - 1))
  }

  /** How both master-key loops go on: HMAC of the last digest. */
  ghost function Rehash(p: Primitives, sk: Bytes): Block64 -> Block64 {
    (i: Block64) => p.hmacSha512(sk, i)
  }

  /** The j-th iterate is the first one accepted. */
  ghost predicate IsFirst<X>(accepts: X -> bool, f: X -> X, x: X, j: nat) {
    accepts(Iterate(f, x, j)) && forall i | 0 <= i < j :: !accepts(Iterate(f, x, i))
  }

  /** What a loop `while !accepts(x) { x := f(x) }` ends with; None if it does not end. */
  ghost function FirstAccepted<X>(accepts: X -> bool, f: X -> X, x: X): Option<X> {
    if j: nat :| IsFirst(accepts, f, x, j) then Some(Iterate(f, x, j)) else None
  }

  lemma FirstIsUnique<X>(accepts: X -> bool, f: X -> X, x: X, j: nat)
    requires IsFirst(accepts, f, x, j)
    ensures FirstAccepted(accepts, f, x) == Some(Iterate(f, x, j))
  {
  }

  /** The digests of a retry loop, one by one: each makes the next, and only the last is accepted. */
  ghost predicate Runs<X>(accepts: X -> bool, f: X -> X, xs: seq<X>) {
    && |xs| > 0
    && (forall i | 0 <= i < |xs| - 1 :: !accepts(xs[i]) && xs[i + 1] == f(xs[i]))
    && accepts(xs[|xs| - 1])
  }

  lemma {:induction false} RunIterates<X>(accepts: X -> bool, f: X -> X, xs: seq<X>, i: nat)
    requires Runs(accepts, f, xs) && i < |xs|
    ensures Iterate(f, xs[0], i) == xs[i]
  {
    if i > 0 {
      RunIterates(accepts, f, xs, i - 1);
    }
  }

  lemma RunEnds<X>(accepts: X -> bool, f: X -> X, xs: seq<X>)
    requires Runs(accepts, f, xs)
    ensures FirstAccepted(accepts, f, xs[0]) == Some(xs[|xs| - 1])
  {
    forall i | 0 <= i < |xs| ensures Iterate(f, xs[0], i) == xs[i] {
      RunIterates(accepts, f, xs, i);
    }
    FirstIsUnique(accepts, f, xs[0], |xs| - 1);
  }

  lemma NotYet<X>(accepts: X -> bool, f: X -> X, x: X, j: nat, last: nat)
    requires IsFirst(accepts, f, x, last) && j <= last && !accepts(Iterate(f, x, j))
    ensures j < last
  {
  }

  /** One more round of such a loop. */
  lemma NextIterate<X>(accepts: X -> bool, f: X -> X, x: X, j: nat, last: nat, i: X)
    requires IsFirst(accepts, f, x, last) && j <= last && i == Iterate(f, x, j) && !accepts(i)
    ensures j < last && f(i) == Iterate(f, x, j + 1)
  {
    NotYet(accepts, f, x, j, last);
  }

  /** The loop ends exactly when some iterate is acceptable. */
  lemma EndsExactly<X(!new)>(accepts: X -> bool, f: X -> X, x: X)
    ensures FirstAccepted(accepts, f, x).Some? <==> exists j: nat :: accepts(Iterate(f, x, j))
    ensures FirstAccepted(accepts, f, x).Some? ==> accepts(FirstAccepted(accepts, f, x).value)
  {
    if j: nat :| accepts(Iterate(f, x, j)) {
      var i := Least(accepts, f, x, j);
      FirstIsUnique(accepts, f, x, i);
    }
  }

  lemma Least<X>(accepts: X -> bool, f: X -> X, x: X, j: nat) returns (i: nat)
    requires accepts(Iterate(f, x, j))
    ensures IsFirst(accepts, f, x, i)
    decreases j
  {
    if k: nat :| k < j && accepts(Iterate(f, x, k)) {
      i := Least(accepts, f, x, k);
    } else {
      i := j;
    }
  }

  // ---------------------------------------------------------------- the structure overwritten in place

  /** A private key of two halves and its chain code. */
  datatype Node = Node(left: Block32, right: Block32, chain: Block32)

  class ExtendedPrivateKey {
    const privateKey: array<byte>
    const chainCode: array<byte>

    constructor ()
      ensures Valid() && fresh(privateKey) && fresh(chainCode)
    {
      privateKey := new byte[64];
      chainCode := new byte[32];
    }

    ghost predicate Valid() {
      privateKey.Length == 64 && chainCode.Length == 32 && privateKey != chainCode
    }

    ghost function Content(): Node
      reads privateKey, chainCode
      requires Valid()
    {
      Node(privateKey[..32], privateKey[32..], chainCode[..])
    }
  }

  // ---------------------------------------------------------------- buffer operations

  lemma SameHalves(s: Bytes, t: Bytes)
    requires |s| == |t| == 64 && s[..32] == t[..32] && s[32..] == t[32..]
    ensures s == t
  {
    assert s == s[..32] + s[32..] && t == t[..32] + t[32..];
  }

  /** `be2le` on 32 bytes within a buffer: a reversal, and nothing else moves. */
  method Flip32(v: array<byte>, off: nat)
    requires off + 32 <= v.Length
    modifies v
    ensures v[..off] == old(v[..off]) && v[off + 32..] == old(v[off + 32..])
    ensures v[off..off + 32] == Reversed(old(v[off..off + 32]))
  {
    ghost var s := v[..];
    Be2Le(v, off, 32);
    FlippedValue(s[off..off + 32]);
    SpliceParts(s, off, Flipped(s[off..off + 32]));
  }

  /** `memcpy`, part by part. */
  method Copy(v: array<byte>, off: nat, data: Bytes)
    requires off + |data| <= v.Length
    modifies v
    ensures v[..off] == old(v[..off]) && v[off + |data|..] == old(v[off + |data|..])
    ensures v[off..off + |data|] == data
  {
    ghost var s := v[..];
    WriteAt(v, off, data);
    SpliceParts(s, off, data);
  }

  lemma SpliceParts(s: Bytes, at: nat, t: Bytes)
    requires at + |t| <= |s|
    ensures Splice(s, at, t)[..at] == s[..at]
    ensures Splice(s, at, t)[at..at + |t|] == t
    ensures Splice(s, at, t)[at + |t|..] == s[at + |t|..]
  {
  }

  /** The sum in 256 bits, little-endian. */
  function Plus256(m: nat, n: nat): Block32 {
    ToLE(m + n, 32)
  }

  lemma Plus256Value(m: nat, n: nat)
    ensures LE(Plus256(m, n)) == (m + n) % TWO_256
  {
    ToLEResidue(m + n, 32);
    Pow256Of32();
  }

  const TWO_256: nat := 0x1_0000_0000_0000_0000_0000_0000_0000_0000_0000_0000_0000_0000_0000_0000_0000_0000

  lemma Pow256Of32()
    ensures Pow256(32) == TWO_256
  {
    Pow256Sum(1, 1);
    Pow256Sum(2, 2);
    Pow256Sum(4, 4);
    Pow256Sum(8, 8);
    Pow256Sum(16, 16);
  }

  /** The low 256 bits of the sum of two big-endian numbers. */
  function BESum(a: Bytes, b: Bytes): (r: Block32)
    ensures Reversed(r) == Plus256(BE(a), BE(b))
  {
    BE256(BE(a) + BE(b))
  }

  function BE256(n: nat): (r: Block32)
    ensures r == ToBE(n, 32) && Reversed(r) == ToLE(n, 32)
  {
    FlippedBE(n, 32);
    ToBE(n, 32)
  }

  /** As numbers: the sum modulo 2^256. */
  lemma BESumResidue(a: Bytes, b: Bytes)
    ensures BE(BESum(a, b)) == (BE(a) + BE(b)) % TWO_256
  {
    ReversedPlus256(BESum(a, b), BE(a), BE(b));
  }

  lemma ReversedPlus256(r: Block32, m: nat, n: nat)
    requires Reversed(r) == Plus256(m, n)
    ensures BE(r) == (m + n) % TWO_256
  {
    ReversedValue(r);
    Plus256Value(m, n);
  }

  lemma BESumValue(a: Bytes, b: Bytes)
    requires BE(a) + BE(b) < Pow256(32)
    ensures BE(BESum(a, b)) == BE(a) + BE(b)
  {
    ToBEValue(BE(a) + BE(b), 32);
  }

  lemma FlippedBE(n: nat, len: nat)
    ensures Reversed(ToBE(n, len)) == ToLE(n, len)
  {
    ToBEIsReversedToLE(n, len);
    ReversedTwice(ToLE(n, len));
  }

  /** `cx_math_add`: the big-endian sum of two 32-byte numbers, its carry dropped. */
  method MathAdd(r: array<byte>, ro: nat, a: array<byte>, ao: nat, b: array<byte>, bo: nat)
    requires ro + 32 <= r.Length && ao + 32 <= a.Length && bo + 32 <= b.Length
    modifies r
    ensures r[..ro] == old(r[..ro]) && r[ro + 32..] == old(r[ro + 32..])
    ensures r[ro..ro + 32] == BESum(old(a[ao..ao + 32]), old(b[bo..bo + 32]))
  {
    Copy(r, ro, BESum(a[ao..ao + 32], b[bo..bo + 32]));
  }
}
