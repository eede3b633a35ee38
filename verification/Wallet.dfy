/** The on-chain wallet: its encoding, and the seek loop that finds a service in it. */
module Wallet {
  import opened Bytes

  // ---------------------------------------------------------------- the encoding

  datatype ServiceFields = ServiceFields(name: Bytes, path: Bytes, curve: byte, hashType: byte)

  /** Every length fits its byte, and paths are text without NUL that fits the
      30-byte buffer it is reread into. */
  type Service = s: ServiceFields |
    |s.name| < 256 && |s.path| <= 29 && forall i | 0 <= i < |s.path| :: s.path[i] != 0
    witness ServiceFields([], [], 0, 0)

  datatype WalletFields = WalletFields(version: Bytes, seed: Bytes, services: seq<Service>)

  type OnchainWallet = w: WalletFields | |w.version| == 4 && |w.seed| < 256 && |w.services| < 256
    witness WalletFields([0, 0, 0, 1], [], [])

  function EncodeService(s: Service): (b: Bytes)
    ensures |b| == 4 + |s.name| + |s.path|
  {
    [|s.name|] + s.name + [|s.path|] + s.path + [s.curve] + [s.hashType]
  }

  function EncodeServices(services: seq<Service>): Bytes {
    if |services| == 0 then [] else EncodeService(services[0]) + EncodeServices(services[1..])
  }

  function Prefix(w: OnchainWallet): Bytes {
    w.version + [|w.seed|] + w.seed + [|w.services|]
  }

  function Encode(w: OnchainWallet): Bytes {
    Prefix(w) + EncodeServices(w.services)
  }

  // ---------------------------------------------------------------- the parser

  /** OutOfBounds stands for a read past the buffer, or a write past the 34 bytes of
      the screen text, which the original does not guard against. */
  datatype PathResult = Rejected | OutOfBounds | Found(path: Bytes, seekBytes: nat)

  const SCREEN_SIZE: nat := 34

  /** What `snprintf` copies of `length` bytes: those before the first NUL. */
  function Text(s: Bytes): (t: Bytes)
    ensures |t| <= |s| && t == s[..|t|]
    ensures (forall i | 0 <= i < |s| :: s[i] != 0) ==> t == s
    ensures 0 !in t && (|t| < |s| ==> s[|t|] == 0)
  {
    if |s| == 0 || s[0] == 0 then [] else [s[0]] + Text(s[1..])
  }

  /** The path whose length stands at p, as the screen text. */
  function ReadPath(b: Bytes, p: nat): PathResult
    requires p < |b|
  {
    if p + 1 + b[p] > |b| || |Text(b[p + 1..p + 1 + b[p]])| + 1 > SCREEN_SIZE then OutOfBounds
    else Found(Text(b[p + 1..p + 1 + b[p]]), p)
  }

  /** Where the path length of a service is, `skip` services after position `at`. */
  function Seek(b: Bytes, at: nat, skip: nat): PathResult
    decreases skip
  {
    if at >= |b| || at + b[at] + 1 >= |b| then OutOfBounds
    else
      var p := at + b[at] + 1;
      if skip > 0 then Seek(b, p + b[p] + 3, skip - 1) else ReadPath(b, p)
  }

  function Locate(b: Bytes, walletLen: byte, serviceIndex: byte): PathResult {
    if walletLen < 6 * serviceIndex + 39 then Rejected
    else if 4 >= |b| then OutOfBounds
    else
      var seedLength: nat := b[4];
      if 5 + seedLength >= |b| then OutOfBounds
      else if b[5 + seedLength] < serviceIndex then Rejected
      else Seek(b, 6 + seedLength, serviceIndex)
  }

  /** `getDerivationPath`: one loop that skips services and then reads. */
  method GetDerivationPath(serviceIndex: byte, wallet: Bytes, walletLen: byte) returns (r: PathResult)
    ensures r == Locate(wallet, walletLen, serviceIndex)
  {
    if walletLen < 6 * serviceIndex + 39 {
      return Rejected;
    }
    var seek: nat := 4;
    if seek >= |wallet| {
      return OutOfBounds;
    }
    var seedLength: nat := wallet[seek];
    seek := seek + 1;
    seek := seek + seedLength;
    if seek >= |wallet| {
      return OutOfBounds;
    }
    var totalServices := wallet[seek];
    seek := seek + 1;
    if totalServices < serviceIndex {
      return Rejected;
    }
    var c: nat := 0;
    while c <= serviceIndex
      invariant 0 <= c <= serviceIndex
      invariant Seek(wallet, seek, serviceIndex - c) == Locate(wallet, walletLen, serviceIndex)
    {
      if seek >= |wallet| || seek + wallet[seek] + 1 >= |wallet| {
        return OutOfBounds;
      }
      var nameLen: nat := wallet[seek];
      seek := seek + nameLen + 1;
      var pathLen: nat := wallet[seek];
      if c == serviceIndex {
        return ReadPath(wallet, seek);
      }
      seek := seek + pathLen + 1 + 1 + 1;
      c := c + 1;
    }
    assert false;
  }

  // ---------------------------------------------------------------- the round trip

  /** Where the path length of service `index` is, from the first service on. */
  function OffsetAmong(services: seq<Service>, index: nat): nat
    requires index < |services|
  {
    if index == 0 then 1 + |services[0].name|
    else |EncodeService(services[0])| + OffsetAmong(services[1..], index - 1)
  }

  function PathOffset(w: OnchainWallet, index: nat): nat
    requires index < |w.services|
  {
    |Prefix(w)| + OffsetAmong(w.services, index)
  }

  /** What stands at a path length's position: path, then curve. */
  ghost predicate Holds(b: Bytes, p: nat, s: Service) {
    && p + 1 + |s.path| < |b|
    && b[p] == |s.path| && b[p + 1..p + 1 + |s.path|] == s.path && b[p + 1 + |s.path|] == s.curve
  }

  /** The layout of one service at a position of a buffer. */
  lemma ServiceAt(b: Bytes, at: nat, s: Service, rest: Bytes)
    requires at <= |b| && b[at..] == EncodeService(s) + rest
    ensures at + |EncodeService(s)| <= |b|
    ensures b[at] == |s.name| && Holds(b, at + 1 + |s.name|, s) && b[at + |EncodeService(s)|..] == rest
  {
    var t := b[at..];
    ServiceLayout(t, s, rest);
    var p := 1 + |s.name|;
    assert b[at + p + 1..at + p + 1 + |s.path|] == t[p + 1..p + 1 + |s.path|];
    assert b[at + |EncodeService(s)|..] == t[|EncodeService(s)|..];
    assert b[at] == t[0] && b[at + p] == t[p] && b[at + p + 1 + |s.path|] == t[p + 1 + |s.path|];
  }

  lemma ServiceLayout(t: Bytes, s: Service, rest: Bytes)
    requires t == EncodeService(s) + rest
    ensures t[0] == |s.name| && Holds(t, 1 + |s.name|, s) && t[|EncodeService(s)|..] == rest
  {
    var head := [|s.name|] + s.name;
    var body := [|s.path|] + s.path;
    var tail := [s.curve] + [s.hashType];
    assert EncodeService(s) == head + body + tail;
    assert t == head + (body + (tail + rest));
  }

  /** The seek from `at` ends at p, where service s has its path. */
  ghost predicate Finds(b: Bytes, at: nat, skip: nat, s: Service, p: nat) {
    Seek(b, at, skip) == Found(s.path, p) && Holds(b, p, s)
  }

  lemma SeekHere(b: Bytes, at: nat, s: Service, rest: Bytes, p: nat)
    requires at <= |b| && b[at..] == EncodeService(s) + rest && p == at + 1 + |s.name|
    ensures Finds(b, at, 0, s, p)
  {
    ServiceAt(b, at, s, rest);
  }

  lemma SkipOne(b: Bytes, at: nat, s: Service, skip: nat, next: nat)
    requires at < |b| && b[at] == |s.name| && Holds(b, at + 1 + |s.name|, s) && skip > 0
    requires next == at + |EncodeService(s)|
    ensures Seek(b, at, skip) == Seek(b, next, skip - 1)
  {
  }

  /** The seek loop stops at the service it is sent to, with its path. */
  lemma {:induction false} SeekFinds(b: Bytes, at: nat, services: seq<Service>, index: nat, rest: Bytes, p: nat,
      wanted: Service)
    requires index < |services| && wanted == services[index] && p == at + OffsetAmong(services, index)
    requires at <= |b| && b[at..] == EncodeServices(services) + rest
    ensures Finds(b, at, index, wanted, p)
    decreases index
  {
    var s, more := services[0], EncodeServices(services[1..]) + rest;
    assert b[at..] == EncodeService(s) + more;
    if index == 0 {
      SeekHere(b, at, s, more, p);
    } else {
      var next := at + |EncodeService(s)|;
      ServiceAt(b, at, s, more);
      SkipOne(b, at, s, index, next);
      SeekFinds(b, next, services[1..], index - 1, rest, p, wanted);
    }
  }

  lemma PrefixAt(w: OnchainWallet, b: Bytes, rest: Bytes)
    requires b == Encode(w) + rest
    ensures |Prefix(w)| == 6 + |w.seed| <= |b|
    ensures b[4] == |w.seed| && b[5..5 + |w.seed|] == w.seed && b[5 + |w.seed|] == |w.services|
    ensures b[6 + |w.seed|..] == EncodeServices(w.services) + rest
  {
    var head := w.version + [|w.seed|];
    assert Prefix(w) == head + w.seed + [|w.services|];
    assert b == Prefix(w) + (EncodeServices(w.services) + rest);
    assert b[..|Prefix(w)|] == Prefix(w);
    assert b[5..5 + |w.seed|] == Prefix(w)[5..5 + |w.seed|] == w.seed;
  }

  /** Wallet round trip. In a buffer holding an encoded wallet and anything after it,
      every service index in range is either refused by the length guard or found
      with its own path; and the bytes reread from there are that path, its curve
      and the wallet's seed. */
  lemma LocateFinds(w: OnchainWallet, b: Bytes, rest: Bytes, index: byte)
    requires index < |w.services| && |Encode(w)| < 256 && b == Encode(w) + rest
    ensures Locate(b, |Encode(w)|, index)
         == if |Encode(w)| < 6 * index + 39 then Rejected else Found(w.services[index].path, PathOffset(w, index))
    ensures Holds(b, PathOffset(w, index), w.services[index])
    ensures |b| >= 5 + |w.seed| && b[4] == |w.seed| && b[5..5 + |w.seed|] == w.seed
  {
    PrefixAt(w, b, rest);
    SeekFinds(b, 6 + |w.seed|, w.services, index, rest, PathOffset(w, index), w.services[index]);
  }

  /** The length guard alone never refuses a service in range when the seed has at
      least 27 bytes and every service at least 6. */
  lemma GuardAdmits(w: OnchainWallet, index: nat)
    requires index < |w.services| && |w.seed| >= 27
    requires forall i | 0 <= i < |w.services| :: |EncodeService(w.services[i])| >= 6
    ensures |Encode(w)| >= 6 * index + 39
  {
    SixBytesEach(w.services);
  }

  lemma {:induction false} SixBytesEach(services: seq<Service>)
    requires forall i | 0 <= i < |services| :: |EncodeService(services[i])| >= 6
    ensures |EncodeServices(services)| >= 6 * |services|
  {
    if |services| > 0 {
      SixBytesEach(services[1..]);
    }
  }

  /** The service count guard lets one index past the end through: on an encoded
      wallet the request is refused exactly for a short wallet or an index above the
      count, so the index equal to the count is looked up in the bytes after the
      last service. */
  lemma RejectsExactly(w: OnchainWallet, rest: Bytes, index: byte)
    requires |Encode(w)| < 256
    ensures Locate(Encode(w) + rest, |Encode(w)|, index) == Rejected
       <==> |Encode(w)| < 6 * index + 39 || index > |w.services|
  {
    var b := Encode(w) + rest;
    PrefixAt(w, b, rest);
    SeekNeverRejects(b, 6 + |w.seed|, index);
  }

  lemma {:induction false} SeekNeverRejects(b: Bytes, at: nat, skip: nat)
    ensures Seek(b, at, skip) != Rejected
    decreases skip
  {
    if skip > 0 && at < |b| && at + b[at] + 1 < |b| {
      var p := at + b[at] + 1;
      SeekNeverRejects(b, p + b[p] + 3, skip - 1);
    }
  }

  lemma {:induction false} SeekPastAll(b: Bytes, at: nat, services: seq<Service>, rest: Bytes, end: nat)
    requires at <= |b| && b[at..] == EncodeServices(services) + rest && end == at + |EncodeServices(services)|
    ensures Seek(b, at, |services|) == Seek(b, end, 0)
    decreases |services|
  {
    if |services| > 0 {
      var s, more := services[0], EncodeServices(services[1..]) + rest;
      var next := at + |EncodeService(s)|;
      assert b[at..] == EncodeService(s) + more;
      ServiceAt(b, at, s, more);
      SkipOne(b, at, s, |services|, next);
      SeekPastAll(b, next, services[1..], rest, end);
    }
  }

  /** The index equal to the count reads its service from the first byte behind the wallet. */
  lemma CountIsReadBehind(w: OnchainWallet, b: Bytes, rest: Bytes, index: byte)
    requires |Encode(w)| < 256 && b == Encode(w) + rest && index == |w.services|
    ensures Locate(b, |Encode(w)|, index)
         == if |Encode(w)| < 6 * index + 39 then Rejected else Seek(b, |Encode(w)|, 0)
  {
    PrefixAt(w, b, rest);
    SeekPastAll(b, 6 + |w.seed|, w.services, rest, |Encode(w)|);
  }

  /** So the empty wallet with a 33-byte seed, asked for service 0, answers with the
      bytes that follow it: an empty name and the path "m". */
  lemma PastTheEndIsFound(w: OnchainWallet, b: Bytes)
    requires w.services == [] && |w.seed| == 33 && b == Encode(w) + [0, 1, 109]
    ensures Locate(b, |Encode(w)|, 0) == Found([109], |Encode(w)| + 1)
  {
    assert |Encode(w)| == 39;
    CountIsReadBehind(w, b, [0, 1, 109], 0);
    BehindTheEnd(b, |Encode(w)|);
  }

  lemma BehindTheEnd(b: Bytes, at: nat)
    requires at <= |b| && b[at..] == [0, 1, 109]
    ensures Seek(b, at, 0) == Found([109], at + 1)
  {
    var t := b[at..];
    assert b[at] == t[0] && b[at + 1] == t[1] && b[at + 2..at + 3] == t[2..3] == [109];
    assert Text([109]) == [109];
  }

  /** The layout byte by byte, on a wallet with one service "uco", path "m", curve 2, hash type 0. */
  lemma EncodedInBytes(seed: Bytes)
    requires |seed| == 32
    ensures Encode(WalletFields([0, 0, 0, 1], seed, [ServiceFields([117, 99, 111], [109], 2, 0)]))
         == [0, 0, 0, 1] + [32] + seed + [1] + [3, 117, 99, 111] + [1, 109] + [2] + [0]
  {
    var s: Service := ServiceFields([117, 99, 111], [109], 2, 0);
    assert EncodeService(s) == [3, 117, 99, 111] + [1, 109] + [2] + [0];
    assert [s][1..] == [];
    assert EncodeServices([s]) == EncodeService(s);
  }
}
