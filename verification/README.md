# Archethic Ledger app: a verified model

A Dafny model of the parts of the Archethic hardware-wallet application whose
correctness is not visible from one function body, with proofs of what they compute.
`dafny verify dfyconfig.toml` checks everything.

- `Modular`, `Curve`, `Multiples`, `Group`, `Ecdsa`, `ToyCurve`: the reference
  elliptic-curve arithmetic of the test client. Extended Euclid is proved against a
  declarative inverse. Affine point addition is proved closed (its run-time assertions
  never fire), commutative on all integer pairs, and equal to the chord-and-tangent law,
  with its exact failures, and associative (below). Double-and-add is proved to be repeated addition for every
  integer scalar. Verification (FIPS 186-4 section 6.4, SEC 1 sections 4.1.3 and 4.1.4)
  is proved, for all integers r and s, to accept exactly the pairs whose residues modulo
  the order some nonce signs to.
- `Polynomials`, `CoordinateRing`, `Norms`, `Ideals`, `Lines`, `Associativity`: the proof
  that affine addition is associative, from the formulas alone. A point P stands for the
  ideal (p, x - xP, y - yP) of the coordinate ring Z[x, y]/(y^2 - x^3 - a*x - b). The line
  of an addition generates the product of the ideals of P, Q and -(P + Q); x - xP
  generates that of P and -P. Multiplying such generators, (P + Q) + R and P + (Q + R)
  complete one and the same list of points to a principal ideal. Only one point can:
  norms down to Z[x] have degree 2 only for linear polynomials in x, and never degree 1.
- `Bytes`, `KeyTree`, `Bip32Ed25519`, `Slip10`, `DeviceKeys`: hierarchical key derivation
  in shared byte buffers. The in-place loops, with their endian flips, overlapping scratch
  areas and swaps, refine pure child steps written after SLIP-0010 and the BIP32-Ed25519
  paper. The Ed25519 scalar never drops a carry, and the other private keys stay in
  [1, n - 1].
- `Decimals`, `Format`, `FixedPoints`, `SignHash`: number printing into caller buffers,
  and the signing request. What the screen shows is the amount under the hash.
- `Wallet`, `PathScan`, `WalletKeys`: the encoded on-chain wallet, the seek loop over it,
  the decimal path scan, and what they lead to together.
- `Transactions`: the Python client's varint and transaction codec.
- `Wrappers`: the outcomes of operations that can raise.

## What is assumed

- `Group.PrimeOrder` is the one assumption about a curve: p and n are prime, no canonical
  point of the curve has ordinate 0 modulo p (nor is p = 2), and the base point is a
  canonical point of the curve that gives infinity when added n times. The group laws
  need the first half only, `Curve.NeverVertical`: closure, commutativity, associativity,
  inverses and the absence of failing additions are proved.
  `ToyCurve.PrimeOrderCanBeMet` proves that a curve with all of it exists. That secp256k1
  meets it is not proved here.
- Hashes, HMACs and public-key computations are functions of their inputs with a fixed
  result length. The `cx_math` calls have their exact big-integer meaning. An HMAC whose
  output overlaps its input reads the whole input first.
- The HMAC retry loops (`src/bip44.c` 121, 147 and 361) are modelled under the hypothesis
  that some iterate is acceptable; without one the original does not return.
- `src/bip44.c` 378 copies 32 bytes between ranges that share one byte. It is modelled as
  a forward copy, which is what keeps the new chain code intact.

## Where the code differs from what its text says

- `be2le` (`src/bip44.c` 41-48) advances by two positions a round. It is still a full
  reversal for every even length, and for odd lengths above 3 it only swaps the two ends:
  `Bytes.FlipReversesExactly`.
- `verify_signature` (`tests/utils.py` 236-252) lacks the first step of SEC 1 section
  4.1.4, the check that r and s lie in [1, n - 1]. An accepted pair is one that signing
  can produce exactly when they do: `Ecdsa.AcceptedIsProducedExactly`. Without the check
  every signature has accepted companions, such as (r + n, s): `Ecdsa.ShiftedVerifies`.
- `point_add` (`tests/utils.py` 125-158) reduces its results but compares its operands'
  coordinates unreduced, and nothing asks callers for canonical ones. On any integer
  points of the curve it is addition modulo p exactly when the congruent coordinates it
  compares are equal: `Curve.AddReducesExactly`. What that does to the double-and-add
  loop is part of `Group.ScalarMult`.
- The path scan (`src/archethic.c` 185-221) speaks of parts 0, 1 and 2 but counts 0, 2,
  4. The account becomes the digit sum of the second part and the index stays 0, so the
  path is read as meant exactly when the account has one digit and the index is 0:
  `PathScan.ScanOfPrinted`, with accounts 1 and 10 as an example in
  `PathScan.AccountsCollide`.
- The service count check (`src/archethic.c` 121) lets the index equal to the count
  through, which is then looked up behind the wallet: `Wallet.RejectsExactly`,
  `Wallet.CountIsReadBehind`, `Wallet.PastTheEndIsFound`.
- `format_fpu64` can report success without a terminated string. Exactly when is said by
  the last two clauses of `FixedPoints.FormatFpu64`. The one
  caller passes a zeroed 30-byte buffer, which is always enough and the least that is.
- `format_u64` writes two bytes into a one-byte buffer for a single digit; the model's
  method requires that memory and says that the call reports success.

## Model

| member | source | states |
|---|---|---|
| `Modular.InverseMod` | tests/utils.py:65-93 | for every k of either sign and every modulus above 1, the extended Euclidean loop returns the declaratively defined inverse or raises the exception due; it keeps both Bezout identities and the gcd, and terminates |
| `Modular.InverseOfExact` | tests/utils.py:66-69 | a value comes back exactly when k is coprime to p, division by zero exactly for k = 0, and the value is the only x in (0, p) with k*x = 1 modulo p |
| `Modular.InverseOfNeg` | tests/utils.py:73-75 | the negative case p - inverse(-k) is right, failures included |
| `Modular.EuclidStep` | tests/utils.py:82-86 | one round keeps the identities and the gcd |
| `Curve.NegClosed` | tests/utils.py:109-122 | the second assertion of negation never fires, and canonical points stay canonical |
| `Curve.ChordMeets` | tests/utils.py:148-154 | the line through two points of the curve meets it in exactly one more place, m^2 - x1 - x2, as a factorisation for all t |
| `Curve.TangentMeets` | tests/utils.py:144-154 | the same for the tangent, which meets its point twice |
| `Curve.AddClosed` | tests/utils.py:125-158 | for any integer points of the curve the final assertion never fires; the only failure is the inversion of the slope's denominator |
| `Curve.AddIsThirdIntersection` | tests/utils.py:125-158 | the sum is the mirrored third intersection of a line through both operands, stated without the formulas |
| `Curve.AddCommutes` | tests/utils.py:125-158 | addition is commutative on all integer pairs, failures included |
| `Curve.AddFailsExactly` | tests/utils.py:140-158 | over a prime field, canonical points fail exactly when doubling a point whose doubled ordinate vanishes, else the sum is a canonical point of the curve |
| `Curve.AddIsInfinityExactly` | tests/utils.py:130-142 | a sum is infinity exactly for opposite points, self-opposite ones excepted |
| `Curve.AddTotalExactly` | tests/utils.py:144-147 | over a prime field every addition of canonical points succeeds exactly when no point has ordinate 0 (and p is not 2 with a point on the curve) |
| `Curve.AddReducesExactly` | tests/utils.py:125-158 | on all integer points of a curve without ordinate-0 points, addition agrees with addition of the reduced points exactly when congruent coordinates that it compares are equal |
| `Associativity.AddAssociates` | tests/utils.py:125-158 | addition is associative on all canonical points of every curve over a prime field without ordinate-0 points, chord, tangent, opposite and infinity cases in any combination |
| `Group.NegIsInverse` | tests/utils.py:109-122 | negation gives the inverse of every point of the group |
| `Group.TimesAdd` | tests/utils.py:175-185 | the sums of j and of k copies add up to the sum of j + k copies |
| `Group.MultiplesCancel` | tests/utils.py:169-171 | the multiples by k and by -k cancel, for every integer k |
| `Group.EarlyExitExactly` | tests/utils.py:165-166 | the exit on k % n = 0 agrees with the k-fold sum for every k, negative ones included, exactly at the points that n additions bring to infinity |
| `Group.RoundAccumulates` | tests/utils.py:175-183 | one round keeps result + k*addend, and its addition and trailing doubling do not fail |
| `Group.ScalarMult` | tests/utils.py:161-187 | on a curve without ordinate-0 points, for every integer k: at canonical points, whatever their order, the loop gives the k-fold sum of the point or of its negative, infinity when n divides k, and raises nothing; at points with unreduced coordinates it does so modulo p exactly when k is even or 1 (up to sign) or the addition at the next bit of k finds no congruent but unequal coordinates; off the curve it raises |
| `Ecdsa.SignAttemptSucceeds` | tests/utils.py:226-230 | a nonce in range never unpacks infinity and always has an inverse |
| `Ecdsa.SignMessage` | tests/utils.py:219-233 | the loop returns the first acceptable attempt among its draws, or none while all have been refused |
| `Ecdsa.SignOnce` | tests/utils.py:226-230 | one pass of the loop computes the signature attempt of its nonce |
| `Ecdsa.VerifySignature` | tests/utils.py:236-252 | the code computes the verification over k-fold sums, for canonical keys and for keys with unreduced coordinates whose product comes out reduced; a key off the curve raises |
| `Ecdsa.NonceSignatureDuality` | tests/utils.py:230 | s = e/k exactly when k = e/s modulo the order |
| `Ecdsa.SigningEquation` | tests/utils.py:226-230 | nonce k signs to (r, s) exactly when r is the abscissa of the k-fold (gx, gy) modulo n and s*k = z + r*d modulo n |
| `Ecdsa.VerificationEquation` | tests/utils.py:240-252 | with u1*s = z and u2*s = r modulo n, verification compares r with the abscissa of u1 times (gx, gy) plus u2 times the key, and raises when that is infinity |
| `Ecdsa.MultipliersExist` | tests/utils.py:240-242 | such u1 and u2 in range exist whenever s is not a multiple of n |
| `ToyCurve.ToyVerification` | tests/utils.py:236-252 | on a curve of three points with the base point (3, 1) as key and hash 1: (1, 1) is refused, (0, 1) accepted, (2, 1) raises |
| `ToyCurve.Secp256k1BasePoint` | tests/utils.py:43-57 | the base point of the client's constants is a canonical point of their curve |
| `Ecdsa.VerificationPoint` | tests/utils.py:240-245 | the point compared is the multiple (z + r*d)/s of the base point |
| `Ecdsa.VerifiesExactlySigned` | tests/utils.py:219-252 | for every key, every hash and all integers r and s, verification accepts exactly when s is not a multiple of the order and some nonce signs to (r % n, s % n) |
| `Ecdsa.VerificationRaisesExactly` | tests/utils.py:236-252 | which of the three errors verification raises, for all integers r and s: exactly for s = 0, for other multiples of the order, and for z + r*d = 0 modulo the order |
| `Ecdsa.AcceptedIsProducedExactly` | tests/utils.py:219-252 | an accepted pair is one that signing can produce exactly when both halves are in [1, n - 1], which the code does not check |
| `Ecdsa.ShiftedVerifies` | tests/utils.py:236-252 | every signature shifted by multiples of the order is accepted too, and none but itself can be produced |
| `Ecdsa.SignedVerifies` | tests/utils.py:219-252 | every acceptable signature verifies, for z = 0 modulo the order too |
| `Bytes.Be2Le` | src/bip44.c:33-54 | in place: the flipped range, every other byte unchanged, for every length |
| `Bytes.FlipReversesExactly` | src/bip44.c:38-48 | the flip reverses all strings of a length exactly when it is even or at most 3 |
| `Bytes.FlippedBytes` | src/bip44.c:38-48 | byte for byte: a reversal at even lengths, and only the two ends exchanged at odd ones |
| `Bytes.FlippedTwice` | src/bip44.c:51-54 | the flip undoes itself at every length |
| `Bytes.FlippedValue` | src/bip44.c:33-54 | at even lengths it exchanges the big-endian and the little-endian value |
| `KeyTree.Flip32` | src/bip44.c:193-195 | on 32 bytes inside a buffer, a reversal and nothing else |
| `KeyTree.MathAdd` | src/bip44.c:227-230 | the big-endian sum in 256 bits, its carry dropped, operands possibly aliased |
| `KeyTree.BESumResidue` | src/bip44.c:227-230 | as numbers, that sum modulo 2^256 |
| `KeyTree.DeriveComposes` | src/bip44.c:160-396 | derivation along a path, to which all three loops are refined, composes: along p + q is along p and then along q, failures included |
| `KeyTree.EndsExactly` | src/bip44.c:147-157 | a retry loop ends exactly when some iterate is acceptable, and then with an acceptable one |
| `Bip32Ed25519.ParentPublicKey` | src/bip44.c:189-197 | the public key is computed from the flipped scalar, and the flips cancel |
| `Bip32Ed25519.ComputeZ` | src/bip44.c:199-222 | Z is the HMAC of tag, key or public key, and index, whatever the scratch buffer held before |
| `Bip32Ed25519.AddLeft` | src/bip44.c:224-232 | the flips, cleared bytes, three doublings and addition make 8*zL + kL in 256 bits, with the parent key unchanged |
| `Bip32Ed25519.AddRight` | src/bip44.c:233-238 | zR + kR in 256 bits, with the parent key unchanged |
| `Bip32Ed25519.SwapKeys` | src/bip44.c:239-245 | the child key is stored and the parent key kept in Z |
| `Bip32Ed25519.ComputeChain` | src/bip44.c:247-269 | the chain code is the right half of the HMAC over the parent's data, with no stale byte in it |
| `Bip32Ed25519.DeriveChild` | src/bip44.c:187-270 | one round of the loop is one child step of the paper |
| `Bip32Ed25519.HardenedChild` | src/bip44.c:199-270 | in bytes, from index 2^31 on: Z is the HMAC of 00, kL, kR and the little-endian index, the chain code the right half of the HMAC of 01 and the same; kL' = 8*zL + kL over the low 28 bytes and kR' = zR + kR, modulo 2^256 |
| `Bip32Ed25519.NormalChild` | src/bip44.c:199-270 | below 2^31: tags 02 and 03 over the public key of kL in place of the private key |
| `Bip32Ed25519.InputsApart` | src/bip44.c:199-260 | no input of a Z is an input of a chain code |
| `Bip32Ed25519.HdwBip32Ed25519` | src/bip44.c:160-283 | the whole loop on one scratch buffer refines the derivation along the path, for every path |
| `Bip32Ed25519.HdwAlongBoth` | src/bip44.c:160-283 | running the loop along p and then along q leaves the key and chain code of the path p + q |
| `Bip32Ed25519.ExpandSeed` | src/bip44.c:109-130 | the master key is the clamped first rehash with the third highest bit clear, and its chain code the tagged HMAC |
| `Bip32Ed25519.MasterInBytes` | src/bip44.c:112-130 | in bytes: rehashed while bit 5 of byte 31 is set, then the three low bits and the top bit cleared and bit 254 set; the chain code is the HMAC-SHA256 of 01 and the seed |
| `Bip32Ed25519.MasterInRange` | src/bip44.c:121-129 | the clamp puts the master scalar in range |
| `Bip32Ed25519.StepNeverCarries` | src/bip44.c:223-232 | in range, the left-half sum stays below 2^255 and is the child's scalar, which is in range one level deeper |
| `Bip32Ed25519.ScalarStaysInRange` | src/bip44.c:121-129 | along every path of at most 2^26 steps the scalar is a multiple of 8 with bit 254 set and bit 255 clear, below 2^254 + 2^253 + depth*2^227, and no carry is dropped |
| `Slip10.HdwSlip10` | src/bip44.c:285-325 | it succeeds exactly on all-hardened paths and otherwise stops at the first normal index with the key of the path up to there |
| `Slip10.HdwSlip10AlongBoth` | src/bip44.c:285-325 | running the loop along p and, if that succeeds, along q succeeds exactly when p + q is hardened, and leaves what one run along p + q leaves, early stops included |
| `Slip10.DeriveEdChild` | src/bip44.c:292-311 | one round is the hardened SLIP-0010 Ed25519 child |
| `Slip10.EdChildInBytes` | src/bip44.c:292-311 | in bytes: refused below 2^31, else the halves of the HMAC of 00, the key and the big-endian index |
| `Slip10.AllHardenedConcat` | src/bip44.c:292-301 | a concatenation is hardened throughout exactly when both parts are |
| `Slip10.EdDerivesExactly` | src/bip44.c:292-301 | a path derives exactly when every element is hardened |
| `Slip10.Attempt` | src/bip44.c:361-379 | one attempt: the digest is kept exactly when it is below the order and the sum is not 0, and else prepares 01, IR |
| `Slip10.FindChild` | src/bip44.c:348-379 | the retry loop leaves the child of the first kept digest |
| `Slip10.DeriveChild` | src/bip44.c:346-383 | one round of the loop is one SLIP-0010 child, and its key is a private key |
| `Slip10.ChildInBytes` | src/bip44.c:348-379 | in bytes: the first input is 00 and the key from 2^31 on, else 02 or 03 by the parity of y and x of the public key; retries hash 01 and the right half of the last digest; the first digest below n that does not cancel the key gives (IL + k) mod n and IR |
| `Slip10.FirstIsNoRetry` | src/bip44.c:350-376 | a first input never equals a retry's at the same index |
| `Slip10.HdwBip32` | src/bip44.c:327-396 | refused exactly for Ed25519; otherwise the derivation along the whole path |
| `Slip10.HdwBip32AlongBoth` | src/bip44.c:327-396 | running the loop along p and then along q leaves the private key and chain code of the path p + q |
| `Slip10.ChildInRange` | src/bip44.c:370-379 | every child's key is in [1, n - 1] |
| `Slip10.InRangeAlong` | src/bip44.c:346-383 | below a private key every key along every path is in [1, n - 1] |
| `Slip10.ExpandSeed` | src/bip44.c:132-158 | the master key is the first iterate of HMAC whose left half is in [1, n - 1] |
| `Slip10.MasterInBytes` | src/bip44.c:143-157 | in bytes: the HMAC of the seed, rehashed while its left half is 0 or not below n |
| `DeviceKeys.ExpandSeedSlip10` | src/bip44.c:99-107 | key and chain code are the halves of the HMAC of the seed |
| `DeviceKeys.DeriveNodeWithSeedKey` | src/bip44.c:422-494 | outside SLIP-0021, mode and curve pick the scheme; it succeeds exactly when that derives, with its node |
| `DeviceKeys.DevicePathDerives` | src/archethic.c:286-303 | every path built for the device is hardened throughout, so the Ed25519 scheme, which refuses all others, derives along it |
| `DeviceKeys.DevicePathInNumbers` | src/archethic.c:286-288 | the three numbers of the device's path, each with bit 31 set |
| `DeviceKeys.SeedKeysInBytes` | src/bip44.c:22-29 | the three default HMAC keys |
| `DeviceKeys.SchemeOfMode` | src/bip44.c:452-487 | which master key and which child step stand behind each mode and curve |
| `DeviceKeys.DeviceEd25519InBytes` | src/archethic.c:286-303 | the device's Ed25519 key as four HMACs over literal bytes: of the seed under "ed25519 seed", then of 00, key and hardened index for each of the three numbers |
| `DeviceKeys.DerivedKeyInRange` | src/bip44.c:469-486 | every private key derived on a prime-order curve is in [1, n - 1] |
| `Decimals.ParseDecimal` | src/common/format.c:81-92 | parsing the canonical notation returns the number |
| `Decimals.CanonicalUnique` | src/common/format.c:81-92 | the canonical notation is the only one without leading zeros |
| `Decimals.NotationExamples` | src/common/format.c:81-107 | 0, 120 and back, in characters |
| `Format.PrintBackwards` | src/common/format.c:81-91 | the digits are written last first, with room kept for a terminator |
| `Format.ReversePrefix` | src/common/format.c:94-107 | the in-place reversal of the written digits |
| `Format.FormatU64` | src/common/format.c:71-109 | success exactly when digits and terminator fit (and for a digit into one byte); then the canonical decimal and a terminator, the rest unchanged |
| `Format.SignedRoundTrip` | src/common/format.c:24-50 | the signed notation parses back, and is at most 20 characters for 64 bits |
| `Format.CastExactly` | src/common/format.c:53-56 | what the cast of the size to int means for sizes of 32 bits: those from 2^31 on never suffice |
| `Format.SignedDigit` | src/common/format.c:39-40 | under C's truncating division each digit of either sign is in range and nothing is negated whole |
| `Format.PrintSignedBackwards` | src/common/format.c:26-50 | the notation, backwards, in 21 bytes, for every 64-bit value including the minimum |
| `Format.FormatI64` | src/common/format.c:24-69 | success exactly when length + 1 is at most the size as a 32-bit int; then the notation and a terminator |
| `FixedPoints.FormatFpu64` | src/common/format.c:111-151 | the exact failures of both branches, the exact buffer either leaves, and exactly when the string in it is terminated: from decimals + 3 bytes on in the first branch, when the next byte was NUL before in the second |
| `FixedPoints.FixedPointValue` | src/common/format.c:120-148 | the string, read as a number, is the value divided by ten to the decimals |
| `FixedPoints.FixedPointScaled` | src/common/format.c:120-148 | its digits before and after the point make the value, with as many decimals as asked |
| `FixedPoints.FixedPointExamples` | src/common/format.c:120-148 | 105 with 8, 2 and 3 decimals, in characters |
| `FixedPoints.FractionCompleteExactly` | src/common/format.c:122-136 | the first branch leaves a terminated string exactly from decimals + 3 bytes on |
| `FixedPoints.FractionCanLackTerminator` | src/common/format.c:124-135 | 5 with one decimal in three bytes is reported as success without a terminator |
| `SignHash.DecodeAmount` | src/signHash.c:157-160 | the shifts and ors assemble the big-endian amount |
| `Decimals.SixtyFourBits` | src/common/format.c:71-109 | 64-bit numbers have at most 20 digits, so 21 bytes always suffice |
| `SignHash.ThirtyIsLeast` | src/signHash.c:162-164 | 30 bytes are enough for every amount, and no smaller size is |
| `SignHash.Request.Decode` | src/signHash.c:132-169 | byte 0 is the service index; with an even byte 2 bytes 1-34 are the receiver and 35-42 the amount, with an odd one bytes 1-66 and 67-74; the shown amount is that amount formatted |
| `SignHash.Request.ShowAndHash` | src/signHash.c:132-206 | decoding and hashing one request: the number shown is the amount under the hash |
| `SignHash.Request.ShowAndHashFields` | src/signHash.c:132-206 | a request put together from service, receiver, amount and rest is taken apart into them, for 34-byte receivers with an even and 66-byte receivers with an odd second byte; the number shown is that amount, and the hash is over the literal preimage of these fields |
| `SignHash.GenerateAddress` | src/archethic.c:253-276 | with hash type 0 the address is the curve byte, 0 and the hash of these and the public key, written over the key in place; 34 bytes |
| `SignHash.OwnAddressIsReceiver` | src/signHash.c:138-151 | such an address in a request is itself decoded whole as the receiver |
| `SignHash.GetTransactionHash` | src/archethic.c:340-403 | the buffer is filled with exactly the preimage that is hashed |
| `SignHash.PreimageInBytes` | src/archethic.c:344-400 | the preimage field by field, in literal bytes |
| `SignHash.PreimageRoundTrip` | src/archethic.c:344-403 | the preimage can be read back, has 25 bytes besides the addresses and fits 200 |
| `SignHash.PreimageInjective` | src/archethic.c:344-403 | equal preimages come from equal senders, receivers and amounts |
| `SignHash.ShownIsHashed` | src/signHash.c:156-167 | the number shown, times 10^8, is the big-endian amount in the preimage |
| `SignHash.ShownDetermines` | src/signHash.c:156-167 | two amounts that look alike have the same bytes |
| `Wallet.GetDerivationPath` | src/archethic.c:93-157 | the seek loop computes the recursive lookup, refusals and unguarded reads included |
| `Wallet.LocateFinds` | tests/manual_testing/wallet_encoder_new.ex:98-108 | on every encoded wallet, whatever follows it, each index in range is refused by the length guard or found with its own path; path, curve and seed are reread unchanged |
| `Wallet.EncodedInBytes` | tests/manual_testing/wallet_encoder_new.ex:94-108 | the layout byte by byte, on a wallet with one service |
| `Wallet.GuardAdmits` | src/archethic.c:95-98 | with a seed of 27 bytes and services of 6 the length guard refuses no index in range |
| `Wallet.RejectsExactly` | src/archethic.c:97-122 | an encoded wallet's request is refused exactly when it is short or the index is above the count |
| `Wallet.CountIsReadBehind` | src/archethic.c:120-122 | the index equal to the count is looked up from the first byte behind the wallet |
| `Wallet.PastTheEndIsFound` | src/archethic.c:120-122 | an example: service 0 of an empty wallet is found in the bytes that follow |
| `PathScan.Scan` | src/archethic.c:179-221 | for every text after "m/" the scan yields the first part's number, the second part's digit sum, and 0 |
| `PathScan.ScanOfPrinted` | src/archethic.c:179-221 | on printed paths that is the intended reading exactly when the account has one digit and the index is 0 |
| `PathScan.PathInBytes` | src/archethic.c:185-221 | m/650'/12'/3' in bytes |
| `PathScan.PathInBytesScans` | src/archethic.c:185-221 | these bytes scan to coin type 650 and account 3 |
| `PathScan.AccountsCollide` | src/archethic.c:212-217 | accounts 1 and 10 scan alike |
| `WalletKeys.GenerateKeyInputs` | src/archethic.c:159-251 | the copy, check, scan and extraction compute the key inputs, refusals and overruns included; the curve byte behind the path means Ed25519 for 0, P-256 for 1 and secp256k1 for all others, and the seed stands behind its length at byte 4 |
| `WalletKeys.CurveRoundTrip` | tests/manual_testing/wallet_encoder_new.ex:88 | the encoder's curve bytes 0, 1 and 2 are read back as their curves, and every byte above 2 as secp256k1 |
| `WalletKeys.WalletToKeys` | src/archethic.c:93-251 | end to end on printed paths: the screen shows the service's own path, and the key is derived from the wallet's seed, on Ed25519, P-256 or secp256k1 for curve bytes 0, 1 or more, along coin type, digit sum of the account, and offset, as numbers with bit 31 set |
| `WalletKeys.EncodedCurve` | src/archethic.c:232-246 | a service encoded for a curve gets its key inputs on that curve |
| `Transactions.VarintRoundTrip` | tests/archethic_client/utils.py:26-56 | reading undoes writing at all four widths, writing fails exactly above 2^64 - 1 |
| `Transactions.VarintInBytes` | tests/archethic_client/utils.py:26-39 | the four forms in bytes, low byte first after FD, FE and FF |
| `Transactions.VarintCanonicalExactly` | tests/archethic_client/utils.py:26-56 | writing undoes reading exactly for the widths the writer picks |
| `Transactions.TransactionRoundTrip` | tests/archethic_client/transaction.py:28-47 | reading undoes serializing for every valid transaction and leaves the following bytes |
| `Transactions.SerializeInBytes` | tests/archethic_client/transaction.py:28-35 | the stream form byte for byte, high bytes first |
| `Transactions.TakeInBytes` | tests/archethic_client/transaction.py:37-47 | it is read back exactly when every byte of the memo is below 80 |
| `Transactions.Stream.Read` | tests/archethic_client/utils.py:59-65 | exactly the bytes asked for, or an error with the stream read to its end |
| `Transactions.Stream.ReadVarint` | tests/archethic_client/utils.py:42-56 | the stream method takes the varint off the front, with the same errors |
| `Transactions.Stream.FromBytes` | tests/archethic_client/transaction.py:37-47 | the stream method takes the transaction off the front, fails exactly when there is none, and its result is valid |

## Left out

- `hash_message`, random nonce selection, timing and logging: the hash is an integer argument and the nonces a sequence of draws.
- `make_keypair`, `pubkey_pair`, `sign_pair` and `bip32_path_from_string`: string handling without a harder property behind it.
- `hdw_slip21`, `decryptWallet`, `performECDH`, `performECDSA`: sequences of library calls.
- `DeviceKeys.DeriveNodeWithSeedKey`: the SLIP-0021 mode, two HMACs in a row on a labelled path; the application never derives with it.
- `Ecdsa.VerifySignature`: nothing is said of keys with unreduced coordinates when the product with the key is left unreduced or taken apart (`Group.ScalarMult` says when); whether the abscissas then agree depends on the signature.
- The unsupported curves of `get_seed_key` and its size comparisons that are never true.
- The copies of a derived key into a caller's buffers (`src/bip44.c` 272-280, 314-322, 385-393): the model leaves the key in its structure.
- The branch for account 0xffff that derives with the operating system's seed: no wallet path scans to that account.
- `deriveArchEthicKeyPair` after the path: the public key is unseen library code. `generateArchEthicAddress` is modelled from the public key on.
- The receiver's hexadecimal text on the screen: it depends on a print format of the operating system.
- `format_hex`: one nibble after the other.
- The `prefix` argument of `read_varint`, which no caller passes.
- `Format.FormatU64`: the 8-bit digit counter is an unbounded integer; it stays below 20, so it cannot wrap.
- `Wallet.GetDerivationPath`: a read past the wallet buffer or a write past the screen text is an outcome of its own instead of undefined behaviour.
- The device's screens, APDU dispatch and the old wallet encoder.
