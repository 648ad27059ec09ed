# Curve arithmetic and network credentials, verified

This project models three parts of the ZeroTier SDK in Dafny and proves what they are for.

**Curve25519 and Ed25519** (`zto/node/C25519.cpp`). Numbers are arrays of 32 limbs of eight bits held in
32-bit words, and every word operation of the model wraps as C does. Each routine is a method over such arrays,
proved equal to a function on limb sequences that has no bounds in it; separate lemmas then show on which inputs
no word wraps, what integer the limbs hold, and which limb bounds come out. `Limbs.Val` is the integer a limb
sequence holds. On top of the limbs stand the X25519 ladder against section 5 of RFC 7748, the truncated Barrett
reduction, the point formulas over the Edwards curve of RFC 8032, both scalar multiplications, point packing and
unpacking with its square root, and signing and verification from bytes to bytes.

**Network credentials** (`zto/node/CertificateOfMembership.*`, `zto/node/Capability.*`, `zto/controller/*`).
Membership certificates and when they agree, capabilities with their rules, wire format and chain of custody, the
controller as a state machine over whole runs (admission, authorisation, credential lifetimes, whose certificates
agree, IP assignment, the cached member summary), rules between JSON and the wire, where every field stands there,
and the JSON store under it all.

**The rules engine** (`zto/node/Network.cpp`). What a node does with an Ethernet frame, from its bytes to drop,
accept, redirect or copy. A rule set written in JSON, parsed by the controller, sent over the wire and run by the
engine on its type numbers is proved to do what the names and fields of its objects say.

## How it is organised

| files | contents |
|---|---|
| `Options`, `Words`, `ModArith`, `Limbs`, `Field`, `Convolution`, `Schoolbook`, `Powers` | wrapping words, congruences, limb values, carry passes, convolutions, powers |
| `X25519`, `X25519Values`, `Ladder`, `ScalarMult` | the key agreement half of the curve code |
| `Fe25519`, `Fe25519Values`, `Fe25519Freeze`, `Fe25519Powers`, `ProductReach` | the field arithmetic of the signature half, and how far its products reach |
| `Sc25519`, `Barrett`, `ScalarOps`, `Digits` | scalars modulo the group order and their digit forms |
| `Group`, `Edwards`, `CurveConstants`, `Ge25519`, `DoubleScalarMult`, `BaseScalarMult` | points |
| `Fermat`, `SquareRoot`, `PointCodec`, `PackingReach`, `DecodingReach`, `Ed25519` | encoding of points, signatures |
| `Identities`, `Membership`, `MembershipCodec`, `MembershipSigning` | certificates of membership |
| `Buffers`, `RuleCodec`, `RuleJson`, `Capabilities`, `WireLayout` | rules and capabilities, and the bytes of all formats |
| `Bits`, `FlowFilter`, `FilterLaws`, `FrameFormats`, `RuleMeaning` | the rules engine, and what JSON rules mean to it |
| `IpAllocation`, `Reachability`, `Controller`, `ControllerRuns`, `Admission`, `Allocations`, `WitnessRuns`, `SharedAddresses`, `JsonDb` | the controller and its store |

## What is taken as given

The mathematics that the code takes for granted appears as named hypotheses and nowhere else.

- `Edwards.Prime`: p = 2^255 - 19 has no zero divisors. Fermat's little theorem is derived from it.
- `Edwards.Curve.Law` and `Edwards.Curve.Full`: points form an abelian group, their coordinates satisfy the curve
  equation and the complete addition law, and every solution of the equation is a point. The limb formulas are
  proved against this law, not assumed to follow it.
- `Ed25519.Setting.Valid`: the base point has order dividing L.
- `BaseScalarMult.BaseTable`: entry 5 i + k of the table of multiples is [k 8^i]B.
- The hash function is any function to 64 bytes. Identities sign and verify as an ideal pair
  (`Identities.Directory.Ideal`). That one given signature verifies for one message only (`Identities.BindsTo`) is
  used where it is named, and goes together with an ideal pair (`Identities.BindingIsPossible`). Text helpers
  print and parse as inverse pairs (`RuleJson.Helpers.Lawful`, which some helpers are: `RuleJson.LawfulIsPossible`),
  and stored objects parse back (`JsonDb.Store.Law`).
- `Fermat.Domain(L)`: the group order has no zero divisors; used only in `Ed25519.NonceReuse`.
- Random addresses and numbers, clock readings, presented tokens and file times are parameters. So are, for the rules
  engine, the tags of both sides and which addresses the certificates of the sender cover.

## Where the code falls short of its own assumptions

- `fe25519_mul` makes two reduction passes and can end at or above 2^255 (`ProductReach.ProductNotBelow`), while
  `fe25519_freeze`, and with it packing, comparison and parity, is documented for values below 2^255.
  `ProductReach.ProductBelowIff` says exactly when that happens, from the folded product of the operands.
- Packing therefore writes the encoding of a point exactly when both affine quotients end below 2^255, and another
  number, which `PointCodec.PackPoint` gives, when they do not; `PackingReach.PackingFails` exhibits such a point.
  Decoding fails, or yields the point instead of its negative, exactly when the check of the root, or the root, ends
  there (`PointCodec.EncodingDecodes`); `DecodingReach.DecodingFails` and `DecodingReach.DecodingTurns` give 32 bytes
  for each. `PointCodec.Safe` names the residues for which none of this can happen.
- `crypto_scalarmult` does not clear the top bit of the incoming coordinate. It computes the RFC function of the
  unmasked number; `ScalarMult.DecodedPoint` says exactly when that is the masked one.
- `agreesWith` reads the other certificate's value at its own index. `Membership.AgreesIffInPlace` gives the exact
  condition under which this decides the documented relation, for all ids that `deserialize` accepts. Certificates
  made by the controller satisfy it. With repeated ids the index can pass the other certificate's count, and a slot
  that is not part of it decides (`Membership.FoundBeyondIff`, `Membership.RepeatReadsBeyond`).
- A certificate issued in the very millisecond of a de-authorisation gets the largest delta, which lets a member
  back in that was de-authorised long before (`WitnessRuns.SameMillisecond`, a run); `ControllerRuns.DeltaExcludes` is
  the exact condition.
- Automatic IPv4 assignment accepts addresses under routes with a gateway, although its comment speaks of local
  routes and the IPv6 branch checks for them. Such an address does not count as assigned, so the member gets another
  on its next request (`WitnessRuns.SecondAddress`, a run). `Allocations.ManagedIff` says for which networks assigned
  addresses always count, and `Allocations.AtMostOne` that each member then gets at most one per family in every run.
- The addresses of de-authorised members are handed out again, and a member that comes back keeps its own
  (`WitnessRuns.SharedAddress`, a run). `SharedAddresses.DistinctRunsIff` is the exact condition on the network for
  distinct addresses in all runs: no IPv4 address can be assigned and no IPv6 address to two members.
  `Allocations.DistinctStepIff` is the exact condition on one request, from the state before it.
- A block of rules starts out as matching, so tests that are all joined by OR always match
  (`FilterLaws.OrsAlwaysHold`). `FilterLaws.FoldIff` says exactly when a block matches; without OR it is the
  documented conjunction (`FilterLaws.ConjunctionIff`).
- An IPv6 rule compares the masked address of the frame with the whole address of the rule. It matches the addresses of
  its network exactly when its own address has no bits behind the netmask, and nothing otherwise
  (`RuleMeaning.Contains6Iff`); an IPv4 rule has no such condition (`RuleMeaning.Contains4Iff`).
- The flags of a TCP header in IPv4 are read without regard to the length of the frame. A decision depends on the
  frame alone unless that header is cut off (`FilterLaws.FrameDecides`), and whenever it is some rule set decides by
  what lies behind the frame (`FilterLaws.CutDecides`).
- In IPv6, port 0 matches no port range, and VLAN priorities and drop eligibility match only 0 (`RuleMeaning.MatchMeans`).
- Copies asked for by base rules that match nothing are sent all the same when a capability lets the frame pass
  (`FilterLaws.FilterPacket`).
- IPv6 pools with the start after the end are not rejected; `IpAllocation.Trial6Range` says that an address is inside
  its pool exactly when the pool is not upside down.
- Object names with empty path components share a file with a name without them: a name has a file of its own
  exactly when it has none (`JsonDb.OwnFileIffClean`). The store's methods take all names; what they promise about
  other names is about names without empty components.
- The store takes a cached entry for current when its file has the entry's time. A file written again in the same
  second, through another name or from outside, is missed; `JsonDb.Store.WrittenTracks` says exactly when that
  happens, and otherwise `JsonDb.Store.TrackedAnswer` says when an answer is the file's contents.

## Model

| member | source | states |
|---|---|---|
| `X25519.Add` | zto/node/C25519.cpp:36-43 | the limbs of the carried sum, in place at any offset, nothing else written |
| `X25519Values.SumValue` | zto/node/C25519.cpp:36-43 | for byte limbs the sum neither wraps nor loses value, and leaves wide limbs |
| `X25519.Sub` | zto/node/C25519.cpp:45-57 | the limbs of the carried difference with 2p mixed in |
| `X25519Values.DifferenceValue` | zto/node/C25519.cpp:45-57 | for byte limbs with b at most 2p above a the result is exactly a - b + 2p, without underflow, in wide limbs |
| `X25519.Squeeze` | zto/node/C25519.cpp:59-69 | carry, fold bits from 255 up times 19, carry again, in place |
| `X25519Values.SqueezedValue` | zto/node/C25519.cpp:59-69 | squeezing keeps the residue modulo p and ends below 2p with byte limbs |
| `X25519.Freeze` | zto/node/C25519.cpp:75-85 | masked subtraction of p chooses between the limbs and the limbs minus p |
| `X25519Values.FrozenValue` | zto/node/C25519.cpp:75-85 | below 2p, freezing and truncating to bytes gives the residue in [0, p) |
| `X25519.Mult` | zto/node/C25519.cpp:87-100 | every limb is the folded convolution modulo 2^32, then squeezed |
| `X25519Values.ProductValue` | zto/node/C25519.cpp:87-100 | for wide operands no accumulator wraps and the product is congruent to a b and below 2p |
| `X25519.Mult121665` | zto/node/C25519.cpp:102-113 | the limbs of the small multiple, carried and folded |
| `X25519Values.Times121665Value` | zto/node/C25519.cpp:102-113 | congruent to 121665 a and below 2p |
| `X25519.Square` | zto/node/C25519.cpp:115-133 | for every limb array the same limbs as multiplying the array by itself |
| `X25519.SquareLimbIsFold` | zto/node/C25519.cpp:121-129 | doubled half sums plus the diagonal at even positions make up the full folded convolution |
| `X25519.Select` | zto/node/C25519.cpp:135-147 | a conditional swap of two 64-limb arrays by masks |
| `Ladder.LadderStep` | zto/node/C25519.cpp:181-200 | one round on limb arrays is swap, ladder step, swap on the four coordinates |
| `Ladder.LimbStepValue` | zto/node/C25519.cpp:182-199 | the step keeps the limb bounds under which nothing wraps and computes the RFC 7748 step modulo p |
| `Ladder.SettleSwap` | zto/node/C25519.cpp:181-200 | swapping back in every round equals the delayed swaps of RFC 7748 |
| `Ladder.BitOfByte` | zto/node/C25519.cpp:179-180 | the bit the code extracts is the bit of the scalar as a number |
| `Ladder.Mainloop` | zto/node/C25519.cpp:149-204 | the 255 rounds leave the projective result of the RFC 7748 ladder, with the bounds `recip` needs |
| `ScalarMult.Recip` | zto/node/C25519.cpp:206-271 | z^(p-2) modulo p, also when input and output are the same slice |
| `ScalarMult.ClampValue` | zto/node/C25519.cpp:280-283 | clamping the bytes sets bit 254 and clears the three low bits and bit 255 of the number |
| `ScalarMult.ClampedBits` | zto/node/C25519.cpp:280-283 | bit by bit: the low three and those from 255 on clear, bit 254 set, the others kept |
| `ScalarMult.CryptoScalarmult` | zto/node/C25519.cpp:273-291 | the bytes written are the number X25519(clamped n, p) of RFC 7748, always canonical |
| `ScalarMult.DecodedPoint` | zto/node/C25519.cpp:284 | the number used is the masked coordinate exactly when the top bit is clear, else it is 19 more modulo p |
| `Fe25519.ReduceAddSub` | zto/node/C25519.cpp:344-362 | four reduction passes in place |
| `Fe25519.ReduceMul` | zto/node/C25519.cpp:364-382 | two reduction passes in place |
| `Fe25519Freeze.Equal16Decides` | zto/node/C25519.cpp:317-323 | the wrap-around comparison decides equality of 16-bit values |
| `Fe25519Freeze.Ge16Decides` | zto/node/C25519.cpp:325-332 | the wrap-around comparison decides order of 16-bit values |
| `Fe25519Freeze.FeFreeze` | zto/node/C25519.cpp:385-399 | p is subtracted exactly from limbs that read p to 2^255 - 1 |
| `Fe25519Freeze.FrozenLimbsValue` | zto/node/C25519.cpp:385-399 | below 2^255 freezing gives the residue in [0, p), from 2^255 on it changes nothing |
| `Fe25519Freeze.FrozenDecides` | zto/node/C25519.cpp:432-442 | comparing frozen limbs decides congruence exactly when both are below 2^255 or identical |
| `Fe25519Freeze.FreezeMissesTopBit` | zto/node/C25519.cpp:385-399 | 2^255 and 19 are congruent and do not compare equal |
| `Fe25519Freeze.FePack` | zto/node/C25519.cpp:408-416 | the bytes of the frozen limbs |
| `Fe25519Freeze.PackedValue` | zto/node/C25519.cpp:408-416 | below 2^255 they are the bytes of the residue modulo p |
| `Fe25519Freeze.FeIsEq` | zto/node/C25519.cpp:432-442 | equality of the frozen limbs |
| `Fe25519.FeAdd` | zto/node/C25519.cpp:481-486 | limb sums and four passes, aliasing allowed |
| `Fe25519Values.FeSumValue` | zto/node/C25519.cpp:481-486 | congruent to x + y and below 2^255, for all loose operands |
| `Fe25519.FeSub` | zto/node/C25519.cpp:488-497 | limb differences over 2p and four passes, aliasing allowed |
| `Fe25519Values.FeDifferenceValue` | zto/node/C25519.cpp:488-497 | congruent to x - y and below 2^255, without underflow, for all loose operands |
| `Fe25519.FeMul` | zto/node/C25519.cpp:499-514 | folded convolution and two passes, aliasing allowed |
| `Fe25519Values.FeProductValue` | zto/node/C25519.cpp:499-514 | congruent to x y, loose again, and less than 58368 above 2^255 |
| `ProductReach.ProductBelowIff` | zto/node/C25519.cpp:499-514 | a product of loose numbers ends below 2^255 exactly unless the folded product leaves a residue from 19 up to 19 times its quotient by p |
| `ProductReach.ProductAtTopBit` | zto/node/C25519.cpp:364-382 | large top limbs with a product of residue 19 to 37 always end at or above 2^255 |
| `ProductReach.ProductNotBelow` | zto/node/C25519.cpp:499-514 | two numbers below 2^255 whose product is not |
| `Fe25519Powers.FeInvert` | zto/node/C25519.cpp:521-586 | the limbs of the inversion chain, through its alternating temporaries |
| `Fe25519Powers.InvertedValue` | zto/node/C25519.cpp:521-586 | those limbs hold x^(p-2) modulo p |
| `Fe25519Powers.FePow2523` | zto/node/C25519.cpp:588-640 | the limbs of the other chain, in place |
| `Fe25519Powers.RaisedValue` | zto/node/C25519.cpp:588-640 | those limbs hold x^((p-5)/8) modulo p |
| `Sc25519.MValue` | zto/node/C25519.cpp:654-655 | the limbs of the modulus are those of the group order |
| `Sc25519.MuValue` | zto/node/C25519.cpp:657-658 | the 33 limbs of the reciprocal hold the number MU |
| `Barrett.Reciprocal` | zto/node/C25519.cpp:657-658 | MU is floor(2^512 / L) |
| `Sc25519.ReduceAddSub` | zto/node/C25519.cpp:669-687 | the order is subtracted once, exactly when the number is at least the order |
| `Barrett.QuotientCorrect` | zto/node/C25519.cpp:705-711 | the truncated quotient is never too large and leaves a remainder below 3 L, for all 64 byte limbs |
| `Barrett.SecondProductBound` | zto/node/C25519.cpp:713-716 | no 32-bit accumulator of q L wraps although the quotient limbs are uncarried |
| `Barrett.RemainderExact` | zto/node/C25519.cpp:718-735 | the truncated subtraction modulo 2^264 is the true, non-negative remainder |
| `Barrett.BarrettReduce` | zto/node/C25519.cpp:690-739 | byte limbs of x mod L for every 64-byte x |
| `ScalarOps.ScFrom32Bytes` | zto/node/C25519.cpp:741-748 | the number of 32 bytes modulo L |
| `ScalarOps.ScFrom64Bytes` | zto/node/C25519.cpp:758-764 | the number of 64 bytes modulo L |
| `ScalarOps.ScTo32Bytes` | zto/node/C25519.cpp:777-781 | bytes of the same number |
| `ScalarOps.ScAdd` | zto/node/C25519.cpp:816-827 | the sum modulo L, aliasing allowed |
| `ScalarOps.ScMul` | zto/node/C25519.cpp:844-863 | the product modulo L, aliasing allowed |
| `Digits.Window3` | zto/node/C25519.cpp:874-909 | 85 signed digits that make up the scalar in base 8, all but the last in -4..3, the last at most one above its bits |
| `Digits.MakeSigned` | zto/node/C25519.cpp:898-908 | making the digits signed keeps the number |
| `Digits.Signed8Unique` | zto/node/C25519.cpp:898-908 | digits in -4..3 with a last one of any size are the only ones of the number |
| `Digits.Interleave2` | zto/node/C25519.cpp:950-963 | each of the 127 digits packs the base-4 digits of both scalars |
| `Digits.Base4Unique` | zto/node/C25519.cpp:950-963 | such digits are the only ones of the number |
| `CurveConstants.DValue` | zto/node/C25519.cpp:974-975 | the limbs of d |
| `CurveConstants.TwoDValue` | zto/node/C25519.cpp:977-978 | the limbs of 2d |
| `CurveConstants.SqrtM1Value` | zto/node/C25519.cpp:980-981 | the limbs of the root of -1 |
| `Edwards.CurveConstant` | zto/node/C25519.cpp:973-978 | d is -121665/121666 modulo p and the second constant is its double |
| `CurveConstants.SqrtM1Squares` | zto/node/C25519.cpp:979-981 | its square is -1 modulo p |
| `Ge25519.ConversionRepresents` | zto/node/C25519.cpp:1871-1889 | both conversions keep the point; only the full one refreshes the product coordinate |
| `Ge25519.MixAddRepresents` | zto/node/C25519.cpp:1891-1912 | adding an affine entry gives extended limbs of the group sum |
| `Ge25519.AddRepresents` | zto/node/C25519.cpp:1914-1932 | the unified addition gives completed limbs of the group sum, denominators invertible |
| `Ge25519.DoubleRepresents` | zto/node/C25519.cpp:1934-1951 | the doubling formula gives the group double from three coordinates, by the curve equation |
| `Ge25519.NeutralRepresents` | zto/node/C25519.cpp:1991-1997 | the neutral limbs are the neutral element |
| `BaseScalarMult.FeCmovSelects` | zto/node/C25519.cpp:444-450 | the masked move takes the new limbs for 1 and keeps the old for 0 |
| `BaseScalarMult.Equal8Decides` | zto/node/C25519.cpp:1960-1969 | the wrap-around comparison decides equality of signed chars |
| `BaseScalarMult.ChooseTSelects` | zto/node/C25519.cpp:1978-1989 | for every signed char the column picked is the magnitude on -4..3 and 0 elsewhere, x negated for negative digits |
| `BaseScalarMult.ChooseTRepresents` | zto/node/C25519.cpp:1978-1989 | on -4..3 the choice at position i is [b 8^i]B |
| `BaseScalarMult.ScalarmultBase` | zto/node/C25519.cpp:2113-2128 | [s]B for every s below the order, in limbs that are a function of s and the table |
| `DoubleScalarMult.Precompute` | zto/node/C25519.cpp:2076-2092 | entry k of the table is [k mod 4]P1 + [k / 4]P2 |
| `DoubleScalarMult.Round` | zto/node/C25519.cpp:2098-2109 | two doublings and a lookup turn [m]P1 + [n]P2 into [4m + d1]P1 + [4n + d2]P2, product coordinate fresh when read |
| `DoubleScalarMult.DoubleScalarmult` | zto/node/C25519.cpp:2067-2111 | [s1]P1 + [s2]P2 over the low 254 bits of both scalars, in limbs that are a function of these |
| `DoubleScalarMult.ScalarIsLow` | zto/node/C25519.cpp:2067-2111 | scalars below the order lose no bits |
| `SquareRoot.CandidateSquare` | zto/node/C25519.cpp:2013-2026 | if num is x^2 den, the candidate squared times den is num or -num |
| `PointCodec.Root` | zto/node/C25519.cpp:2012-2037 | returns the candidate that squares to num / den exactly when there is one and its check ends below 2^255 |
| `PointCodec.RootExists` | zto/node/C25519.cpp:2012-2037 | one of the two candidates is a root whenever num / den is a square |
| `PointCodec.UnpackNeg` | zto/node/C25519.cpp:2000-2045 | succeeds exactly when the root is found, and yields a curve point with the encoded y |
| `PointCodec.EncodingDecodes` | zto/node/C25519.cpp:2000-2045 | from the encoding of a curve point: found exactly when the check ends below 2^255, and then the negated point, or the point itself when the root ends from 2^255 on |
| `PointCodec.SafeBelow` | zto/node/C25519.cpp:2051-2054 | products with a residue outside the window of 58368 small values end below 2^255 whatever their limbs |
| `PointCodec.PackPoint` | zto/node/C25519.cpp:2047-2055 | writes the encoding of section 5.1.2 of RFC 8032 exactly when both affine quotients end below 2^255, and the number written otherwise |
| `PointCodec.SafePacks` | zto/node/C25519.cpp:2047-2055 | points with coordinates outside the window always pack |
| `PackingReach.PackingFails` | zto/node/C25519.cpp:2047-2055 | a curve point with limbs that represent it and do not pack |
| `DecodingReach.DecodingFails` | zto/node/C25519.cpp:2000-2045 | some 32 bytes that encode a point of the curve are rejected |
| `DecodingReach.DecodingTurns` | zto/node/C25519.cpp:2000-2045 | some 32 bytes that encode a point of the curve decode to that point and not to its negative |
| `Fermat.LittleTheorem` | zto/node/C25519.cpp:2050 | the power p - 2 inverts, for any modulus without zero divisors |
| `Ed25519.GetHram` | zto/node/C25519.cpp:2130-2140 | hashes R, key and digest, also when the scratch buffer is the signature |
| `Ed25519.CalcPubEd` | zto/node/C25519.cpp:2376-2397 | the public key is the packed [a]B, a the clamped secret: its encoding exactly when the limbs computed for [a]B pack |
| `Ed25519.Sign` | zto/node/C25519.cpp:2287-2335 | R is the packed [k]B and s is h a + k modulo L, with k hashed from 64 bytes (second half of the hashed key, digest), h from 96 (R, key, digest) and a the clamped first half; the digest stands behind them |
| `Ed25519.SecretIs` | zto/node/C25519.cpp:2302-2305 | the secret scalar is the clamped first half of the hashed key |
| `Ed25519.NonceInput` | zto/node/C25519.cpp:2307-2316 | the nonce is the hash, modulo L, of 64 bytes: the second half of the hashed key and then the digest |
| `Ed25519.ChallengeInput` | zto/node/C25519.cpp:2130-2140 | the challenge is the hash, modulo L, of 96 bytes: R, key and digest |
| `Ed25519.NonceInputsDiffer` | zto/node/C25519.cpp:2307-2312 | under one key messages with different digests hash different bytes to their nonces |
| `Ed25519.NonceReuse` | zto/node/C25519.cpp:2307-2332 | two signatures with one nonce and different challenges have only one solution for the secret modulo L, which is why the digest is part of the nonce |
| `Ed25519.Verify` | zto/node/C25519.cpp:2337-2366 | under any 32 bytes as key, accepts exactly when the digest is good, the key decodes, and R is what the limbs computed from key and signature pack to |
| `Ed25519.OutcomeDecides` | zto/node/C25519.cpp:2337-2366 | when the key decodes to the negated point, what satisfies the verification equation is accepted exactly when the recomputed limbs pack, and nothing else is accepted when they do |
| `Ed25519.EquationHolds` | zto/node/C25519.cpp:2326-2332 | [h](-[a]B) + [(h a + k) mod L]B is [k]B in any abelian group |
| `Ed25519.SignedIsAccepted` | zto/node/C25519.cpp:2287-2366 | the verifier of a signature recomputes [k]B, and the equation holds exactly when the signer's limbs of [k]B pack |
| `Ed25519.SignThenVerify` | zto/node/C25519.cpp:2287-2397 | a key pair signs and the verifier judges the signature exactly, whatever the key packs to; for a key that packs and decodes it verifies exactly when both sides' limbs of R pack alike, and always outside the window |
| `Membership.Certificate.SetQualifier` | zto/node/CertificateOfMembership.cpp:27-46 | keeps the sorted listing of a map of at most eight ids, updated at the id unless full, and drops the signer |
| `Membership.Certificate.ForMember` | zto/node/CertificateOfMembership.hpp:122-135 | the three required tuples |
| `Membership.Certificate.AgreesWith` | zto/node/CertificateOfMembership.cpp:154-188 | true exactly when the id scan succeeds and the values agree position by position in the other one's slots, within its tuples if sorted |
| `Membership.Certificate.Scan` | zto/node/CertificateOfMembership.cpp:156-187 | compares slot j of the other one exactly when the first j + 1 ids are found and the first j values agree |
| `Membership.EmbedsIffContained` | zto/node/CertificateOfMembership.cpp:162-174 | between ordered lists, repeated ids included, the scan succeeds exactly when every id is present |
| `Membership.NoSlotBeyond` | zto/node/CertificateOfMembership.cpp:176-182 | a certificate without repeated ids reads no slot beyond the other one's tuples, whatever that one holds |
| `Membership.FoundBeyondIff` | zto/node/CertificateOfMembership.cpp:162-182 | between ordered lists a slot beyond can be reached exactly when the first n + 1 ids all occur among the other's n, and only with a repeated id |
| `Membership.RepeatReadsBeyond` | zto/node/CertificateOfMembership.cpp:180 | two equal ids against one: the documented relation holds and a slot that is no tuple decides the answer |
| `Membership.InPlaceDecides` | zto/node/CertificateOfMembership.cpp:154-188 | with each id of mine at its own position of the other's list and nowhere else, the code decides the documented relation |
| `Membership.PlaceNeeded` | zto/node/CertificateOfMembership.cpp:180 | for all contained ids not so placed there are values on which the code denies what is documented |
| `Membership.AgreesIffInPlace` | zto/node/CertificateOfMembership.cpp:154-188 | for all ids `deserialize` accepts, the code decides the documented relation for all values exactly when the ids are so placed or one is missing |
| `Membership.InPlaceIffPrefix` | zto/node/CertificateOfMembership.cpp:168-180 | for lists without repeated ids that is to be a prefix |
| `Membership.RequiredAgreement` | zto/node/CertificateOfMembership.hpp:122-135 | controller-made certificates agree exactly within one network and the first one's timestamp delta |
| `MembershipCodec.Serialize` | zto/node/CertificateOfMembership.hpp:268-280 | appends the wire form of any certificate, with its signature if it has a signer, or fails when it does not fit |
| `MembershipCodec.Deserialize` | zto/node/CertificateOfMembership.hpp:283-320 | fills the certificate exactly as the format reads, or fails |
| `MembershipCodec.InOrderIffOrdered` | zto/node/CertificateOfMembership.hpp:294-310 | the order checked between neighbours is the order of all ids |
| `MembershipCodec.CertificateRoundTrip` | zto/node/CertificateOfMembership.hpp:267-320 | every certificate of at most eight tuples with ids in order is reproduced at any offset, whatever follows |
| `MembershipCodec.CertificateReadIff` | zto/node/CertificateOfMembership.hpp:267-320 | the format is canonical: a certificate is read exactly where its own bytes stand and it has at most eight tuples with ids in order |
| `MembershipSigning.Sign` | zto/node/CertificateOfMembership.cpp:190-208 | signs the tuples as they go over the wire, or leaves the certificate without signer |
| `MembershipSigning.Verify` | zto/node/CertificateOfMembership.cpp:210-229 | 0, 1 or -1 by signer, controller of the network named inside, and signature |
| `MembershipSigning.VerdictIff` | zto/node/CertificateOfMembership.cpp:210-229 | exactly when a certificate verifies and when its signer is asked for, by the address its network id begins with |
| `MembershipSigning.Reserved` | zto/node/CertificateOfMembership.hpp:163-194 | timestamp, delta, network and holder as the accessors find them |
| `MembershipSigning.ValueInMap` | zto/node/CertificateOfMembership.hpp:163-194 | looking up an id in a sorted listing gives the value of the map listed, and zeros without one |
| `MembershipSigning.RequiredSays` | zto/node/CertificateOfMembership.hpp:122-135 | the certificate of a member names its timestamp, delta, network and holder |
| `Identities.ControllerOf` | zto/node/Network.hpp:71 | the controller is the 40-bit address a network id begins with |
| `MembershipSigning.SignedBytesInjective` | zto/node/CertificateOfMembership.cpp:190-198 | the signed bytes determine the tuples |
| `MembershipSigning.VerifiedIsGenuine` | zto/node/CertificateOfMembership.cpp:190-229 | a verified certificate carries exactly the tuples that its signature binds to |
| `Identities.BindingIsPossible` | zto/node/CertificateOfMembership.cpp:190-229 | signatures can all verify and one still bind to its message |
| `MembershipSigning.IssueAndVerify` | zto/controller/EmbeddedNetworkController.cpp:1743-1749 | a certificate issued, signed, serialised and read on the other side verifies there, whenever the controller is known |
| `Buffers.Buffer.Append` | zto/node/Buffer.hpp:281-289 | appends, or fails and changes nothing when the capacity would be exceeded |
| `Buffers.ReadBack` | zto/node/Buffer.hpp:215-259 | an integer written in n big-endian bytes is read back |
| `Buffers.BigByte` | zto/node/Buffer.hpp:215-259 | byte i of n is digit n - 1 - i of the number in base 256: network byte order |
| `Buffers.WrittenSpells` | zto/node/Buffer.hpp:215-259 | where an integer is written it stands in network byte order |
| `WireLayout.RuleLayout` | zto/node/Capability.hpp:167-272 | type, length and every field of a rule of each type at its byte offset and in network byte order |
| `WireLayout.RulesLayout` | zto/node/Capability.hpp:167-272 | rules stand one behind the other by their declared lengths |
| `WireLayout.CertificateLayout` | zto/node/CertificateOfMembership.hpp:268-280 | version, count, tuples, signer and signature of a certificate at their byte offsets |
| `WireLayout.CapabilityLayout` | zto/node/Capability.hpp:365-397 | all fields and chain entries of a capability at their byte offsets |
| `WireLayout.SignedLayout` | zto/node/Capability.hpp:365-397 | the bytes signed are all fields but the chain, between two guards |
| `RuleCodec.SerializeRules` | zto/node/Capability.hpp:167-272 | appends all rules, or fails when they do not fit |
| `RuleCodec.DeserializeRules` | zto/node/Capability.hpp:275-362 | reads as many rules as asked for or present |
| `RuleCodec.RuleBack` | zto/node/Capability.hpp:167-362 | a rule of every type is read back with all typed fields, ending right behind it |
| `RuleCodec.RulesBack` | zto/node/Capability.hpp:167-362 | rules in a row are all read back, whatever follows |
| `RuleCodec.RulesLaidOut` | zto/node/Capability.hpp:275-360 | on arbitrary input each rule is read at its own offset, the end is the start plus all declared lengths, and reading stops only at the count or the end of the data |
| `RuleCodec.RulesFailIff` | zto/node/Capability.hpp:275-360 | reading fails exactly when one of the rules asked for begins before the end of the data and is cut off |
| `Capabilities.CapabilityObject.constructor` | zto/node/Capability.hpp:77-87 | chain length clamped to 1..7, rules cut at 64, empty chain |
| `Capabilities.CapabilityObject.IssuedTo` | zto/node/Capability.hpp:117-126 | the last recipient before the first empty entry |
| `Capabilities.CapabilityObject.Sign` | zto/node/Capability.hpp:141-156 | fills the first empty entry with both parties and a signature over the fields, without a secret with no new signature, and nothing when there is no room |
| `Capabilities.CapabilityObject.Serialize` | zto/node/Capability.hpp:365-397 | appends the wire form with the filled prefix of the chain, or fails when it does not fit |
| `Capabilities.CapabilityObject.Deserialize` | zto/node/Capability.hpp:400-442 | fills all fields and the chain exactly as the format reads, or fails |
| `Capabilities.CapabilityRoundTrip` | zto/node/Capability.hpp:363-442 | every well-formed capability is reproduced at any offset, whatever follows, consuming exactly its bytes |
| `Capabilities.CapabilityObject.Verify` | zto/node/Capability.cpp:28-63 | 0, 1 or -1 as the entries are checked in order |
| `Capabilities.VerifiedIffUnbroken` | zto/node/Capability.cpp:28-63 | 0 exactly for chains that start at the controller, link holder to holder, verify, and whose givers are all known |
| `Capabilities.AwaitsIff` | zto/node/Capability.cpp:28-63 | 1 exactly when all is in order up to an entry by the right giver, who is not known |
| `Capabilities.SignedBytesInjective` | zto/node/Capability.hpp:141-156 | the signed bytes determine network, timestamp, id, rules and chain length |
| `Capabilities.VerifiedIsGenuine` | zto/node/Capability.cpp:28-63 | a verified capability carries exactly the fields that any signature of its chain binds to, and was first given by the controller of its network |
| `Capabilities.TamperedFails` | zto/node/Capability.cpp:28-63 | with any field changed after it was handed on it does not verify |
| `Capabilities.HandedVerifies` | zto/node/Capability.hpp:117-156 | every chain of hand-offs up to the maximum length verifies and is issued to its last recipient |
| `Capabilities.HandAround` | zto/node/Capability.hpp:117-156 | signing a new capability on from recipient to recipient builds that chain, fails exactly when the room is used up, and what was built verifies |
| `RuleJson.CodesInOrder` | zto/include/ZeroTierOne.h:548-618 | the code of every name is its place in the enumeration |
| `RuleJson.NamesInOrder` | zto/controller/EmbeddedNetworkController.cpp:69-245 | every code is rendered under the name at its place, and the others not at all |
| `RuleJson.JsonReads` | zto/osdep/OSUtils.cpp:433-485 | how numbers, booleans, text and missing values read as each other, for inputs the renderer never writes too |
| `RuleJson.RenderedFlags` | zto/controller/EmbeddedNetworkController.cpp:69-245 | which types are rendered, and NOT and OR from the two top bits of the type, for matches only |
| `RuleJson.LawfulIsPossible` | zto/controller/EmbeddedNetworkController.cpp:69-432 | text helpers with the laws required of them exist |
| `RuleJson.ParsedIsWellFormed` | zto/controller/EmbeddedNetworkController.cpp:247-432 | every accepted rule has the fields of its type within the widths of the wire format |
| `RuleJson.RenderThenParse` | zto/controller/EmbeddedNetworkController.cpp:69-432 | the rendering of an accepted rule parses to it, up to NOT and OR on actions, and renders the same again |
| `RuleJson.RuleSurvives` | zto/controller/EmbeddedNetworkController.cpp:69-432 | an accepted rule passes unchanged through the wire format |
| `FlowFilter.Ipv6GetPayload` | zto/node/Network.cpp:122-148 | the position and protocol of the payload of an IPv6 packet, or none |
| `FilterLaws.PayloadIff` | zto/node/Network.cpp:122-148 | it is found exactly at the end of a chain of extension headers, each announcing the next, inside the packet |
| `FlowFilter.Filter` | zto/node/Network.cpp:158-672 | outcome and copy of one rule set for one frame, rule by rule with its skipped tests, as the decision block by block |
| `FilterLaws.FoldIff` | zto/node/Network.cpp:665-668 | a block matches exactly when the default or some OR holds and all ANDs after it do |
| `FilterLaws.ConjunctionIff` | zto/node/Network.cpp:665-668 | without OR a block is the conjunction of its tests |
| `FilterLaws.OrsAlwaysHold` | zto/node/Network.cpp:185-187 | a block of ORs only always matches |
| `FilterLaws.InARow` | zto/node/Network.cpp:158-672 | rules behind others decide exactly what those leave undecided |
| `FilterLaws.LastWord` | zto/node/Network.cpp:196-208 | a last DROP or ACCEPT without tests decides what is undecided before it |
| `FilterLaws.BreakEnds` | zto/node/Network.cpp:254-259 | a BREAK that is reached ends the rule set without a match, whatever follows |
| `FilterLaws.IdleSkipped` | zto/node/Network.cpp:261-267 | an unknown action does nothing |
| `FilterLaws.PassedOverIff` | zto/node/Network.cpp:269-292 | behind a forward whose tests fail, acceptance is in spite of addressing exactly for what came in and was to be forwarded to this node |
| `FilterLaws.SuperNeedsTarget` | zto/node/Network.cpp:209-292 | only a forward to this node makes it accept in spite of addressing |
| `FilterLaws.Reception` | zto/node/Network.cpp:876-968 | how each verdict is reported, which leave the frame to the capabilities, which refuse it, and how it is received |
| `FilterLaws.FilterPacket` | zto/node/Network.cpp:740-968 | base rules first, then the first capability that does not refuse, with exactly the copies to send and the destination of what is redirected |
| `FilterLaws.FrameDecides` | zto/node/Network.cpp:552-565 | unless an IPv4 TCP header is cut off nothing but frame and rules decides |
| `FilterLaws.CutDecides` | zto/node/Network.cpp:552-555 | if it is, some rules decide by the memory behind the frame |
| `FrameFormats.SeesIpv4` | zto/node/Network.cpp:334-402 | from a packet laid out as in RFC 791 the engine reads its type of service, protocol, addresses and payload, whatever the options |
| `FrameFormats.SeesIpv6` | zto/node/Network.cpp:352-402 | the same for RFC 8200, behind any chain of extension headers |
| `FrameFormats.SeesPorts` | zto/node/Network.cpp:458-506 | source and destination port of TCP, UDP, SCTP and UDP-Lite, and of nothing else |
| `FrameFormats.SeesIcmp` | zto/node/Network.cpp:407-456 | type and code of ICMP messages of the packet's own family |
| `FrameFormats.SeesFlags` | zto/node/Network.cpp:552-564 | the twelve flag bits of a TCP header |
| `FrameFormats.SenderOfIpv4` | zto/node/Network.cpp:513-515 | the source address |
| `FrameFormats.SenderOfIpv6` | zto/node/Network.cpp:513-532 | the source address, except for neighbour discovery |
| `FrameFormats.SenderOfArp` | zto/node/Network.cpp:532-534 | the sender protocol address |
| `FrameFormats.AuthenticatedIff` | zto/node/Network.cpp:511-550 | a frame is authenticated exactly by the certificates of its sender, or as a neighbour solicitation |
| `FrameFormats.MacKinds` | zto/node/Network.cpp:509-510 | broadcast is all ones and multicast bit 40 of the 48-bit number |
| `FrameFormats.ForwardIff` | zto/node/Network.cpp:209-252 | exactly when a forward is taken, redirects, is accepted here or makes a copy, and how long that is |
| `Bits.AndBit` | zto/node/Network.cpp:565 | conjunction bit by bit |
| `Bits.OrBit` | zto/node/Network.cpp:589-600 | disjunction bit by bit |
| `Bits.XorBit` | zto/node/Network.cpp:589-600 | exclusive disjunction bit by bit |
| `RuleMeaning.Contains4Iff` | zto/node/InetAddress.cpp:286-291 | an address is contained exactly when it begins with the bits of the network |
| `RuleMeaning.Contains6Iff` | zto/node/InetAddress.cpp:292-302 | the same, and only if the rule's own address has no bits behind the netmask |
| `RuleMeaning.TraitBit` | zto/include/ZeroTierOne.h:190-270 | the number compared with a mask has exactly the documented characteristics as its bits |
| `RuleMeaning.MaskMatchesIff` | zto/node/Network.cpp:507-567 | a characteristics mask matches exactly frames with one of the characteristics it names |
| `RuleMeaning.MatchMeans` | zto/node/Network.cpp:300-663 | the engine evaluates every parsed match as its name and fields say |
| `RuleMeaning.EntryMeans` | zto/controller/EmbeddedNetworkController.cpp:247-432 | so it does with NOT, OR and every action |
| `RuleMeaning.RuleSetMeans` | zto/controller/EmbeddedNetworkController.cpp:247-432 | JSON rules parsed, sent, read back and run decide every frame as their names and fields say |
| `RuleMeaning.LastNameDecides` | zto/controller/EmbeddedNetworkController.cpp:262-266 | an ACTION_DROP or ACTION_ACCEPT at the end drops or accepts what the rest leaves undecided |
| `IpAllocation.AssignV4` | zto/controller/EmbeddedNetworkController.cpp:1678-1732 | the first acceptable trial address over the pools in order, counters wrapping |
| `IpAllocation.FromPools4Sound` | zto/controller/EmbeddedNetworkController.cpp:1678-1732 | an assigned IPv4 address is inside a usable pool and not its last unless the only one, routed, free and does not end in .255 |
| `IpAllocation.FromPools4Complete` | zto/controller/EmbeddedNetworkController.cpp:1678-1732 | if nothing is assigned, no small pool, of however many, holds an acceptable address, unless the counter wraps |
| `IpAllocation.PickedFrom` | zto/controller/EmbeddedNetworkController.cpp:1678-1690 | an address counts as from a pool only between start and end of an IPv4 pool with a nonzero start |
| `IpAllocation.MaskedBits` | zto/controller/EmbeddedNetworkController.cpp:1701-1710 | a masked address keeps its first bits and clears the others |
| `IpAllocation.Search4Complete` | zto/controller/EmbeddedNetworkController.cpp:1691-1698 | a vain search has tried every address but the last, unless the counter wraps or 1000 trials are too few |
| `IpAllocation.AssignV6` | zto/controller/EmbeddedNetworkController.cpp:1617-1676 | the first acceptable trial address over the pools in order |
| `IpAllocation.FromPools6Sound` | zto/controller/EmbeddedNetworkController.cpp:1617-1676 | an assigned IPv6 address is inside a pool, locally routed and free |
| `IpAllocation.Trial6Range` | zto/controller/EmbeddedNetworkController.cpp:1634-1650 | as a 128-bit number a trial is at or after the start, and before the end exactly for pools not upside down |
| `Controller.EmbeddedController.MemberInfo` | zto/controller/EmbeddedNetworkController.cpp:1760-1819 | the cached summary for under a second, else a fresh one, and it is cached |
| `Controller.EmbeddedController.Summarise` | zto/controller/EmbeddedNetworkController.cpp:1775-1812 | all addresses of authorised members and the latest de-authorisation of the others |
| `Controller.EmbeddedController.Request` | zto/controller/EmbeddedNetworkController.cpp:1224-1758 | rate limit, identity check, authorisation, credential delta, IP assignment and cache, as one step on the state |
| `Controller.EmbeddedController.PostAuthorized` | zto/controller/EmbeddedNetworkController.cpp:654-679 | a changed flag is stamped and recorded; de-authorising drops the cached summary |
| `ControllerRuns.UniqueAddresses` | zto/controller/EmbeddedNetworkController.cpp:1617-1819 | in every run whose edits only authorise, addresses are pairwise distinct, in a pool, routed, and none is hidden by the cache |
| `ControllerRuns.DeltaExcludes` | zto/controller/EmbeddedNetworkController.cpp:1412-1423 | the delta falls short of the time since a de-authorisation exactly unless another falls in this millisecond |
| `WitnessRuns.SameMillisecond` | zto/controller/EmbeddedNetworkController.cpp:1412-1423 | a run in which that case lets a member back in that was de-authorised long before |
| `Admission.DeltaBounds` | zto/controller/EmbeddedNetworkController.cpp:1412-1423 | every delta is between three minutes and two hours, and two hours again some time after the last de-authorisation |
| `Admission.IssuedAgreeIff` | zto/controller/EmbeddedNetworkController.cpp:1412-1423 | exactly when two certificates issued in a run agree |
| `Admission.CloseAgree` | zto/controller/EmbeddedNetworkController.cpp:1412-1423 | in every run certificates issued within three minutes agree |
| `Admission.UndisturbedAgree` | zto/controller/EmbeddedNetworkController.cpp:1412-1423 | with nobody de-authorised, exactly those of the last two hours do |
| `Admission.AdmittedIff` | zto/controller/EmbeddedNetworkController.cpp:1236-1402 | who is sent a configuration, who is denied and who is ignored |
| `Admission.AuthorisedAfter` | zto/controller/EmbeddedNetworkController.cpp:1290-1362 | who is on record as authorised afterwards |
| `Admission.AdmittedIffLetIn` | zto/controller/EmbeddedNetworkController.cpp:1290-1402 | in every run of a private network whoever is heard is sent one exactly if it brings a token or the last word on it let it in |
| `Admission.AuthorisedIffLetIn` | zto/controller/EmbeddedNetworkController.cpp:654-679 | there a member is on record as authorised exactly then |
| `Admission.FlagStamped` | zto/controller/EmbeddedNetworkController.cpp:654-679 | turning the flag, by an edit or a request, stamps the time of that kind only and counts one event |
| `Admission.IssuedToAsker` | zto/controller/EmbeddedNetworkController.cpp:1743-1745 | the certificate sent names the time, the network and the asker |
| `Admission.RequestsSpaced` | zto/controller/EmbeddedNetworkController.cpp:1236-1242 | in every run the requests served to one address are more than a second apart |
| `Admission.OneIdentity` | zto/controller/EmbeddedNetworkController.cpp:1264-1284 | in every run an address is served only under the identity it was first heard under, even if denied then |
| `Admission.SummaryAge` | zto/controller/EmbeddedNetworkController.cpp:1760-1773 | a summary is used for less than a second after it was made |
| `Admission.NeverAssigned` | zto/controller/EmbeddedNetworkController.cpp:1617-1732 | a member excluded from automatic assignment gets no address |
| `Admission.NewMember` | zto/controller/EmbeddedNetworkController.cpp:1260-1262 | whoever is not on record has no identity, history or addresses, and may be assigned some |
| `ControllerRuns.DeauthorisedExcluded` | zto/controller/EmbeddedNetworkController.cpp:1394-1743 | in every run of a private network, the comparison of later certificates rejects all that a de-authorised member ever got |
| `Allocations.ManagedIff` | zto/controller/EmbeddedNetworkController.cpp:1583-1732 | assigned addresses count against the next assignment, for all members and states, exactly when every assignable IPv4 address is under a local route |
| `Allocations.LocalRoutesSuffice` | zto/controller/EmbeddedNetworkController.cpp:1588-1732 | with only local IPv4 routes of nonzero netmask they are |
| `Allocations.AtMostOne` | zto/controller/EmbeddedNetworkController.cpp:1580-1732 | in every run each member gets at most one IPv6 address, and at most one IPv4 address in such networks |
| `Allocations.RepeatAddsNothing` | zto/controller/EmbeddedNetworkController.cpp:1580-1732 | in such runs a member that holds an address of a family is assigned no other |
| `WitnessRuns.SecondAddress` | zto/controller/EmbeddedNetworkController.cpp:1701-1715 | a run in which a member under a gateway route is assigned a second IPv4 address |
| `SharedAddresses.DistinctRunsIff` | zto/controller/EmbeddedNetworkController.cpp:1617-1819 | addresses are distinct after every run, and equally those of authorised members, exactly in networks where no IPv4 address can be assigned and no IPv6 address to two members |
| `Reachability.ReachesIff` | zto/controller/EmbeddedNetworkController.cpp:1617-1676 | the IPv6 addresses a member can be assigned, for some random draws, from pools, routes and member address |
| `Allocations.DistinctStepIff` | zto/controller/EmbeddedNetworkController.cpp:1580-1758 | a granted request keeps addresses distinct exactly when none of those picked from its summary is held |
| `WitnessRuns.SharedAddress` | zto/controller/EmbeddedNetworkController.cpp:1775-1812 | a run in which a member that was de-authorised and authorised again shares its address |
| `JsonDb.PathInjective` | zto/controller/JSONDB.cpp:163-182 | names without empty components have paths of their own |
| `JsonDb.OwnFileIffClean` | zto/controller/JSONDB.cpp:163-182 | a name has a file that no other clean name has exactly when it has no empty components |
| `JsonDb.RecordNames` | zto/controller/JSONDB.cpp:149-182 | the names of networks and members are valid and have the expected paths |
| `JsonDb.RefusedNames` | zto/controller/JSONDB.cpp:149-161 | valid names hold no dots, backslashes, colons or spaces |
| `JsonDb.Store.Put` | zto/controller/JSONDB.cpp:41-60 | every name with that path has the new contents, the other files and cache entries are untouched, or nothing happens on failure; no stale entry passes for current afterwards exactly when the time is new to the other entries for the path |
| `JsonDb.Store.Get` | zto/controller/JSONDB.cpp:62-114 | the answer and the entry from cache or file by age, time and readability; the plain map's value while all entries mirror their files; never makes a stale entry pass for current |
| `JsonDb.Store.AnswerFromCache` | zto/controller/JSONDB.cpp:66-92 | when the cached object answers: within the age limit, and past it while the file has its time or cannot be used |
| `JsonDb.Store.AnswerFromFile` | zto/controller/JSONDB.cpp:66-114 | when the file answers, and when the answer is the empty object |
| `JsonDb.Store.TrackedAnswer` | zto/controller/JSONDB.cpp:62-114 | while no stale entry passes for current, the answer past the age limit is the file's contents, whoever wrote it, unless they do not parse and the entry differs |
| `JsonDb.Store.WrittenTracks` | zto/controller/JSONDB.cpp:66-92 | writing a file keeps that so exactly when its time is new to the entries for its path |
| `JsonDb.Store.WriteRaw` | zto/controller/JSONDB.cpp:25-39 | writes the file past the cache, or nothing on failure; the same condition on its time |
| `JsonDb.Store.Erase` | zto/controller/JSONDB.cpp:116-127 | every name with that path loses its contents and nothing else changes |
| `JsonDb.Store.Reload` | zto/controller/JSONDB.cpp:129-147 | whatever was cached, exactly the valid clean names with a file are cached, each mirroring it as of now |
| `JsonDb.LessEqIff` | zto/controller/JSONDB.hpp:83-91 | the order of names is that of their first different byte, prefixes first |
| `JsonDb.PrefixContiguous` | zto/controller/JSONDB.hpp:83-91 | in sorted order nothing without the prefix lies between it and a name with it |
| `JsonDb.Store.Filter` | zto/controller/JSONDB.hpp:80-92 | in any state, visits exactly the cached names with the prefix in ascending byte order, shows each its answer from the files then left, and removes exactly the rejected ones; the plain map's values while all entries mirror their files |

## Left out

- The proof that the Edwards and Montgomery formulas are group laws, and the primality of p: taken as hypotheses.
- The 425 entries of the table of base multiples and the limbs of the base point: taken as a contract.
- SHA-512, random numbers, key generation and constant-time behaviour.
- `C25519::agree` and the identity of the ladder with scalar multiplication on the curve: the ladder is compared with RFC 7748.
- Points are values and not structures updated in place, so aliasing of point arguments is not captured; field elements and scalars are arrays.
- Window3: drops bit 255 of scalars that exceed it, as the code does.
- Request: leaves out rules, capabilities, tags, bridges, certificates of ownership and logs in the configuration sent, the 16-address limit on it, and the expiry and use limits of tokens.
- PostAuthorized: models the authorisation flag only, not the other fields of a member POST and not the sending of revocations.
- Summarise: leaves out the member counts and the active bridges.
- A zero-length IPv4 route is an undefined shift in C and is modelled as an empty mask; longer masks than the address are no route.
- IP assignments are parsed addresses; text that parses to no address is left out.
- RuleJson: keys and type names are constructors, not text, and an ill-typed characteristics mask is a rejection, not an exception.
- Rule netmasks longer than the address are undefined shifts in C and are modelled as matching nothing.
- FilterPacket: leaves out the sending itself, the lookup of capabilities and tags by member, and the flag that suppresses copies.
- Text formats of certificates, certificates of ownership and representation, revocations, HTTP handling, threads and locks.
- The socket interception layer, the network stacks and the service: system calls over code that is not part of this model.
