# Verified model of the wallet's cryptographic core

Dafny proofs about the algorithmic core of a CryptoNote wallet: the curve and scalar arithmetic, the ring signatures
and stealth outputs built on it, the lopsided Merkle tree, the text codecs, the in-place permutation and the thread
pool. Each module follows one part of the program, and code that updates its variables step by step is a method over
arrays and limb vectors with the same steps, branches and constants. `dafny verify dfyconfig.toml` checks everything.

## How the proofs fit together

**Scalars** (`ScalarLimbs`, `Scalars`, `ScalarOps`, `ScalarChecks`, `ScalarValues`). A buffer of 32 or 64 bytes is
read as radix-2^21 limbs with the same little-endian value. Every rounded or floored carry keeps that value, every
fold keeps it modulo l, and each step carries the limb bounds that make its int64 arithmetic safe. Before the last
fold the top limb is always -1 or 0, so one fold makes the result canonical. l is that of section 5.1 of RFC 8032.

**Field elements and points** (`FieldElements`, `FieldProducts`, `CurvePoints`, `FieldBytes`). The columns of a
radix-2^25.5 product are proved equal to the product minus a multiple of p, and the carries keep the value modulo p
with int32 and int64 bounds at every step. The bounds every point representation keeps are exactly those the next
operation needs, so no operation is ever handed a limb its multiplication cannot take. The formulas are proved to be
the addition law of section 5.1.4 of RFC 8032, and to keep denominators invertible modulo p, so that a representation
determines its point. Storing writes the one representative below p, in 32-bit shifts one of which can wrap; loading
rejects exactly y >= p (section 5.1.3) and storing gives back what was loaded.

**Scalar multiplication** (`SlidingWindow`, `Radix16`, `Groups`, `ScalarMult`, `WindowedMult`, `PointLoops`). The
recoders are characterised by unique digit forms: a width-5 non-adjacent form and a signed radix-16 form. Over any
abelian group the loops that consume the digits return the sum of multiples they are named for. `PointLoops` runs one
of them with the limb operations inside: on a group that is the curve under its complete addition law, the limbs stay
within bounds at every step and stand for the sum the abstract loop returns.

**Keys, signatures and outputs** (`Curves`, `Keys`, `RingSignatures`, `Transcripts`, `OutputBuilding`,
`OutputReceiving`, `HashInputs`, `StealthOutputs`, `PaymentIds`, `Premises`, `Witnesses`). The ring signature check
accepts exactly the signatures that satisfy the verification equation, and what the generator writes satisfies it.
`Transcripts` says which string the challenges answer, byte by byte, so that a signature accepted twice for different
things yields a collision of the hash. Every output built for an address is recognised by the owner, whose derived
secret key belongs to the output; `StealthOutputs.SpendOutput` joins the two: building an output, recognising it,
deriving its key and signing with it ends in an accepted signature. `HashInputs` pins what every scalar, tag and
subaddress secret is the hash of, and from it that the outputs of a transaction have different keys.

**Merkle tree** (`MerkleTrees`). The recursive root over halves is the reference; the level-by-level overwriting, the
paths, the branches and their verification are all proved against it, and a verified branch either consists of its
leaf and siblings or exhibits two pairs the hash cannot tell apart.

**Codecs** (`Base58`, `Varints`, `Addresses`, `ElectrumWords`, `SeedChecksums`, `Amounts`). Bijections with their exact
acceptance conditions, including the wraparound tests they depend on, and what the checksums of addresses and seeds
catch.

**Permutation and pool** (`Permutations`, `ThreadPool`, `PoolBounds`, `PoolSchedule`, `PoolProgress`). The cycle walk
with its measure of unsettled positions; the pool as a state machine over the stretches of code between lock
operations, with an invariant over every interleaving, a bound on the jobs run at once that is reached for every size
of the pool, the order in which jobs start and where they run, and what keeps waits from getting stuck.

`Arithmetic` and `ByteStrings` hold the shared integer facts, and `Wrappers` an option type.

## Premises

Points are elements of an abstract group. `Curves.Lawful` lists all that is assumed of it: the group is abelian, the
two tables of the base point hold the multiples they are documented to hold, l times the base point and l times every
hashed point are zero, and decoding an encoded point gives the point. Where different scalars must give different
points, `Curves.Generates` also asks that l is the order of the base point. `Premises.PremisesHold` shows that these
premises are met together by the integers modulo l. Hashes are uninterpreted functions; what depends on them is stated
as a collision that the proof returns. Random scalars, the sort that produces
an input order, and memory contents before use are parameters.

An owner's table of spend keys is honest (`OutputReceiving.HonestTable`), and change goes to the sender.
`PointLoops.Charts` is the premise that a group is the curve under its addition law.

## Where the code differs from its comments and purpose

- `ge_p2_dbl` hands `fe_sub` values above the 1.1\*2^25 its comment asks for (crypto/crypto-ops.c:948-960). They stay
  within what `fe_mul` takes afterwards, which is what `CurvePoints.GeP2Dbl` proves; X = Y = 5760 is an input that
  takes it there (`CurvePoints.DoublingExceedsComment`).
- `slide` drops a carry out of bit 255 (crypto/crypto-ops.c:1160-1166). The digits stand for the scalar if and only if
  taking nearest residues modulo 32 off it leaves nothing after 256 positions (`SlidingWindow.Fits`, a test on the
  scalar alone, which holds exactly when a width-5 form of 256 digits exists), and otherwise for the scalar minus 2^256
  (`SlidingWindow.Slide`). A clear top bit suffices to fit, and no scalar with its five top bits set fits
  (`SlidingWindow.HighBitsLoseCarry`).
- The two `_p3` multi-scalar routines leave their result unwritten exactly when both scalars are zero
  (crypto/crypto-ops.c:1302-1329, crypto/crypto-ops.c:2264-2292).
- The shift `h4 << 6` of `fe_tobytes` (crypto/crypto-ops.c:1102) reaches 2^32 - 64 and so leaves the signed 32-bit
  range, exactly when bit 127 of the stored value is set (`FieldBytes.ShiftsThatWrap`); 2^127 is such a value
  (`FieldBytes.ShiftCanWrap`). No other shift does. The wrapped result has the right low byte, which is all that is
  stored.
- `tree_hash_cnt` gives the largest power of two strictly below the count, which is 1 << floor(log2(count)), as its
  comment says, exactly when the count is no power of two (`MerkleTrees.CountIsFloorOfLog`).
- `read_varint` returns a positive count for an input that ends inside a number (common/varint.h:98-100), so
  `decode_addr` accepts payloads no encoder writes. An accepted address is the one written for its result exactly when
  some byte of its payload is below 128 (`Addresses.AcceptedIsWritten`); 0x80 alone is accepted and not written
  (`Addresses.CutTagAccepted`).
- The result of `generate_output_ephemeral_keys` is ignored by its caller
  (cryptonote_core/cryptonote_tx_utils.cpp:304-307), so a transaction can be constructed with an output whose key was
  never derived. `OutputBuilding.KeyPresent` says exactly which outputs have a key, `OutputBuilding.KeyLeftOut` gives
  the accepted transactions with a standard destination and none, and `Witnesses.ConstructedWithoutKey` one of them.
- An address that occurs among the destinations with both subaddress flags can be classified one way and derived the
  other. Recognition is proved for destinations the published keys suit (`StealthOutputs.Served`), which agreeing flags
  imply (`StealthOutputs.AgreeingFlagsServe`). Otherwise owner and sender derive the same value only if two points have
  the same multiple (`StealthOutputs.MeetsExactly`), and `Witnesses.ConflictingFlagsLose` is an output that is lost.
- `words_to_bytes` promises to double half-length seeds, but compares with a wrong number of words and never does
  (mnemonics/electrum-words.cpp:338-345, `ElectrumWords.NeverDoubled`); for a secret key such seeds are refused, since
  exactly seeds of 24 and 25 words can be read (`ElectrumWords.KeyFromWords`).
- `submit` is meant to refuse the jobs marked as leaves (common/threadpool.cpp:86), but their thread's flag is reset by
  whichever job ends on it next. A job may submit exactly unless the last job its thread took or ended is a leaf job it
  took (`PoolSchedule.MaySubmit`): a leaf job whose wait ran another job to its end may
  (`PoolSchedule.LeafSubmitsAfterWait`).
- `active` may exceed `max` in the pool, since waiting threads run jobs too. It is at most the number of workers and of
  waits that still help, in every interleaving (`PoolBounds.ActiveBound`), so at most `max` while there is one such wait
  (`PoolBounds.ActiveWithinMax`); and for every `max` and number of waits a run reaches that bound
  (`PoolBounds.BoundIsReached`), `max + 1` with two (`PoolBounds.ActiveCanExceedMax`).

## Model

| member | source | states |
|---|---|---|
| ScalarLimbs.LoadLimbsValue | crypto/crypto-ops.c:2434-2445 | the twelve limbs cut out of a 32-byte string carry its little-endian value, top bits included |
| ScalarLimbs.LoadWideValue | crypto/crypto-ops.c:1729-1752 | the 24 limbs cut out of a 64-byte string carry its little-endian value |
| ScalarLimbs.StoreLimbsValue | crypto/crypto-ops.c:2514-2545 | the 32 stored bytes carry the value of twelve reduced limbs, the last of which may be 2^21 |
| Scalars.CarryRound | crypto/crypto-ops.c:2460-2472 | a rounded carry keeps the value, balances its limb and moves only what the next limb gains |
| Scalars.Carry | crypto/crypto-ops.c:2482-2493 | a floored carry keeps the value and leaves a digit in base 2^21 |
| Scalars.Fold | crypto/crypto-ops.c:1771-1776 | folding limb k into the six limbs from k - 12 keeps the value modulo l; at k = 12 it subtracts exactly l times the limb; bounds grow by what the limb allows |
| Scalars.SettleTop | crypto/crypto-ops.c:2460-2493 | before the last fold the top limb is -1 or 0 and the others are base 2^21 digits, for every input within the bounds |
| Scalars.Canonical | crypto/crypto-ops.c:2495-2512 | the last fold and carries leave the residue in [0, l) in storable digits |
| Scalars.Finish | crypto/crypto-ops.c:2460-2545 | the steps common to every scalar routine write the canonical residue modulo l of their limbs |
| Scalars.ReduceWide | crypto/crypto-ops.c:1771-1954 | two groups of folds with carries between them, then the common steps, take 24 balanced limbs to their canonical residue without int64 overflow |
| ScalarOps.ColumnsValue | crypto/crypto-ops.c:3241-3264 | the schoolbook columns over the first n rows have the value of the first n limbs of a times b |
| ScalarOps.Products | crypto/crypto-ops.c:3241-3264 | the 23 columns have the value of the product, are nonnegative and bounded |
| ScalarOps.ScMul | crypto/crypto-ops.c:3168-3475 | writes ab mod l in [0, l) over its first argument, for all 32-byte inputs and any overlap |
| ScalarOps.ScMulAdd | crypto/crypto-ops.c:3489-3808 | writes c + ab mod l, for all 32-byte inputs and any overlap |
| ScalarOps.ScMulSub | crypto/crypto-ops.c:2837-3156 | writes c - ab mod l, for all 32-byte inputs and any overlap |
| ScalarOps.ScAdd | crypto/crypto-ops.c:2548-2685 | writes a + b mod l, for all 32-byte inputs and any overlap |
| ScalarOps.ScSub | crypto/crypto-ops.c:2687-2824 | writes a - b mod l, for all 32-byte inputs and any overlap |
| ScalarOps.ScReduce32 | crypto/crypto-ops.c:2433-2546 | replaces 32 bytes by their residue modulo l |
| ScalarOps.ScReduce | crypto/crypto-ops.c:1728-1955 | replaces the first 32 of 64 bytes by the residue of all 64 and leaves the rest |
| ScalarChecks.ScCheckCanonical | crypto/crypto-ops.c:3810-3824 | the weighted signs of word differences shifted by 8 give 0 exactly on values below l, and -1 on all others |
| ScalarChecks.Less32 | crypto/crypto.cpp:111-121 | the byte comparison from the top decides the order of the little-endian values |
| ScalarChecks.ScIsNonzero | crypto/crypto-ops.c:3826-3831 | the or of all bytes less one, shifted by 8 and raised by one, is 1 exactly for nonzero values and else 0 |
| ScalarChecks.LimitValue | crypto/crypto.cpp:125-127 | the constant is 15 l, the highest multiple of l in 32 bytes |
| ScalarChecks.Random32Unbiased | crypto/crypto.cpp:123-137 | ends when a draw is below 15 l and no multiple of l, and leaves the residue, never zero, of the first such draw |
| ScalarChecks.FifteenDraws | crypto/crypto.cpp:125-127 | every nonzero residue comes from exactly fifteen of the draws kept, so none is favoured |
| FieldElements.FeAdd | crypto/crypto-ops.c:121-162 | limb sums have the sum of the values and of the bounds, within int32 |
| FieldElements.FeSub | crypto/crypto-ops.c:962-1003 | limb differences have the difference of the values and the sum of the bounds |
| FieldElements.FeNeg | crypto/crypto-ops.c:608-639 | negated limbs have the negated value and the same bounds |
| FieldElements.FeReduce | crypto/crypto-ops.c:541-593 | the twelve carries keep the value modulo p and end within 1.01\*2^25 and 1.01\*2^24 |
| FieldProducts.ColumnsValue | crypto/crypto-ops.c:399-522 | the columns over the first n rows, with their factors 2 and 19, are the product with the first n limbs minus p times what wrapped |
| FieldProducts.FeMul | crypto/crypto-ops.c:344-594 | congruent to fg modulo p and within the documented output bounds, for all inputs within the documented ones |
| FieldProducts.FeSq | crypto/crypto-ops.c:658-787 | the halved set of products gives the same columns, hence f^2 modulo p |
| FieldProducts.FeSq2 | crypto/crypto-ops.c:806-946 | doubled columns still fit in 64 bits and give 2 f^2 modulo p |
| CurvePoints.GeAdd | crypto/crypto-ops.c:1126-1139 | the completed sum keeps bounds its users accept and has the coordinates of the addition formulas |
| CurvePoints.GeSub | crypto/crypto-ops.c:1687-1700 | the same for the difference, with Z and T exchanged |
| CurvePoints.GeMadd | crypto/crypto-ops.c:1432-1444 | the same for an affine precomputed operand |
| CurvePoints.GeMsub | crypto/crypto-ops.c:1452-1464 | the same for the difference with an affine operand |
| CurvePoints.GeP2Dbl | crypto/crypto-ops.c:1505-1516 | doubling keeps the bounds although its last subtraction exceeds the commented ones, and has the coordinates of the doubling formulas |
| CurvePoints.AffineUnique | crypto/crypto-ops.c:1466-1476 | where Z is invertible, X determines its quotient by Z modulo p, so a representation has one affine point |
| CurvePoints.GeP1p1ToP2 | crypto/crypto-ops.c:1472-1476 | the projective form stands for the same affine point, its Z invertible, and is within the input bounds of every operation |
| CurvePoints.GeP1p1ToP3 | crypto/crypto-ops.c:1484-1489 | the extended form stands for the same affine point, product coordinate included |
| CurvePoints.GeP3ToCached | crypto/crypto-ops.c:1545-1550 | the cached form stands for the same affine point |
| CurvePoints.AdditionLaw | crypto/crypto-ops.c:1126-1139 | what ge_add computes is the sum of the affine points by the addition law, with invertible Z and T |
| CurvePoints.SubtractionLaw | crypto/crypto-ops.c:1687-1700 | what ge_sub computes is the sum with the negated point, with invertible Z and T |
| CurvePoints.AdditionLawAffine | crypto/crypto-ops.c:1432-1444 | what ge_madd computes is the sum of the affine points, with invertible Z and T |
| CurvePoints.SubtractionLawAffine | crypto/crypto-ops.c:1452-1464 | what ge_msub computes is the sum with the negated point, with invertible Z and T |
| CurvePoints.DoublingLaw | crypto/crypto-ops.c:1505-1516 | on the curve, what ge_p2_dbl computes is the sum of a point with itself, with invertible Z and T |
| CurvePoints.DoublingExceedsComment | crypto/crypto-ops.c:1505-1516 | for X = Y = 5760 the subtrahend exceeds 1.1\*2^25 whatever limbs the squares have |
| CurvePoints.MinusPrecomp | crypto/crypto-ops.c:1610-1628 | the sums exchanged and the product negated, as select does for negative digits, stand for the negated point |
| CurvePoints.MinusCached | crypto/crypto-ops.c:2070-2092 | the same for the cached points of ge_scalarmult |
| FieldBytes.FeQuotient | crypto/crypto-ops.c:1007-1065 | the estimate q is the exact floor of the value over p, for every storable limb vector |
| FieldBytes.FeToBytes | crypto/crypto-ops.c:1032-1122 | writes the unique representative in [0, p), its shifts in 32-bit arithmetic |
| FieldBytes.ShiftsThatWrap | crypto/crypto-ops.c:1090-1121 | of all shifts of the store only that of limb 4 leaves the signed range, exactly when bit 127 of the value is set |
| FieldBytes.ShiftCanWrap | crypto/crypto-ops.c:1102 | it does for 2^127, whose limbs are within the bounds of a product |
| FieldBytes.AllOnesIsTooLarge | crypto/crypto-ops.c:1363-1368 | the limb comparison holds exactly for encodings of y >= p |
| FieldBytes.FeFromBytes | crypto/crypto-ops.c:1341-1391 | refuses exactly y >= p; otherwise the carried limbs have value y modulo p and are within the bounds of every operation |
| FieldBytes.RoundTrip | crypto/crypto-ops.c:1341-1391 | storing an accepted y gives back its 255 bits, and the very bytes when the sign bit is clear |
| SlidingWindow.Slide | crypto/crypto-ops.c:1143-1173 | the in-place rewriting ends in a width-5 non-adjacent form of the scalar if the scalar fits, and of the scalar minus 2^256 otherwise; a clear top bit suffices to fit |
| SlidingWindow.NafUnique | crypto/crypto-ops.c:1143-1173 | a number has at most one non-adjacent form, so the digits are determined |
| SlidingWindow.FitsMeansForm | crypto/crypto-ops.c:1143-1173 | a number fits n digits exactly when some width-5 non-adjacent form of n digits has its value |
| SlidingWindow.TopBitCanBeLost | crypto/crypto-ops.c:1160-1166 | 17\*2^(n-5) is below 2^n and does not fit n digits: a carry out of the top is dropped |
| SlidingWindow.HighBitsLoseCarry | crypto/crypto-ops.c:1160-1166 | every 32-byte scalar whose top five bits are set slides to its value minus 2^256 |
| SlidingWindow.SlidZero | crypto/crypto-ops.c:1143-1173 | all digits are zero exactly for the zero scalar, lost carry or not |
| Radix16.RecodeNibbles | crypto/crypto-ops.c:1647-1662 | the carries over nibbles leave digits in -8..7 under a last one, with the value of the scalar |
| Radix16.RecodeBytes | crypto/crypto-ops.c:2045-2055 | so do the carries over bytes |
| Radix16.RecodedUnique | crypto/crypto-ops.c:2045-2055 | such digits are unique |
| Radix16.RecodersAgree | crypto/crypto-ops.c:1647-1662 | both recoders write the same 64 digits for every scalar |
| ScalarMult.DsmPrecomp | crypto/crypto-ops.c:1175-1187 | fills the table with the odd multiples 1, 3, .., 15 |
| ScalarMult.AddDigit | crypto/crypto-ops.c:1217-1231 | a digit indexes within the table and adds exactly its multiple |
| ScalarMult.DoubleLoop | crypto/crypto-ops.c:1208-1234 | from non-adjacent digits and odd tables the loop gives the sum of both multiples, skipped leading zeros included |
| ScalarMult.DoubleLoopP3 | crypto/crypto-ops.c:1300-1329 | the same, with the result written unless all digits are zero |
| ScalarMult.TripleLoop | crypto/crypto-ops.c:1250-1284 | the same for three scalars |
| ScalarMult.DoubleScalarmultBase | crypto/crypto-ops.c:1196-1235 | aA + bB for every point A and scalars with clear top bits; for all others, what slide makes of them in their place |
| ScalarMult.DoubleScalarmultBaseP3 | crypto/crypto-ops.c:1287-1330 | aA + bB, unwritten exactly for two zero scalars |
| ScalarMult.DoubleScalarmultPrecomp2 | crypto/crypto-ops.c:2162-2199 | aA + bB from two precomputed tables |
| ScalarMult.DoubleScalarmultPrecomp2P3 | crypto/crypto-ops.c:2251-2292 | the same, unwritten exactly for two zero scalars |
| ScalarMult.DoubleScalarmultPrecomp | crypto/crypto-ops.c:2294-2299 | aA + bB with one table made on the spot |
| ScalarMult.TripleScalarmult | crypto/crypto-ops.c:2202-2249 | aA + bB + cC from three tables, the first of them the base point's in the other variant |
| PointLoops.CachedTable | crypto/crypto-ops.c:1175-1187 | on limbs, the table holds cached representations of the odd multiples, within bounds |
| PointLoops.LimbLoop | crypto/crypto-ops.c:1208-1234 | with the limb operations inside, every step stays within bounds and the result stands for the sum the abstract loop returns |
| PointLoops.LimbDoubleScalarmultBase | crypto/crypto-ops.c:1196-1235 | from the limbs of A to limbs that stand for aA + bB |
| WindowedMult.Select | crypto/crypto-ops.c:1610-1628 | the constant-time lookup gives the digit's multiple, negative or zero digits included |
| WindowedMult.Scalarmult | crypto/crypto-ops.c:2038-2096 | a times the point for every scalar with a clear top bit |
| WindowedMult.ScalarmultBase | crypto/crypto-ops.c:1639-1679 | the odd digits, times sixteen, then the even ones, each in its row of the table, give a times the base point |
| RingSignatures.CheckRingSignature | crypto/crypto.cpp:370-410 | accepts exactly when image, keys and scalars are valid and the challenges sum to the hash of all recomputed commitments |
| RingSignatures.GenerateRingSignature | crypto/crypto.cpp:304-368 | for every ring, signer and draws: aborts exactly on an invalid image or other key, and otherwise, if key and image belong to the secret, writes a signature the check accepts |
| RingSignatures.ResponseCloses | crypto/crypto.cpp:363-365 | with r = k - c sec modulo l, both commitments computed from c and r are k times the point |
| Transcripts.AcceptedExactly | crypto/crypto.cpp:370-410 | the check accepts exactly when the scalars are canonical, keys and image are points, and the challenges add up to the hash of one string: the prefix, then cP + rB and rH(P) + cI of every member in ring order, at their places |
| Transcripts.OneChallenge | crypto/crypto.cpp:405 | every challenge counts in the sum, once |
| Transcripts.AnswersOne | crypto/crypto.cpp:407-409 | where the hash takes the sum of the challenges on one string only, an accepted signature's transcript is that string |
| Transcripts.SumsBind | crypto/crypto.cpp:407-409 | challenges of one sum accepted for two prefixes, images or rings have one transcript, or yield two transcripts the hash does not tell apart |
| Transcripts.PrefixBound | crypto/crypto.cpp:388-409 | a signature accepted for two prefixes yields two transcripts that collide |
| Transcripts.TwoAnswers | crypto/crypto.cpp:392-405 | two signatures with the same commitments give the key and the image one secret, to the difference of their challenges |
| Keys.Shared | crypto/crypto.cpp:190-203 | the two sides of a key exchange over any point derive the same value |
| Keys.DerivationInverse | crypto/crypto.cpp:217-262 | taking the derived scalar off a derived key gives the base key back |
| Keys.InverseDerivation | crypto/crypto.cpp:217-262 | deriving from what an output gives back leads to the output's point |
| Keys.DerivedPair | crypto/crypto.cpp:217-243 | the derived public key is the public key of the derived secret |
| Keys.SubaddressParts | device/device_default.cpp:163-177 | a subaddress is (aD, D) for a D whose secret is the spend secret plus the hashed index |
| Keys.SubaddressFormula | device/device_default.cpp:109-177 | index (0, 0) is the account's own address, any other (aD, D) for D the spend point plus the hashed index times the base point |
| Keys.SubaddressSpendKeys | device/device_default.cpp:125-161 | the batched loop lists for each minor index the key computed alone, or throws on a bad spend key or an empty range turned round |
| HashInputs.OnePair | crypto/crypto.cpp:205-215 | where the hash takes a scalar on one string only, that string is the derivation and the varint of the index, and no other pair has the scalar |
| HashInputs.ScalarsCollide | crypto/crypto.cpp:205-215 | two derivations or indices have one scalar exactly when their strings, which differ, collide |
| HashInputs.SubaddressInput | device/device_default.cpp:179-190 | a subaddress secret is the hash of the 48 bytes of the tag, the view secret and both indices at their places |
| HashInputs.SubaddressesCollide | device/device_default.cpp:179-190 | two accounts or indices have one subaddress secret exactly when two such strings collide |
| OutputBuilding.ClassifyAddresses | cryptonote_core/cryptonote_tx_utils.cpp:50-74 | counts distinct addresses other than change by the flag of their first occurrence and returns the last subaddress among these |
| OutputBuilding.TxPublicKey | cryptonote_core/cryptonote_tx_utils.cpp:268-292 | the transaction key is rD exactly when the only destination is a subaddress and rB otherwise; every destination but change then has the address D belongs to |
| OutputBuilding.GenerateOutputEphemeralKeys | device/device_default.cpp:267-323 | which derivation, additional key, amount key and view tag an output gets in each branch, and what is left unwritten when a step fails |
| OutputBuilding.ConstructOutputs | cryptonote_core/cryptonote_tx_utils.cpp:268-316 | succeeds exactly under a condition on the keys, amounts and additional keys it is given, and then every output, published key and amount key is as its destination asks |
| OutputBuilding.AmountKeysAligned | device/device_default.cpp:307-312 | from version 2 on, each output has its amount key at its own index when every derivation succeeds |
| OutputBuilding.NoAmountKeys | device/device_default.cpp:307-312 | before version 2 there are none |
| OutputBuilding.KeyPresent | cryptonote_core/cryptonote_tx_utils.cpp:298-315 | an output of a constructed transaction has a key exactly when its destination's spend key is a point and so is its view key, or it is change |
| OutputBuilding.KeyLeftOut | cryptonote_core/cryptonote_tx_utils.cpp:298-315 | a standard destination whose view key is no point is accepted and left without an output key |
| OutputBuilding.TagPresent | device/device_default.cpp:288-319 | an output carries a view tag exactly when tags are in use and its view key is a point or it is change, and it carries its amount |
| HashInputs.OutputFormula | device/device_default.cpp:267-323 | the key of an output to the keys A and S is S + hB for h the hash of 8sA and the index, its tag the first byte of another hash of them; change uses 8aR |
| HashInputs.OneOffKeysCollide | crypto/crypto.cpp:217-233 | over a base point of order l, one-off keys for two derivations or indices are equal exactly when their strings collide |
| HashInputs.KeysOfOneAddressDiffer | cryptonote_core/cryptonote_tx_utils.cpp:298-315 | two outputs of a transaction to one spend key have one key exactly when their strings, which end in their indices, collide |
| Witnesses.ConstructedWithoutKey | cryptonote_core/cryptonote_tx_utils.cpp:298-315 | one such transaction |
| OutputReceiving.Recognised | cryptonote_basic/cryptonote_format_utils.cpp:813-885 | an output is found exactly when the shared or its own additional derivation leads to a listed spend key and agrees with the view tag; the shared one comes first, and what is found is the index listed for that key |
| HashInputs.OneTagPasses | cryptonote_basic/cryptonote_format_utils.cpp:813-830 | for one derivation and index one tag passes, the first byte of the hash of "view_tag", derivation and index; a missing tag always does |
| HashInputs.SentTagPasses | crypto/crypto.cpp:412-430 | it is the tag the output was sent with |
| HashInputs.AlteredTagRefused | cryptonote_basic/cryptonote_format_utils.cpp:860-885 | an output altered in its tag alone is not recognised under the derivation it was built with |
| OutputReceiving.NextShare | cryptonote_basic/cryptonote_format_utils.cpp:309-318 | the multisig secret starts at zero and a share more adds itself modulo l |
| OutputReceiving.SharesJoin | cryptonote_basic/cryptonote_format_utils.cpp:309-318 | the multisig secret is the sum of all local shares modulo l, in any grouping |
| OutputReceiving.SharesAsPoints | cryptonote_basic/cryptonote_format_utils.cpp:309-318 | its public key is the sum of the shares' public keys |
| OutputReceiving.GenerateKeyImageHelperPrecomp | cryptonote_basic/cryptonote_format_utils.cpp:290-367 | what is returned has the output's key and its key image under the derived secret, which for a whole account belongs to the output; a mismatch is refused, multisig included, and a watch-only account gets no secret |
| OutputReceiving.GenerateKeyImageHelper | cryptonote_basic/cryptonote_format_utils.cpp:259-288 | recognition under derivations of its own, failed ones replaced or dropped, then the helper above |
| OutputReceiving.NoTransactionKey | cryptonote_basic/cryptonote_format_utils.cpp:261-268 | a transaction key that is no point counts as the neutral point, any other gives its derivation |
| OutputReceiving.ReceivedJoin | cryptonote_basic/cryptonote_format_utils.cpp:270-283 | additional keys give their derivations in order, those that are no points none |
| OutputReceiving.DerivedKeyMatches | cryptonote_basic/cryptonote_format_utils.cpp:325-363 | for an output that fits the account, the public key compared last is the output's, subaddress and multisig included, and so is that of the derived secret when the spend secret is whole or the shares at hand add up to it |
| StealthOutputs.OwnerRecognises | cryptonote_core/cryptonote_tx_utils.cpp:268-315 | every output built for the account (main address, lone or mixed subaddress, change) that the published keys suit is recognised, with or without view tags, and its derived key is the output's |
| StealthOutputs.AgreeingFlagsServe | cryptonote_core/cryptonote_tx_utils.cpp:50-74 | the published keys suit every destination whose address carries one subaddress flag |
| StealthOutputs.MeetsExactly | device/device_default.cpp:288-300 | the owner derives what the sender derived exactly when the published keys suit the destination, or its spend point and the base point have the same multiple |
| Witnesses.ConflictingFlagsLose | cryptonote_core/cryptonote_tx_utils.cpp:268-315 | a constructed transaction with one address under both flags whose second output its owner does not recognise |
| StealthOutputs.SpendOutput | cryptonote_basic/cryptonote_format_utils.cpp:259-367 | for such an output the helper never refuses, and a ring signature made with its secret and key image is accepted |
| PaymentIds.EncryptPaymentId | device/device_default.cpp:325-341 | masks the eight bytes in place with the hash of the derivation and a tag byte, or leaves them when the key is no point |
| PaymentIds.RecipientReads | device/device_default.cpp:325-341 | unmasking with the recipient's side of the exchange gives the identifier back |
| MerkleTrees.TreeHashCnt | crypto/tree-hash.c:41-60 | the power of two with cnt < count <= 2 cnt, for all 3 <= count <= 2^28 |
| MerkleTrees.CountIsFloorOfLog | crypto/tree-hash.c:41-60 | it is 1 << floor(log2(count)) exactly when the count is no power of two |
| MerkleTrees.PairsRoot | crypto/tree-hash.c:96-101 | hashing neighbours level by level computes the root that hashing halves defines |
| MerkleTrees.HalvesRoot | crypto/tree-hash.c:62-106 | the root of a power of two leaves is the hash of the roots of both halves, the first on the left |
| MerkleTrees.ThreeLeaves | crypto/tree-hash.c:80-95 | of three leaves the first stands alone |
| MerkleTrees.HalveInPlace | crypto/tree-hash.c:96-101 | a pass that overwrites the front of the buffer leaves exactly the hashes of the old neighbours there |
| MerkleTrees.TreeHash | crypto/tree-hash.c:62-106 | equals the recursive root of the lopsided tree, for every list of 1 to 2^28 leaves |
| MerkleTrees.TreePath | crypto/tree-hash.c:108-150 | the turns of the leaf as a number, and what an index past the leaves gets |
| MerkleTrees.TreeBranch | crypto/tree-hash.c:152-222 | succeeds exactly for contained leaves; depth, path and branch are those of the first matching index |
| MerkleTrees.TreeBranchHash | crypto/tree-hash.c:224-249 | climbs from the hash with the entries on the sides the path bits say |
| MerkleTrees.IsBranchInTree | crypto/tree-hash.c:251-257 | accepts exactly when that climb ends in the root |
| MerkleTrees.BranchAccepted | crypto/tree-hash.c:152-249 | a leaf's branch, depth and path lead back to tree_hash's root |
| MerkleTrees.BranchOrCollision | crypto/tree-hash.c:224-257 | a branch accepted at the depth and path of index i is leaf i with exactly its siblings, or yields two different pairs with one hash; with an injective hash only the former |
| MerkleTrees.PathIdentifiesLeaf | crypto/tree-hash.c:108-150 | depth and path together determine the index |
| MerkleTrees.PathFits | crypto/tree-hash.c:108-150 | depths are at most 28 and paths fit in 32 bits |
| Base58.ReverseAlphabet | common/base58.cpp:54-77 | the reverse table inverts the alphabet and holds -1 elsewhere |
| Base58.BlockBijection | common/base58.cpp:123-169 | a block decodes to data exactly when it is the block written for it |
| Base58.BlockFits | common/base58.cpp:48 | every block fits in the letters the table gives its size |
| Base58.BlockNeeds | common/base58.cpp:48 | and in no fewer |
| Base58.FirstByteWeighsMost | common/base58.cpp:106-121 | bytes are read most significant first |
| Base58.FirstLetter | common/base58.cpp:152-162 | so are letters |
| Base58.EncodeBlock | common/base58.cpp:123-136 | writes the block's letters inside its place in the result and nothing outside it |
| Base58.AddDigit | common/base58.cpp:154-159 | the 128-bit product and the wraparound test refuse exactly the sums of 2^64 and more |
| Base58.DecodeBlock | common/base58.cpp:138-169 | decodes exactly the well-formed blocks, writing only their bytes |
| Base58.Bijection | common/base58.cpp:172-225 | a string decodes to data if and only if it is the encoding of data |
| Base58.EncodeData | common/base58.cpp:172-193 | the block loop computes that encoding for data of every length |
| Base58.DecodeData | common/base58.cpp:195-225 | the block loop computes that decoding, refusals included, for every string |
| Varints.WriteVarint | common/varint.h:64-79 | the shifting loop writes the groups of seven bits, lowest first |
| Varints.ReadVarint | common/varint.h:90-119 | the reading loop, with its overflow and canonical-form errors and its count for a cut input |
| Varints.RoundTrip | common/varint.h:64-119 | reading what was written gives the value and leaves any suffix, if and only if it fits the width |
| Varints.ReadIsCanonical | common/varint.h:90-119 | a completed read consumed exactly the encoding of its value, which fits the width |
| Varints.ClearLastByte | common/varint.h:90-119 | a positive result whose last byte has its high bit clear consumed exactly the encoding of its value |
| Varints.CutOrDone | common/varint.h:97-117 | a completed read ends in a byte below 128; a cut one has consumed everything, all of it continued |
| Addresses.DecodeAddr | common/base58.cpp:237-257 | accepts exactly addresses that carry a payload with a matching checksum and a readable tag, and returns what follows the tag |
| Addresses.RoundTrip | common/base58.cpp:227-257 | decode_addr inverts encode_addr for every 64-bit tag, all data and any hash |
| Addresses.AlteredPayload | common/base58.cpp:244-250 | a payload under the checksum of another is accepted exactly when the hashes of both begin with the same four bytes |
| Addresses.AcceptedIsWritten | common/base58.cpp:237-257 | an accepted address is the one written for its result if and only if some byte of its payload has the high bit clear |
| Addresses.CutTagAccepted | common/base58.cpp:252-253 | the payload 0x80 is accepted as tag 0 although no address is written with it |
| ElectrumWords.JoinRange | mnemonics/electrum-words.cpp:316-331 | the residue test refuses exactly the triples whose base 1626 number reaches 2^32 |
| ElectrumWords.SplitJoin | mnemonics/electrum-words.cpp:405-413 | a triple is accepted with value x exactly when it is the triple written for x |
| ElectrumWords.IndicesBijection | mnemonics/electrum-words.cpp:316-336 | the same for whole strings of words |
| ElectrumWords.CreateChecksumIndex | mnemonics/electrum-words.cpp:192-211 | the index is the checksum of the list's own prefixes modulo the length, or an exception on a word the list does not have in any case |
| ElectrumWords.ChecksumTest | mnemonics/electrum-words.cpp:219-239 | compares the prefixes of the chosen and the last word up to case |
| ElectrumWords.BytesToWords | mnemonics/electrum-words.cpp:382-430 | writes the words of each group and repeats the one the checksum picks, for every nonempty multiple of four bytes |
| ElectrumWords.WordsToBytes | mnemonics/electrum-words.cpp:270-347 | for every expected length and number of words, accepts exactly seeds of a readable length, known words, the right checksum if there is one and no overflowing triple, and returns their bytes undoubled |
| ElectrumWords.NeverDoubled | mnemonics/electrum-words.cpp:338-345 | the number of words is never the one that is doubled |
| ElectrumWords.KeyFromWords | mnemonics/electrum-words.cpp:357-373 | a secret key is read exactly from 24 words, or 25 with the right checksum |
| ElectrumWords.SeedRoundTrip | mnemonics/electrum-words.cpp:382-430 | a written seed always passes its checksum and reads back as the same bytes |
| SeedChecksums.PrefixesOne | mnemonics/electrum-words.cpp:201-208 | a word adds the list's own prefix of it to what the checksum is taken of |
| SeedChecksums.PrefixesJoin | mnemonics/electrum-words.cpp:201-208 | words add theirs in order |
| SeedChecksums.TestTwoWords | mnemonics/electrum-words.cpp:219-239 | of two seeds that differ in the last word and pass or fail the test, the second passes with the first exactly when the last words have one prefix up to case |
| SeedChecksums.OneWordCompletes | mnemonics/electrum-words.cpp:219-239 | known words are completed by exactly one of the 1626 words, the one their checksum selects |
| SeedChecksums.ReadWithLastWord | mnemonics/electrum-words.cpp:270-347 | the words of a key followed by a word of the list, read with its length expected or none, give the key back for that one and are refused for the 1625 others |
| SeedChecksums.ReadWithoutChecksum | mnemonics/electrum-words.cpp:275-311 | the words of a key alone give it back when its length or twice it is expected, and are refused when they are too few or too many |
| SeedChecksums.KnownExactly | mnemonics/electrum-words.cpp:91-140 | with a checksum a word is known by its prefix, without one only whole, in any case |
| SeedChecksums.UsableExists | mnemonics/language_base.h:120-150 | there are lists of 1626 words that differ in their prefixes |
| SeedChecksums.SpellingIsFree | mnemonics/electrum-words.cpp:192-239 | seeds whose words agree up to prefix and case have the same indices and pass or fail together |
| Permutations.OccursOnce | common/apply_permutation.h:45-47 | a sequence of length n that contains each of 0..n-1 is a permutation |
| Permutations.ApplyPermutation | common/apply_permutation.h:42-61 | accepts exactly the permutations and ends with swaps that compose to the permutation it was given |
| Permutations.ApplyPermutationTo | common/apply_permutation.h:63-68 | v[i] becomes the old v[permutation[i]], or nothing changes |
| Permutations.ApplyPermutationAligned | cryptonote_core/cryptonote_tx_utils.cpp:262-266 | one callback that swaps three arrays keeps them aligned under the same permutation |
| Permutations.SortInputs | cryptonote_core/cryptonote_tx_utils.cpp:252-266 | inputs end up in the sorted order of their key images, each beside its own context and source |
| Amounts.DecomposeAmountIntoDigits | cryptonote_basic/cryptonote_format_utils.h:193-232 | dust is handed out at most once and first: the lowest digits that stay within the threshold; then the other nonzero digits as chunks, although the order wraps on the last pass |
| Amounts.Conserved | cryptonote_basic/cryptonote_format_utils.h:193-232 | dust and chunks add up to the amount, and the chunks increase strictly from above the dust |
| Amounts.LargestDust | cryptonote_basic/cryptonote_format_utils.h:210-216 | the dust is the largest part of low digits within the threshold |
| ThreadPool.InitInv | common/threadpool.cpp:73-83 | the invariant holds of a new pool |
| ThreadPool.KeepsInv | common/threadpool.cpp:85-179 | every step of every thread keeps it |
| ThreadPool.RunKeepsInv | common/threadpool.cpp:85-179 | in every state of every interleaving, counters equal jobs queued or executing, active equals jobs between pop and final decrement, depths are exact, and every job is in one place and started at most once |
| ThreadPool.NeverBelowZero | common/threadpool.cpp:144-177 | no decrement of a counter, of depth or of active goes below zero |
| ThreadPool.WaitMeansFinished | common/threadpool.cpp:131-137 | when wait can return, every job counted on its waiter was started once and has finished |
| ThreadPool.WaitReturnsAfterJobs | common/threadpool.cpp:131-137 | the same over whole interleavings |
| PoolBounds.ActiveBound | common/threadpool.cpp:131-179 | in every interleaving, active is at most the workers created and the waits that still help |
| PoolBounds.WorkersStay | common/threadpool.cpp:73-83 | while the pool runs, every worker it was created with is there |
| PoolBounds.ActiveWithinMax | common/threadpool.cpp:131-179 | so it is at most max while at most one wait helps |
| PoolBounds.BoundIsReached | common/threadpool.cpp:131-179 | for every max and number of waits, an interleaving reaches that bound |
| PoolBounds.ActiveCanExceedMax | common/threadpool.cpp:131-179 | for every max, an interleaving with two waits reaches max + 1 |
| PoolSchedule.NestedRunsInline | common/threadpool.cpp:85-97 | in every interleaving, a thread inside a job never counts or queues a job that is no leaf, and runs it at once if it may submit |
| PoolSchedule.OutsideQueues | common/threadpool.cpp:87-106 | outside all jobs, such a job is queued exactly when the queue is empty or the jobs being run are not max, and otherwise runs at once; a leaf is queued |
| PoolSchedule.PopsInOrder | common/threadpool.cpp:101-158 | the job taken is the newest queued leaf, or without any the oldest queued job |
| PoolSchedule.StartsInOrder | common/threadpool.cpp:101-104 | when a job that is no leaf starts, every job submitted before it has started |
| PoolSchedule.StoppedForGood | common/threadpool.cpp:46-66 | once the pool is stopped, no job starts any more |
| PoolSchedule.MaySubmit | common/threadpool.cpp:86-97 | a job may submit exactly unless the last job its thread took or ended is a leaf it took |
| PoolSchedule.LeafSubmitsAfterWait | common/threadpool.cpp:160-165 | an interleaving in which a leaf job does |
| PoolProgress.WaitsProgress | common/threadpool.cpp:131-179 | while a pool with workers runs and no job is blocked in a wait of its own, whatever is waited for can go on |
| PoolProgress.LoneWaitReturns | common/threadpool.cpp:131-158 | without workers, the only client is never blocked outside jobs in a wait that cannot return |

## Left out

- ScalarOps.ScMulCombine: sc_muladd and sc_mulsub are one body with the sign as a parameter, and sc_add and sc_sub another; the source writes each out.
- ScalarOps.Products: the products of limbs are recursive columns added in the source's order, not 144 terms written out.
- FieldProducts.FeMul: the products are recursive columns with the factors 2 and 19 as the source places them; field elements are values, so writing over an operand is not modelled.
- ScalarChecks.Random32Unbiased: some draw is kept; the loop runs forever on a stream without one.
- ScalarMult.DoubleLoop: loops that occur twice in the source with different tables are modelled once.
- WindowedMult.Scalarmult: ge_scalarmult_p3 differs only in the form of the result written at position 0.
- Keys.Shared: scalars of the key functions are integers modulo l, and their calls of the scalar multiplication routines are multiples in the group.
- OutputReceiving.GenerateKeyImageHelperPrecomp: the default device, which declines compute_key_image (device/device.hpp:203); devices that take over there are not modelled.
- StealthOutputs.SpendOutput: accounts with a whole spend secret; one multisig signer holds only a share of it and cannot sign alone.
- ElectrumWords.WordsToBytes: one language whose words differ in more than case; language detection is not modelled, words are a list and not one string with spaces, and a single word without an expected length divides by zero in the source.
- MerkleTrees.TreeBranchHash: depths up to 32; beyond, the source shifts a 32-bit path by its width or more, which C leaves undefined.
- MerkleTrees.IsBranchInTree: depths up to 32, as for the climb it runs.
- ElectrumWords.CreateChecksumIndex: CRC-32 is an uninterpreted function.
- Permutations.ApplyPermutation: the callback is a trace of swaps that is performed on the arrays afterwards.
- Permutations.SortInputs: std::sort is a premise on the order it returns.
- ThreadPool.RunKeepsInv: the pool is a value changed by actions; condition variables are guards without lost or spurious wake-ups, and exceptions of jobs, null waiters at the error flag, recycling and joining are not modelled.
- MerkleTrees.TreeBranch: the caller supplies a branch buffer with room for the leaf's siblings, as the source assumes.
- Associativity of the addition law, square roots and point decompression after the y coordinate, and the map of field elements to points: the group, decoding and hashing to points are premises.
- The numeric tables of multiples of the base point: their documented contents are premises.
- Keccak and the other hash internals, random number generation, memory wiping and constant-time considerations.
- Parsing and serialization of transactions and their extra field, ring confidential transactions, weights and fees.
- is_out_to_acc, the variant for the main address alone, whose derivation and comparison are those proved for is_out_to_acc_precomp.
- Account storage, the device registry, configuration and word lists.
