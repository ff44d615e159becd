# A verified model of the cryptographic core

This project models, in Dafny, the algorithms that this crate implements itself rather than takes
from a library, and proves what they compute. Hash functions, block ciphers, extendable-output
functions, GHASH and the random source are abstract functions (or an arbitrary stream of draws);
every theorem holds for all of them.

What is proved, by area:

- **ML-DSA expanded-key validation.** The in-place NTT evaluates a polynomial at
  zeta^(2·BitRev8(i)+1); the inverse NTT undoes it in both orders; pointwise accumulation between the
  two is multiplication in Z_q[X]/(X^256+1); validation accepts exactly the keys whose packed secrets
  are in range and whose low bits are Power2Round of A·s1+s2. The bit reversal, the twiddle identity
  and zeta^256 = −1 are derived, not assumed.
- **RSA validation.** Fermat's little theorem is proved from the binomial theorem. An accepted public
  modulus is, for every run of the random source, odd, composite, not a power of one prime and free of
  prime factors up to 751. A prime is never reported composite. A private key that passes inverts its
  own exponentiation on every residue.
- **brainpoolP512r1 verification.** The Jacobian doubling and addition compute the chord-and-tangent
  sum over every prime p > 3 and stay on the curve, in every branch. The double-and-add loop computes
  u·L + v·R; the bytes of honest signatures are accepted, and r‖s and r‖(n−s) stand or fall together.
- **Durable mutation scheduler.** The critical sections are methods of a class; the protocol is a step
  system over mutators, flushers, receipts, a stopper and the writer. An inductive invariant gives
  durability, sticky failure, absence of stranded work and of starvation, and bounded shutdown, in every run.
- **Block-cipher constructions.** Key wrap computes the standard's shift-register form; key wrap and
  padded key wrap, CBC, CCM and GCM decrypt exactly what they encrypt, and what they encrypt is stated
  byte by byte; the CCM MAC input is injective; counter blocks do not repeat; CMAC in two forms
  agrees and its subkey step is multiplication by x in the binary field.
- **RSA encodings and the DER reader.** PSS, OAEP, PKCS #1 v1.5 and DER readers accept exactly what
  the corresponding encoder produces.

The modules: `Arithmetic`, `Primes`, `Bytes` (shared mathematics); `NttTwiddles`, `Polynomials`,
`NttSpec`, `NttInverse`, `Ntt`, `MlDsaRing`, `MlDsaValidation`; `MillerRabin`, `BaseDraws`, `RsaPublic`,
`RsaPrivate`; `CurveField`, `AffineCurve`, `Jacobian`, `ScalarSum`, `Brainpool`, `EcdsaExample`; `DurableSchedule`,
`Scheduler`, `SchedulerRuns`; `KeyWrap`, `KeyWrapStandard`, `Pkcs7`, `Keystream`, `Cbc`, `Cmac`, `Ctr`, `Ccm`, `Gcm`; `RsaEncoding`,
`RsaPss`, `RsaOaep`, `RsaPkcs1`; `EcdsaDer`. Check with `dafny verify dfyconfig.toml`.

## Where the code does not do what one might expect

Each of these has a lemma that shows the case and one that states the exact condition for all inputs.

- Modular subtraction returns the modulus itself, not zero, when the second operand exceeds the first
  by a multiple of it (`CurveField.ModSubReduced`, `CurveField.ModSubUnreduced`). The point formulas
  never meet that case, because both operands are reduced.
- `record_mutation` does not consult `stopping`. After a clean exit of the worker, a mutation followed
  by a flush waits for ever (`Scheduler.StrandedForEver`, `Scheduler.MutateThenFlushStrands`); a flush
  then returns at once exactly when nothing was recorded since (`Scheduler.FlushAfterExit`).
- OAEP padding below 2·hLen+2 bytes lets an empty message through with a truncated label digest, and
  unpadding rejects the result (`RsaOaep.TooSmallModulus`); PKCS #1 v1.5 padding below eleven bytes
  behaves alike (`RsaPkcs1.TooSmallModulus`).
- PKCS #7 removal accepts lengths that are not whole blocks, which padding never produces
  (`Pkcs7.AcceptedOutsideImage`, `Pkcs7.ApplyIffPadded`).
- Counter mode does not bound the number of blocks by the counter width: with a one-bit counter, three
  blocks are accepted and the first counter block is used twice (`Ctr.CountersRepeat`). The counter
  blocks are distinct exactly up to 2^bits blocks (`Ctr.CountersDistinctIff`).
- `der_positive_integer` accepts the encoding of zero (a single zero octet), despite its name
  (`EcdsaDer.ZeroIsRead`); the value read is positive exactly when the content is not that single octet
  (`EcdsaDer.PositiveExceptZero`). The reader is still canonical.
- The length subtraction of the two padders goes below zero, where the source panics, exactly for an
  empty message and a modulus below hLen+2 bytes (`RsaOaep.PadUnderflows`) or below three bytes
  (`RsaPkcs1.PadUnderflows`).

## Model

| member | source | states |
|---|---|---|
| Bytes.XorBit | src/software_symmetric.rs:78 | bit j of the modelled exclusive or is the sum of the two bits modulo 2 |
| Bytes.FirstByteWeight | src/software_symmetric.rs:481 | big-endian numbers: the first byte weighs 256 to the number of bytes after it |
| NttTwiddles.ZetaHasOrder512 | src/post_quantum/ml_dsa_validation.rs:20-28 | zeta^256 = −1 modulo q: 1753 is a 512th root of unity |
| NttTwiddles.ZetaSquared | src/post_quantum/ml_dsa_validation.rs:29-35 | each bit-reversed twiddle is a square root of the value that its block's x^length must equal |
| NttTwiddles.MirrorIndices | src/post_quantum/ml_dsa_validation.rs:32-46 | the bit-reversed indices of a twiddle and of its mirror in the same layer add up to 256 |
| NttTwiddles.MirrorTwiddles | src/post_quantum/ml_dsa_validation.rs:45-51 | the twiddle at index 3·2^m−1−k is minus the reciprocal of the one at k, so the downward walk meets the inverse of the upward one |
| Ntt.BuildZetas | src/post_quantum/ml_dsa_validation.rs:20-36 | the two table-filling loops produce zeta^BitRev8(k) for every k, zero at index 0 |
| Ntt.TransformBlock | src/post_quantum/ml_dsa_validation.rs:52-62 | one block of butterflies changes exactly the two halves of its block, by the forward or inverse formula |
| Ntt.TransformLayer | src/post_quantum/ml_dsa_validation.rs:42-64 | a layer applies the butterflies to all its blocks with consecutive twiddles, and leaves the running twiddle index past them |
| Ntt.ScaleInPlace | src/post_quantum/ml_dsa_validation.rs:65-69 | every value is multiplied by 8347681 |
| Ntt.Transform | src/post_quantum/ml_dsa_validation.rs:40-70 | the in-place loop nest computes the forward or inverse transform of the array |
| NttSpec.ForwardEvaluates | src/post_quantum/ml_dsa_validation.rs:40-64 | entry i of the forward transform is the polynomial's value at zeta^(2·BitRev8(i)+1), for all 256 entries and all polynomials |
| NttInverse.UndoLayer | src/post_quantum/ml_dsa_validation.rs:45-57 | each inverse layer undoes the matching forward layer up to a factor 2 |
| NttInverse.InverseOfForward | src/post_quantum/ml_dsa_validation.rs:40-70 | inverse after forward is the identity on every array of 256 residues |
| NttInverse.ForwardOfInverse | src/post_quantum/ml_dsa_validation.rs:40-70 | forward after inverse is the identity too, so the transform is a bijection |
| MlDsaRing.ForwardOfProduct | src/post_quantum/ml_dsa_validation.rs:116-126 | the transform carries the schoolbook product modulo X^256+1 to the pointwise product |
| MlDsaRing.ForwardOfSum | src/post_quantum/ml_dsa_validation.rs:116-126 | and sums to pointwise sums |
| MlDsaRing.ProductThroughTransform | src/post_quantum/ml_dsa_validation.rs:101-128 | multiplying pointwise between the two transforms is multiplying in the ring |
| MlDsaRing.EvalRowProduct | src/post_quantum/ml_dsa_validation.rs:109-126 | at every transform point the row is the sum of the products of its entries and the secrets |
| MlDsaRing.RowThroughTransform | src/post_quantum/ml_dsa_validation.rs:106-128 | accumulating a row pointwise and transforming back is the row of A·s1 in the ring, where A is the matrix whose transform was sampled |
| MlDsaValidation.ValidSmallSecretEncoding | src/post_quantum/ml_dsa_validation.rs:72-88 | the streaming bit reader accepts exactly when every complete code of the little-endian bit string is at most 2·eta |
| MlDsaValidation.Ilog2Bounds | src/post_quantum/ml_dsa_validation.rs:73-74 | the integer logarithm: 2^ilog2(n) ≤ n < 2^(ilog2(n)+1) |
| MlDsaValidation.WidthIsBitLength | src/post_quantum/ml_dsa_validation.rs:73-74 | the code width is the bit length of 2·eta |
| MlDsaValidation.PackedSecretCheck | src/post_quantum/ml_dsa_validation.rs:72-88 | for any sequence of codes packed at the bit length of 2·eta, the check succeeds exactly when every code is at most 2·eta |
| MlDsaValidation.OutOfRangeRejected | src/post_quantum/ml_dsa_validation.rs:72-88 | the codes 7 for eta 2 and 9 for eta 4 are rejected |
| MlDsaValidation.CodesAtMostMeaning | src/post_quantum/ml_dsa_validation.rs:72-88 | that condition is: for every k, code k of the whole number is at most 2·eta |
| MlDsaValidation.LowPartIsCentred | src/post_quantum/ml_dsa_validation.rs:130-133 | the shift-based rounding is Power2Round: any decomposition with low part in [−4095, 4096] is the one computed (Algorithm 35 of FIPS 204) |
| MlDsaValidation.CentredPairExists | src/post_quantum/ml_dsa_validation.rs:130-133 | every residue has such a decomposition, with the high part in 0..1023 |
| MlDsaValidation.RowTimesSecret | src/post_quantum/ml_dsa_validation.rs:107-128 | the accumulation loop and the inverse transform give the ring product of the row and the secret |
| MlDsaValidation.AddAndRound | src/post_quantum/ml_dsa_validation.rs:129-134 | the row is overwritten with the low parts of row plus product |
| MlDsaValidation.ComputeLowBits | src/post_quantum/ml_dsa_validation.rs:101-135 | all rows: Power2Round low parts of A·s1+s2 |
| MlDsaValidation.LowBitsMeaning | src/post_quantum/ml_dsa_validation.rs:106-135 | for the matrix with the sampled transform, every expected coefficient is the centred remainder modulo 2^13 of that coefficient of A·s1+s2 |
| MlDsaValidation.Validate | src/post_quantum/ml_dsa_validation.rs:92-141 | accepts exactly the keys with both secrets in range and stored t0 equal to the encoding of the low parts of A·s1+s2 |
| MillerRabin.OddPart | src/rsa_public_validation.rs:64-68 | the trailing-zero split writes n−1 as 2^a·m with m odd |
| MillerRabin.PrimePasses | src/rsa_private_validation.rs:180-195 | a prime is a strong probable prime in every base it does not divide |
| MillerRabin.StrongIffFermatWithoutRoots | src/rsa_private_validation.rs:180-195 | a base is no witness exactly when b^(n−1) = 1 and no power on the way squares to 1 without being ±1 |
| MillerRabin.RootRevealsFactor | src/rsa_public_validation.rs:137-150 | a square root of 1 other than ±1 shares a factor with n |
| MillerRabin.SampleBase | src/rsa_public_validation.rs:97-111 | a sampled base lies strictly between 1 and n−1, and at most the given number of draws is used |
| MillerRabin.RandomBase | src/rsa_public_validation.rs:97-111 | the rejection loop returns the first acceptable masked draw, or nothing when a draw fails or the attempts run out |
| BaseDraws.CandidateIsMasked | src/rsa_public_validation.rs:98-105 | a candidate is the buffer's big-endian number modulo 2 to the bit length of n |
| BaseDraws.SampleFinds | src/rsa_public_validation.rs:101-109 | the first of at most 128 draws strictly between 1 and n−1 is the one returned |
| BaseDraws.SampleFailsIff | src/rsa_public_validation.rs:101-110 | sampling fails exactly when there is no such draw before a failing one |
| RsaPublic.ClassifyComposite | src/rsa_public_validation.rs:149-155 | "with factor" exactly when some d > 1 divides x−1 and n; for 1 < x < n that verdict means n is composite; a power of a prime that divides x−1 always gets it |
| RsaPublic.EnhancedRound | src/rsa_public_validation.rs:120-147 | "not a prime power" exactly when b^(n−1)−1 is coprime to n, "probably prime" exactly for strong probable primes, "with factor" only for composites; x−1 never underflows |
| RsaPublic.FoundRoot | src/rsa_public_validation.rs:137-146 | wherever a squaring gives 1, the root reveals a genuine factor |
| RsaPublic.PrimePowerShowsNothing | src/rsa_public_validation.rs:143-155 | no power of a single prime can get the accepting verdict, in any base |
| RsaPublic.NotPrimePowerIsRight | src/rsa_public_validation.rs:149-155 | the accepting verdict implies composite and not a prime power |
| RsaPublic.HasNoOddDivisor | src/rsa_public_validation.rs:86-88 | trial division by odd numbers decides primality of odd candidates |
| RsaPublic.SmallFactors | src/rsa_public_validation.rs:80-95 | the product is that of the odd primes below 752 |
| RsaPublic.CoprimeToPrimorial | src/rsa_public_validation.rs:61-63 | gcd 1 with the product says exactly that no odd prime below the bound divides n |
| RsaPublic.RunRounds | src/rsa_public_validation.rs:69-77 | the round loop: first decisive verdict among five rounds, over the random stream |
| RsaPublic.ValidateWithRng | src/rsa_public_validation.rs:35-78 | for any bytes, sizes and random stream: rejection when a format check fails or an odd prime below 752 divides the modulus, else the verdict of the rounds |
| RsaPublic.FormatIff | src/rsa_public_validation.rs:42-60 | the format checks hold exactly for 512..16384 bits, a modulus of that many bits in as many bytes as needed, odd, and an odd exponent 3 ≤ e < n of 1 to 32 bytes |
| RsaPublic.AcceptedIff | src/rsa_public_validation.rs:35-78 | acceptance holds exactly when the format does, no prime up to 751 divides n, and among the first five drawn bases one shows that n is no prime power while those before keep it looking prime |
| RsaPublic.UnavailableIff | src/rsa_public_validation.rs:35-78 | unusable randomness is reported exactly when the source gives out before the fifth such base |
| RsaPublic.GoodKeyAccepted | src/rsa_public_validation.rs:35-78 | an ordinary key is accepted whenever the first base drawn shows that its modulus is no prime power |
| RsaPublic.AcceptedModulus | src/rsa_public_validation.rs:35-78 | for every random stream, an accepted modulus has the expected bits, is odd, composite, no prime power, and has no prime factor up to 751; the exponent is odd and in range |
| RsaPublic.PrimeModulusRejected | src/rsa_public_validation.rs:69-77 | no prime modulus is ever accepted |
| RsaPrivate.StrongRound | src/rsa_private_validation.rs:180-195 | one round passes exactly when the base is no witness against n |
| RsaPrivate.ProbablePrime | src/rsa_private_validation.rs:145-198 | the nested loop answers as the rounds over the random stream do, with at most 128 draws a round |
| RsaPrivate.PrimeNeverRejected | src/rsa_private_validation.rs:145-198 | for a prime the answer is true or unusable randomness, for any round count and stream |
| RsaPrivate.AcceptedRounds | src/rsa_private_validation.rs:162-197 | acceptance means one base per round, each between 1 and n−1, failed to witness |
| RsaPrivate.KeyInverts | src/rsa_private_validation.rs:85-121 | with prime factors, a key that passes the checks satisfies (m^e)^d mod n = m for every m < n, multiples of p or q included |
| RsaPrivate.CanonicalExponent | src/rsa_private_validation.rs:112-121 | the private exponent is determined by the rest of the key |
| RsaPrivate.TrivialVerdicts | src/rsa_private_validation.rs:151-156 | numbers up to 3 and even numbers are decided by their primality, without a draw |
| RsaPrivate.LcmLeast | src/rsa_private_validation.rs:114 | the modelled least common multiple divides every common multiple |
| RsaPrivate.ChecksIff | src/rsa_private_validation.rs:76-121 | the algebraic checks are exactly the listed inequalities on n, e, p, q, their squares and distance, and d |
| RsaPrivate.ValidateWithRng | src/rsa_private_validation.rs:68-143 | for any key and stream: the algebraic checks, then both primality verdicts on one continued stream, then the pair-wise consistency check |
| RsaPrivate.AcceptedIff | src/rsa_private_validation.rs:68-143 | acceptance holds exactly when the checks do, both factors survive their bases from one continued stream, and the private operation undoes the public one on 2 |
| RsaPrivate.ValidKeyAccepted | src/rsa_private_validation.rs:68-143 | a key with genuine prime factors that satisfies the checks is refused only for lack of randomness |
| RsaPrivate.AcceptedKey | src/rsa_private_validation.rs:68-143 | for every random stream, an accepted key passed all algebraic checks, each factor survived one base per round, and the pair-wise check held |
| CurveField.ModSubIsDifference | src/brainpool512.rs:290-296 | the result is congruent to the difference, for all operands |
| CurveField.ModSubReduced | src/brainpool512.rs:290-296 | it is below the modulus exactly unless the second operand exceeds the first by a multiple of the modulus |
| CurveField.ModSubUnreduced | src/brainpool512.rs:294-295 | 0 − p gives p |
| AffineCurve.SumOnCurve | src/brainpool512.rs:298-363 | the chord-and-tangent sum of two curve points is a curve point |
| AffineCurve.SumCommutes | src/brainpool512.rs:323-363 | and does not depend on their order |
| Jacobian.DoubleIsGroupSum | src/brainpool512.rs:298-321 | for every prime p > 3 and reduced curve point, doubling returns a reduced curve point, z = 0 exactly at infinity, projecting to the affine sum of the point with itself |
| Jacobian.AddIsGroupSum | src/brainpool512.rs:323-363 | the same for addition, in the infinity, equal, opposite, y = 0 and chord cases |
| Jacobian.AddRepresents | src/brainpool512.rs:323-363 | addition represents the affine sum of whatever its operands represent |
| Jacobian.CurveEquation | src/brainpool512.rs:279-284 | a reduced Jacobian point satisfies Y² = X³+aXZ⁴+bZ⁶ exactly when its affine point is on the curve |
| Jacobian.RepresentedIsToAffine | src/brainpool512.rs:270-275 | the affine point represented is unique |
| ScalarSum.LadderStep | src/brainpool512.rs:395-403 | one bit of each scalar: from u·L+v·R to (2u+b)·L+(2v+c)·R |
| ScalarSum.MultiplySum | src/brainpool512.rs:365-406 | the byte and bit loops return u·L+v·R for scalars of any byte lengths, on a curve whose sum is associative |
| Brainpool.ModInverseInverts | src/brainpool512.rs:255-258 | the extended Euclidean inverse is an inverse |
| Brainpool.ProjectX | src/brainpool512.rs:267-275 | X·z⁻² is the affine x coordinate, and the inverse always exists |
| Brainpool.VerifyWith | src/brainpool512.rs:198-277 | accepts exactly well-formed encodings of a curve point and a signature that satisfies the affine verification equation |
| Brainpool.VerifyPrehash | src/brainpool512.rs:198-277 | the same with the brainpoolP512r1 constants |
| Brainpool.GeneratorOnCurve | src/brainpool512.rs:213-231 | the constant generator satisfies the curve equation |
| Brainpool.DigestNumberIsLeading | src/brainpool512.rs:251-254 | the digest's number is that of its leftmost bits, as many as n has |
| Brainpool.FirstBytesAreLeading | src/brainpool512.rs:251-254 | for the 512-bit order that is the number of the first 64 bytes, or of a shorter digest |
| Brainpool.SignatureIff | src/brainpool512.rs:245-276 | for the key e·G and the nonce k that s determines, the equation holds exactly when r and s are in range and r is the x coordinate of k·G modulo n |
| Brainpool.NonceExists | src/brainpool512.rs:255-266 | every signature with s in range has such a nonce |
| Brainpool.VerifiedFormat | src/brainpool512.rs:206-250 | acceptance is exactly the lengths 129 and 128, the prefix 04, coordinates below p on the curve, r and s in range, and the equation for the digest's leading bits |
| Brainpool.HonestSignatureHolds | src/brainpool512.rs:245-276 | every signature formed as section 6.4.1 of FIPS 186-5 prescribes satisfies the equation |
| Brainpool.SecondSignature | src/brainpool512.rs:245-276 | (r, s) holds exactly when (r, n−s) holds |
| Brainpool.HonestSignatureVerifies | src/brainpool512.rs:198-277 | the encoded key 04‖x‖y and signature r‖s of every honest signer are accepted, for every digest |
| Brainpool.HonestSignatureAccepted | src/brainpool512.rs:198-277 | for the brainpoolP512r1 constants, with the number of the digest's first 64 bytes |
| Brainpool.SecondSignatureVerifies | src/brainpool512.rs:198-277 | for every key and digest, the bytes r‖s are accepted exactly when r‖(n−s) are |
| Brainpool.ConstantsFit | src/brainpool512.rs:206-222 | the constants p and n fit 64 bytes, so the two theorems apply to them |
| EcdsaExample.DomainExists | src/brainpool512.rs:198-277 | a three-point curve meets the hypotheses of the signature theorems |
| EcdsaExample.SignatureExists | src/brainpool512.rs:245-276 | there every premise of the completeness theorem holds for a concrete signature, which is accepted with its counterpart, while r = 1 never is |
| DurableSchedule.Scheduling.constructor | src/state_persistence.rs:204-210 | a scheduler starts with both epochs zero, no deadline, force, stop or failure |
| DurableSchedule.Scheduling.RecordMutation | src/state_persistence.rs:281-304 | next epoch, deadline armed only if none is (batched) or write forced (immediate); nothing changes on failure or exhaustion |
| DurableSchedule.Scheduling.BeginFlush | src/state_persistence.rs:306-319 | returns the failure, or Ok when nothing is pending, or forces a write and gives the target epoch |
| DurableSchedule.Scheduling.RequestStop | src/state_persistence.rs:247-252 | sets stopping and force only |
| DurableSchedule.Scheduling.CheckDue | src/state_persistence.rs:378-414 | the decision of one pass: fail, stop, write or park, and the flags it clears |
| DurableSchedule.Scheduling.RecordWrite | src/state_persistence.rs:361-374 | the persisted epoch becomes the snapshot's; deadline and force as the mode asks |
| DurableSchedule.Scheduling.StoreFailure | src/state_persistence.rs:216-221 | stores the failure and changes nothing else |
| DurableSchedule.Scheduling.BeginWait | src/state_persistence.rs:327-333 | a flagged receipt waits for its own epoch; any other only reports the failure, if there is one |
| DurableSchedule.Scheduling.AwaitEpoch | src/state_persistence.rs:416-433 | a waiter finishes when its epoch is persisted, then when a failure is stored, and otherwise waits |
| Scheduler.StepKeepsInvariant | src/state_persistence.rs:281-433 | every step of every thread keeps the protocol invariant |
| Scheduler.RunKeepsInvariant | src/state_persistence.rs:281-433 | so it holds in every state of every run |
| Scheduler.EpochsOrdered | src/state_persistence.rs:354-374 | persisted epoch ≤ last completed write ≤ mutation epoch, and no more writes than mutations |
| Scheduler.RecordedWriteAdvances | src/state_persistence.rs:361-362 | every recorded write strictly increases the persisted epoch |
| Scheduler.OkMeansDurable | src/state_persistence.rs:306-333 | a flush or immediate receipt that returned Ok has a completed write whose snapshot holds every mutation up to its target |
| SchedulerRuns.FlushIsDurable | src/state_persistence.rs:306-319 | a flush that returns Ok at any later point of any run has every mutation recorded before the call in a completed write |
| SchedulerRuns.ReceiptIsDurable | src/state_persistence.rs:281-333 | in immediate mode, Ok from waiting on a mutation's receipt means that a completed write holds that very mutation, whatever happens before and meanwhile |
| SchedulerRuns.BatchedReceiptReturns | src/state_persistence.rs:327-333 | in batched mode waiting on a receipt returns at once, with the failure if there is one |
| SchedulerRuns.NoEarlyWrite | src/state_persistence.rs:290-296 | a batched write that nothing forces falls due no earlier than the delay after a mutation that the write before the last did not hold |
| Scheduler.CallsPossible | src/state_persistence.rs:281-376 | mutations, flushes, waits and stops are possible in every state, and encoding or writing can succeed or fail |
| Scheduler.FailureIsFinal | src/state_persistence.rs:216-221 | a stored failure never changes and no write follows it |
| Scheduler.ParkedStrandsNoMutation | src/state_persistence.rs:378-414 | a parked worker is not stopping and has nothing pending, or (batched) a deadline no later than the first unwritten mutation plus the delay |
| Scheduler.ParkedStrandsNoClient | src/state_persistence.rs:416-426 | while it is parked no flush or receipt is asleep on an unpersisted epoch |
| Scheduler.SleepingClientHasWorker | src/state_persistence.rs:416-426 | a sleeping client has a worker that is not parked and has not failed |
| Scheduler.NoClientStarves | src/state_persistence.rs:306-333 | in any run, new mutations included, six worker steps or an exit of the worker, on failure or on a stop, leave every client that waited on a live worker persisted or failed |
| Scheduler.NoMutationStarves | src/state_persistence.rs:350-414 | once its delay has passed (at once in immediate mode), six worker steps or an exit leave a recorded mutation persisted or a failure stored, waited for or not |
| Scheduler.RearmNeverNeeded | src/state_persistence.rs:363-373 | the re-arm branch after a write never changes anything, in either mode |
| Scheduler.CleanExitIsDurable | src/state_persistence.rs:381-385 | a clean exit happens only with all epochs recorded so far in a completed write |
| Scheduler.AtMostTwoMoreWrites | src/state_persistence.rs:350-376 | without new mutations at most two further writes complete |
| Scheduler.ShutdownTerminates | src/state_persistence.rs:242-261 | after a stop request the worker takes at most seven more steps without new mutations |
| Scheduler.WorkerCanMove | src/state_persistence.rs:350-414 | until it has exited, the worker has a step to take; with a stop requested or a client unserved it is never parked, and the step is not a wake-up |
| Scheduler.StrandedForEver | src/state_persistence.rs:281-319 | after a clean exit a client whose target is not persisted never finishes, in any continuation |
| Scheduler.MutateThenFlushStrands | src/state_persistence.rs:281-319 | a mutation and a flush after a clean exit lead there |
| Scheduler.CleanExitReachable | src/state_persistence.rs:242-252 | stopping an idle scheduler reaches a clean exit |
| Scheduler.FlushAfterExit | src/state_persistence.rs:306-319 | after a clean exit a flush returns at once exactly when nothing is unpersisted |
| KeyWrap.RoundsInvert | src/software_symmetric.rs:187-237 | the 6n reverse rounds invert the 6n forward rounds, for every n |
| KeyWrap.KeyWrapRounds | src/software_symmetric.rs:187-237 | both loop directions compute those rounds, callback failures included |
| KeyWrap.KeyWrapWith | src/software_symmetric.rs:239-279 | the RFC 3394 operation with its length, initial value and integrity checks |
| KeyWrap.UnwrapIffWrap | src/software_symmetric.rs:239-279 | unwrap(c) = Ok(m) exactly when wrap(m) = Ok(c) |
| KeyWrapStandard.WrapIsStandard | src/software_symmetric.rs:187-258 | wrap computes the shift-register steps t = 1..6n of section 2.2.1 of RFC 3394, callback failures included |
| KeyWrap.CheckPadding | src/software_symmetric.rs:331-347 | the branch-free length and zero-tail check decides exactly valid padding |
| KeyWrap.KeyWrapWithPaddingWith | src/software_symmetric.rs:281-350 | the RFC 5649 operation, single-block case included |
| KeyWrapStandard.PaddedWrapIsStandard | src/software_symmetric.rs:290-312 | padded wrap starts from the alternative initial value, the length and the zero-padded data, and is one block encryption or the same 6n steps |
| KeyWrap.UnwrapPaddedIffWrapPadded | src/software_symmetric.rs:281-350 | padded unwrap(c) = Ok(m) exactly when padded wrap(m) = Ok(c) |
| Pkcs7.Remove | src/software_symmetric.rs:164-184 | the constant-time scan accepts exactly data followed by k bytes of value k, 1 ≤ k ≤ block length, and returns the data |
| Pkcs7.ApplyRefuses | src/software_symmetric.rs:150-152 | padding refuses exactly the block lengths 0 and above 255 |
| Pkcs7.ApplyIffPadded | src/software_symmetric.rs:146-162 | padding produces exactly those padded forms whose length is a whole number of blocks |
| Pkcs7.AcceptedOutsideImage | src/software_symmetric.rs:164-184 | a padded form of another length is accepted and is no padding output |
| Cbc.CbcWith | src/software_symmetric.rs:54-110 | both directions of the loop compute the chained blocks, with every error case |
| Cbc.EncryptedBlock | src/software_symmetric.rs:72-88 | output block k is the transformed exclusive or of input block k and the output block before it, or the initialisation vector |
| Cbc.DecryptIffEncrypt | src/software_symmetric.rs:54-110 | decryption of c gives p exactly when encryption of p gives c |
| Cmac.DoubledIsTimesX | src/software_symmetric.rs:352-362 | doubling is multiplication by x in GF(2^64) or GF(2^128) on the big-endian value |
| Cmac.FieldPolynomials | src/software_symmetric.rs:359 | the polynomials are x^64+x^4+x^3+x+1 and x^128+x^7+x^2+x+1 |
| Cmac.TimesXMeaning | src/software_symmetric.rs:352-362 | the product has fewer than n bits and is 2v or differs from it by the polynomial |
| Cmac.DoubleInPlace | src/software_symmetric.rs:352-362 | the shifting loop with conditional reduction computes it in place |
| Cmac.ComputeLastSubkey | src/software_symmetric.rs:364-385 | K1 for a complete last block, K2 otherwise, with the error cases |
| Cmac.SubkeyMeans | src/software_symmetric.rs:364-385 | the last subkey is x·L when the data fills its last block, else x·(x·L), L the encrypted zero block |
| Cmac.PreparedMeans | src/software_symmetric.rs:398-416 | the prepared message byte by byte: data, 0x80, zeros, with the subkey in the last block only |
| Cmac.BlockAtIsPrepared | src/software_symmetric.rs:435-447 | the blocks built one at a time are the blocks of the padded and masked message |
| Cmac.CmacWith | src/software_symmetric.rs:426-458 | the block loop returns the chaining value of the prepared message |
| Cmac.CmacWithCbc | src/software_symmetric.rs:391-423 | the two-call form returns the last block of the callback's output on the prepared message |
| Cmac.LastBlockIsChain | src/software_symmetric.rs:72-88 | the last block of a CBC encryption is that chaining value, and the two fail alike |
| Cmac.TwoFormsAgree | src/software_symmetric.rs:387-458 | the two forms give the same result for every message and both block sizes |
| Ctr.CtrWith | src/software_symmetric.rs:461-504 | the counter loop encrypts all counter blocks in one call and masks the input with them; each error exactly when its check is the first to fail |
| Ctr.OutputMeans | src/software_symmetric.rs:474-503 | output byte i is input byte i masked with byte i of the encrypted counter blocks, as many as the input needs |
| Ctr.CounterFields | src/software_symmetric.rs:481-492 | counter block k keeps the bits above the counter and advances the counter by k, wrapping |
| Ctr.CounterBlockAt | src/software_symmetric.rs:489-493 | block k of the counter string is counter block k |
| Ctr.CtrIsInvolution | src/software_symmetric.rs:461-504 | counter mode maps x to y exactly when it maps y to x |
| Ctr.CountersCoincide | src/software_symmetric.rs:481-493 | counter blocks i and j are equal exactly when i and j agree modulo 2^bits; the 128-bit wrap loses nothing |
| Ctr.CountersDistinctIff | src/software_symmetric.rs:474-493 | the counter blocks of a call are distinct exactly when there are at most 2^bits |
| Ctr.CountersRepeat | src/software_symmetric.rs:467-493 | a call with more blocks than the counter has values is accepted and repeats a counter block |
| Keystream.XorChunks | src/software_symmetric.rs:567-577 | masking chunk by chunk is masking the whole payload |
| Ccm.MacInputInjective | src/software_symmetric.rs:584-607 | equal MAC inputs have equal tag length, nonce, associated data and payload |
| Ccm.FlagsFields | src/software_symmetric.rs:586-588 | the flags octet has the bit fields of section 2.2 of RFC 3610 |
| Ccm.FirstBlockLayout | src/software_symmetric.rs:585-592 | B0 is flags, nonce and payload length |
| Ccm.HeaderLayout | src/software_symmetric.rs:595-600 | the associated-data length takes two octets below 65280, else ff fe and four |
| Ccm.MacInputLayout | src/software_symmetric.rs:584-607 | the MAC input byte by byte: B0, header, associated data, zeros, payload, zeros |
| Ccm.CounterLayout | src/software_symmetric.rs:552-560 | counter block j is the length octet, the nonce and j |
| Ccm.RejectionIff | src/software_symmetric.rs:517-550 | exactly which lengths pass the checks |
| Ccm.AcceptedIsValid | src/software_symmetric.rs:517-550 | whatever passes the checks fits its fields, so truncating the counter and length loses nothing |
| Ccm.CountersDistinct | src/software_symmetric.rs:546-560 | the counter blocks of a call are pairwise distinct and none is the B0 block |
| Ccm.CounterBlockAt | src/software_symmetric.rs:551-560 | block k of the counter string is counter block k |
| Ccm.CcmWith | src/software_symmetric.rs:508-626 | the counter, masking and MAC-input loops give the payload masked with the encrypted counters and the truncated masked CBC-MAC of the plaintext, and each error exactly when its check is the first to fail |
| Ccm.EncryptionMeans | src/software_symmetric.rs:561-626 | payload byte i is masked with byte 16+i of the encrypted counters, tag byte i is the MAC's masked with byte i |
| Ccm.EncryptionSucceeds | src/software_symmetric.rs:508-626 | with valid lengths and sound callbacks encryption succeeds |
| Ccm.DecryptIffEncrypt | src/software_symmetric.rs:508-626 | decryption of c gives p exactly when encryption of p gives c, for every callback |
| Gcm.IncrementInPlace | src/software_symmetric.rs:641-644 | the low 32 bits advance with wrap-around, the other bytes stay |
| Gcm.InitialCounterIs | src/software_symmetric.rs:698-705 | J0 is a 12-byte vector followed by 1 in 32 bits, else the hash with the vector as its ciphertext |
| Gcm.CounterFields | src/software_symmetric.rs:641-644 | after k increments the low word is (start + k) mod 2^32 and the rest is unchanged |
| Gcm.CountersDistinct | src/software_symmetric.rs:688-715 | J0 and all counters of a call are pairwise distinct, wrapped or not |
| Gcm.CountersLayout | src/software_symmetric.rs:710-715 | block k of the counter string is J0 with its low 32 bits advanced by k |
| Gcm.TagIsLeadingBits | src/software_symmetric.rs:646-656 | the tag is the leading bits of the full tag followed by zeros, for every bit length |
| Gcm.GcmWith | src/software_symmetric.rs:664-753 | the loops give the payload masked with the encrypted counters after J0 and the tag over the ciphertext in both directions, and each error exactly when its check is the first to fail |
| Gcm.EncryptionMeans | src/software_symmetric.rs:693-753 | the hash key is the encrypted zero block; payload byte i is masked with byte 16+i of the encrypted counters; the tag is that of associated data and ciphertext |
| Gcm.EncryptionSucceeds | src/software_symmetric.rs:664-753 | with lengths within the limits and an encryptor that keeps lengths, encryption succeeds |
| Gcm.DecryptIffEncrypt | src/software_symmetric.rs:664-753 | decryption of c gives p exactly when encryption of p gives c, for every tag bit length, callback and hash |
| RsaPss.EncodedDigest | src/rsa_signing.rs:441-474 | the buffer work produces the masked padding block, the hash of eight zero bytes, digest and salt, and the trailer, for an explicit salt; errors as the sizes demand |
| RsaPss.EncodingMeans | src/rsa_signing.rs:457-473 | the encoding byte by byte: masked zeros, one and salt, the hash of eight zero bytes, digest and salt, the trailer |
| RsaPss.EncodingFits | src/rsa_signing.rs:470 | as a number the encoding has at most modulusBits−1 bits |
| RsaPss.EncodeRefuses | src/rsa_signing.rs:446-456 | exactly when the encoder refuses |
| RsaPss.BoundMeans | src/rsa_signing.rs:470 | the first byte keeps 8 less the unused bits |
| RsaPss.MaskedTwice | src/rsa_signing.rs:467-470 | masking and clearing the unused bits twice gives back any block whose first byte fits |
| RsaPss.VerifyEncodedDigest | src/rsa_signing.rs:497-554 | accepts exactly leading zeros followed by an encoding of the digest under some salt of the configured length, for every modulus size; digest-length and key errors exactly when due |
| RsaPss.EncodingIffChecks | src/rsa_signing.rs:517-553 | the verifier's checks hold exactly of the encodings |
| RsaOaep.PadDigest | src/rsa_signing.rs:362-391 | the in-place masking produces zero byte, masked seed and masked data block for an explicit seed; the saturating guard included |
| RsaOaep.PadMeans | src/rsa_signing.rs:372-390 | the encoding byte by byte: zero, the seed masked from the masked block, and digest, zeros, one and message masked from the seed |
| RsaOaep.PadUnderflows | src/rsa_signing.rs:369-373 | the subtraction goes below zero exactly for an empty message and fewer than hLen+2 bytes |
| RsaOaep.Scan | src/rsa_signing.rs:344-359 | the branch-free scan finds the message exactly when the first byte that is not zero is one |
| RsaOaep.UnpadDigest | src/rsa_signing.rs:321-360 | returns m exactly when the encoding unmasks to zero byte, label digest, zeros, one, m |
| RsaOaep.UnpadIffPad | src/rsa_signing.rs:321-391 | that is exactly when the encoding has at least 2·hLen+2 bytes and padding m under some seed produces it |
| RsaOaep.TooSmallModulus | src/rsa_signing.rs:369-375 | below that size padding the empty message succeeds and the result is rejected |
| RsaPkcs1.Unpad | src/rsa_signing.rs:206-224 | the branch-free scan accepts exactly 0, 2, at least eight nonzero bytes, 0, message |
| RsaPkcs1.Type2IffPad | src/rsa_signing.rs:206-247 | those are exactly the padder's outputs of at least eleven bytes |
| RsaPkcs1.PadUnderflows | src/rsa_signing.rs:230-233 | the subtraction goes below zero exactly for an empty message and fewer than three bytes |
| RsaPkcs1.TooSmallModulus | src/rsa_signing.rs:230-233 | below eleven bytes padding the empty message succeeds and the result is rejected |
| EcdsaDer.DerLength | src/software_signing.rs:733-745 | returns n exactly when the minimal encoding of the length n stands at the offset, and moves past it |
| EcdsaDer.DerPositiveInteger | src/software_signing.rs:747-766 | returns v exactly when the minimal encoding of v stands at the offset, and moves past it |
| EcdsaDer.ZeroIsRead | src/software_signing.rs:755-765 | the single content octet 0 is read, alone and as both numbers of a signature |
| EcdsaDer.PositiveExceptZero | src/software_signing.rs:755-765 | the magnitude read is positive exactly when the content is not that octet |
| EcdsaDer.SignatureFromDer | src/software_signing.rs:770-794 | accepts exactly the minimal encodings of pairs that fit the width, and returns the two left-padded numbers |
| EcdsaDer.ContentMeans | src/software_signing.rs:755-765 | the content octets denote the number in two's complement and their first nine bits are not all equal |
| EcdsaDer.LengthMeans | src/software_signing.rs:736-743 | a length below 128 is its own octet, else one octet announces the one that follows |
| EcdsaDer.SignatureMeans | src/software_signing.rs:776-788 | tags, lengths and contents of the whole signature |
| EcdsaDer.ReaderIsCanonical | src/software_signing.rs:769-794 | two accepted byte strings with the same output are equal |
| EcdsaDer.ReaderIsComplete | src/software_signing.rs:769-794 | every pair of numbers within the width and a 255-byte content has its minimal encoding accepted and mapped to the fixed-width pair |

## Left out

- ScalarSum.MultiplySum: associativity of the chord-and-tangent sum is a hypothesis (`IsGroup`); closure, commutativity and the neutral element are proved.
- Brainpool.VerifyWith: the equivalence assumes that the curve points form a group (p prime, associative sum) and that the generator is on the curve.
- Brainpool.VerifyPrehash: primality of p and associativity for the constants are hypotheses.
- Brainpool.HonestSignatureHolds: states the equation on numbers (`HonestSignatureVerifies` states it on bytes); primality and associativity as above, primality of n and the generator's order are hypotheses.
- Brainpool.SecondSignature: states the equation on numbers (`SecondSignatureVerifies` states it on bytes); the same hypotheses, and that the key has order n.
- Brainpool.HonestSignatureVerifies: rests on the same hypotheses.
- Brainpool.HonestSignatureAccepted: rests on the same hypotheses, for the constants.
- Brainpool.SignatureIff: rests on the same hypotheses.
- Brainpool.SecondSignatureVerifies: rests on the same hypotheses, and that every curve point has order n.
- Brainpool.ModInverseInverts: the library's modular inverse is modelled by the extended Euclidean algorithm.
- MlDsaValidation.Validate: splitting, decoding and packing of the key are parameters, and so is the sampled matrix (the ExpandA rejection loop depends on the extendable-output function).
- MlDsaValidation.ValidSmallSecretEncoding: asks for 2·eta below 2^24, which keeps the 32-bit accumulator from overflowing; the parameter sets use eta 2 and 4.
- RsaPrivate.ProbablePrime: probabilistic error bounds are not stated, only what holds of every run; the same for public validation.
- RsaPrivate.ValidateWithRng: the round count is a parameter, because the floating-point `validation_strength` estimate is not modelled beyond its size bounds; the blinded private operation is a parameter.
- Cmac.TwoFormsAgree: encryptors that return a block of the wrong length are excluded, because the CBC callback's error type cannot carry the resulting error.
- Cbc.DecryptIffEncrypt: asks of the callback what a block cipher gives: a permutation of blocks whose decryption works block by block.
- Gcm.GcmWith: GHASH itself is a parameter; its length limits are modelled.
- Pkcs7.Apply: the machine-word overflow of the padded length is not modelled.
- RsaPkcs1.Pad: the padding bytes that the redraw loop produces are an argument; the loop's termination depends on the random source.
- RsaOaep.Pad: a length subtraction below zero, where the source panics, is an error value here.
- Failure of the random source in the OAEP, PSS and PKCS #1 padders: seed, salt and padding are arguments.
- The rejection of a zero batching delay (src/state_persistence.rs:89-98), so the model allows any delay, and the failure callback.
- Shifts, masks and disjoint bitwise or are written with division, remainder and addition; exclusive or is defined bit by bit.
- File locking, atomic rename, synchronisation to disk and temporary-file naming (src/state_persistence.rs): a write is one step that succeeds or fails.
- Fairness of the operating system's scheduler: the step system allows any interleaving, and liveness is stated as bounds on steps.
- Constant-time behaviour and zeroization.
- The field and scalar types of src/brainpool512.rs:1-191, which instantiate external crates.
- Certificate parsing and path validation, key agreement, key encodings, counter KDF, secure channel, ARKG and hybrid KEM: adapters over libraries, or easier properties than those above.
