# Multi-key FHE bootstrapping: a verified model

This project models the bootstrapping engine of a multi-key FHE library (`binfhe`) and proves what
its loops and whole runs compute. Ring elements are integer sequences of length N with the
negacyclic product of Z[X]/(X^N + 1); equalities that the library has modulo Q are stated as
congruences. Noise is part of every statement about keys and accumulators: a run ends with an equation
that holds for all keys, all ciphertexts and all noise within stated bounds, and the bounds are computed.
The functional programs take the error of each bootstrap as an input; `SingleKey.BootstrapFunc` is one
such bootstrap composed from its parts, with the bound on that error.

How the parts fit together:

| part | files | main results |
|---|---|---|
| ring and integer algebra | `Arithmetic`, `Ring`, `Modulus`, `SignedPermutation`, `RingVectors` | commutative ring laws by Horner evaluation, monomials X^e for every integer e, automorphisms X -> X^k as signed permutations, sizes of products |
| gadget decomposition | `Gadget` | exact recomposition with its carry, and exactly when a carry can occur |
| multi-key accumulators XZW and XZW_B | `HybridProduct`, `KeyAlgebra`, `BlindRotation`, `MultiKeyRun`, `MultiKeyEval`, `Transform`, `KeyGeneration`, `MkKeyGen` | hybrid product identity across k users, whole blind rotation with noise, exactly which r give the described key relation, runs from generated keys |
| multi-key LWE gate and circuits | `MkLwe`, `MkLweKeys`, `TestPolynomial`, `MkNand`, `MkGate`, `MkCircuit` | key and modulus switching, NAND closed under noise, arbitrary NAND circuits decrypt |
| LMKCDEY accumulator | `LogTable`, `RingGsw`, `RingGswKeys`, `PhaseTracking`, `Lmkcdey`, `LmkcdeySchedule`, `LmkcdeyExponent` | discrete-logarithm table, windowed automorphism schedule, whole run with noise |
| XZDDF accumulator | `VectorNtru`, `Xzddf`, `XzddfKeys` | telescoping automorphisms, whole run with noise, generated keys and when they encrypt X^m |
| DM and CGGI accumulators | `DmAccumulator`, `CggiAccumulator` | both rotate by X^(-(2N/q)<a,s>) |
| functional bootstrapping | `FunctionalBootstrap`, `LargePrecision`, `LargeSign`, `SignLoop`, `SwitchChain`, `SingleKey` | EvalFunc, EvalFloor, EvalSign, EvalDecomp with bootstrap errors; one bootstrap end to end |
| ring-GSW gates | `GateTables`, `SingleKeyGates` | truth tables of all gate constants, all eleven gates end to end |
| matrix-NTRU | `MatrixNtru`, `MatrixSwitch`, `MntruNand`, `MntruGate` | blocked product, table lookup, phase preservation, NAND end to end |

What follows the code where its comments or documentation differ:

- The decomposition keeps a final carry in {0, 1}. It is part of every identity; `Gadget.NeverCarries`
  says for which parameters it is always 0 and `Gadget.CarryExample` gives a coefficient that carries.
- The comments of the XZW key generators describe d_i = r·CRS_i + e + m·g_i, but r is held in
  evaluation format and the code multiplies CRS_i by its i-th stored value, the value of r at one root
  of X^N + 1. `KeyGeneration.IntendedRelation` states that the generated key satisfies the described
  relation if and only if, for every row i, r takes that value at every root where CRS_i is not zero;
  as soon as one CRS_i is invertible, `KeyGeneration.ConstantsOnly` says this means that r is a constant
  modulo Q. `KeyGeneration.IntendedRelationFails` generates a key that violates the relation, and
  `KeyGeneration.GeneratedEncrypts` says which noise a generated key really has. The results on the
  accumulators take the key relation with bounded noise as a hypothesis; `MkKeyGen.KeyGenAcc` shows that
  generated keys meet it when their noise, modulo Q, is within those bounds.
- EvalSign and EvalDecomp change the gadget base before they look up its key. `SignLoop.EvalSign` and
  `SignLoop.EvalDecomp` state exactly for which keys and moduli they succeed and for which the base is
  restored; `SignLoop.SignLosesBase` and `SignLoop.DecompLosesBase` are runs that end with another base.
- The vector-NTRU keys store X^m at position m mod N with a sign that depends only on m < 0. They encrypt
  X^m if and only if floor(m/N) is odd exactly for negative m (`XzddfKeys.KdmEncrypts`,
  `XzddfKeys.PlainEncrypts`), which covers -N <= m < N and fails first at N and -N - 1.
- KeyGenDM reduces a signed exponent as an unsigned number, which is correct for every exponent if and
  only if q divides the word size (`RingGswKeys.UnsignedReduction`).
- A periodic table whose first entry equals minus its middle entry is classified as arbitrary by
  checkInputFunction; `LargePrecision.PeriodicAsArbitrary` is one.
- The XZDDF key lookup index (k - 3)/2 inverts the key table exactly when 2N/q = 2
  (`Xzddf.IndexInverts`), which the runs assume.
- The matrix-NTRU gate returns (q/4)·NAND - q/8, not the encoding of its inputs; `Decrypt` accounts for
  the shift.

## Model

| member | source | states |
|---|---|---|
| Gadget.SignedDigitDecompose | src/binfhe/lib/mk-acc.cpp:54-80 | every stored digit of every coefficient equals the signed base-B digit modulo Q, added in place to the output |
| Gadget.DecomposeCoefficient | src/binfhe/lib/mk-acc.cpp:65-79 | one coefficient's digits land in its column and no other entry changes |
| Gadget.Recompose | src/binfhe/lib/mk-acc.cpp:54-80 | the centred value is the weighted sum of all signed digits plus B^D times the carry |
| Gadget.CarryOfCoefficient | src/binfhe/lib/mk-acc.cpp:65-79 | for every coefficient below Q the carry is 0 or 1, and it is 1 exactly when the centred value exceeds the largest D-digit value |
| Gadget.LargestForm | src/binfhe/lib/mk-acc.cpp:65-79 | the largest D-digit value is (B/2 - 1)(B^D - 1)/(B - 1) |
| Gadget.NeverCarries | src/binfhe/lib/mk-acc.cpp:54-80 | no coefficient carries if and only if Q/2 - 1 is at most the largest D-digit value |
| Gadget.CarryExample | src/binfhe/lib/mk-acc.cpp:65-79 | with B = 2^9 and three digits a modulus just below 2^27 has a coefficient that carries |
| Gadget.PowerTable | src/binfhe/lib/mk-cryptoparameters.cpp:27-34 | entry i of the table is B^i modulo Q |
| RingVectors.GadgetRecompose | src/binfhe/lib/mk-acc.cpp:54-80 | digits against (B, ..., B^(D-1)) give back the ring element modulo Q up to the dropped low digits and carries |
| RingVectors.DroppedBounded | src/binfhe/lib/mk-acc.cpp:54-80 | what is dropped is at most B/2, plus B^D - Q only if some coefficient can carry |
| HybridProduct.HbProdPhase | src/binfhe/lib/mk-acc-xzw.cpp:231-290 | for any number of users the phase after the product is m times the old phase plus an explicit error; all terms CRS·s_u cancel |
| KeyAlgebra.HbProdNear | src/binfhe/lib/mk-acc-xzw.cpp:231-290 | the error of the product is bounded by digits times noise, r times noise and dropped digits |
| BlindRotation.MultiplierIdentity | src/binfhe/lib/mk-acc-xzw.cpp:292-345 | 1 + (X^c - 1)(b+ - b- X^-c) is X^(c·s) for every ternary s and every c |
| BlindRotation.StepKeyFor | src/binfhe/lib/mk-acc-xzw.cpp:292-345 | the combined key of one step encrypts b+ - b- X^-c with twice the key noise |
| BlindRotation.FirstKeyFor | src/binfhe/lib/mk-acc-xzw.cpp:347-381 | the combined key of the first step encrypts X^(c·s)/s_0 with at most five times the key noise |
| BlindRotation.FirstKeyBinaryFor | src/binfhe/lib/mk-acc-xzw_B.cpp:333-379 | the same for binary secrets, with at most three times the key noise |
| BlindRotation.StepNear | src/binfhe/lib/mk-acc-xzw.cpp:292-345 | one update multiplies the phase by the monomial its key encrypts, up to the step bound |
| MultiKeyRun.FirstStepNear | src/binfhe/lib/mk-acc-xzw.cpp:347-381 | from (Rx, 0, ..., 0) the first step yields phase X^e·Rx: the key of 1/s_0 removes s_0 |
| MultiKeyRun.LaterStepNear | src/binfhe/lib/mk-acc-xzw.cpp:292-345 | every later step multiplies the phase by X^(c·s), in both variants |
| MultiKeyRun.RunNear | src/binfhe/lib/mk-acc-xzw.cpp:89-130 | after any number of users and coefficients the phase is Rx times X to the partial inner product, with the noise of that many steps |
| MultiKeyRun.EvalAccCorrect | src/binfhe/lib/mk-acc-xzw.cpp:89-130 | a complete run over k users and n coefficients ends at phase Rx·X^(inner product) with noise at most first bound plus (kn - 1) step bounds |
| MultiKeyEval.Decompose | src/binfhe/lib/mk-acc-xzw.cpp:231-290 | the decomposition buffer holds the digit vectors of the element |
| MultiKeyEval.InnerProduct | src/binfhe/lib/mk-acc-xzw.cpp:231-290 | the running sum of products is the inner product modulo Q |
| MultiKeyEval.HbProd | src/binfhe/lib/mk-acc-xzw.cpp:231-290 | the in-place loops compute the hybrid product of all users' elements |
| MultiKeyEval.MonomialTable | src/binfhe/lib/mk-cryptoparameters.cpp:53-70 | entry i is X^i - 1 modulo Q for every i below 2N, in both halves of the table |
| MultiKeyEval.AddToAccXZW | src/binfhe/lib/mk-acc-xzw.cpp:292-345 | the accumulator becomes acc plus the hybrid product of (X^c - 1)·acc with the combined key |
| MultiKeyEval.AddToAccXZWBinary | src/binfhe/lib/mk-acc-xzw_B.cpp:281-331 | the same with the single key of a binary secret |
| MultiKeyEval.AddToAccXZW0 | src/binfhe/lib/mk-acc-xzw.cpp:347-381 | the accumulator becomes its hybrid product with the combined first key |
| MultiKeyEval.AddToAccXZW0Binary | src/binfhe/lib/mk-acc-xzw_B.cpp:333-379 | the same for binary secrets |
| MultiKeyEval.MonomialIndexRange | src/binfhe/lib/mk-acc-xzw.cpp:107-127 | floor(x·2N/q) is a valid table index for every residue x |
| MultiKeyEval.EvalAcc | src/binfhe/lib/mk-acc-xzw.cpp:89-130 | the nested loops leave the accumulator of the complete run, in both variants |
| Transform.ValueMul | src/binfhe/lib/mk-acc-xzw.cpp:141-142 | the stored value of a product is the product of the stored values |
| Transform.CongByValues | src/binfhe/lib/mk-acc-xzw.cpp:141-142 | for a prime Q two elements are equal modulo Q if and only if all their stored values are |
| Transform.IntegerMultiple | src/binfhe/lib/mk-acc-xzw.cpp:167-167 | an integer multiple of c equals r·c if and only if r takes that integer as value at every root where c is not zero |
| KeyGeneration.KeyGen | src/binfhe/lib/mk-acc-xzw.cpp:132-229 | every row of the generated key has the form the code writes, with the stored values of r, for plain and key-dependent messages |
| KeyGeneration.PublicKeyGen | src/binfhe/lib/binfhe-base-scheme.cpp:316-331 | every user's public key satisfies b_i = e_i - CRS_i·s |
| KeyGeneration.GeneratedEncrypts | src/binfhe/lib/mk-acc-xzw.cpp:132-229 | the key generated for the bit m encrypts m, or m/s for a key-dependent key, with noise e0 + stored value·CRS - r·CRS |
| KeyGeneration.IntendedRelation | src/binfhe/lib/mk-acc-xzw.cpp:132-229 | the generated key satisfies the described relation with the sampled noise if and only if for every row i and every root, CRS_i is zero there or r takes its i-th stored value there |
| KeyGeneration.ConstantsOnly | src/binfhe/lib/mk-acc-xzw.cpp:167-167 | if some CRS_i is invertible, the described relation holds if and only if all coefficients of r but the first are zero modulo Q |
| KeyGeneration.IntendedRelationFails | src/binfhe/lib/mk-acc-xzw.cpp:167-167 | a key generated over Z_5[X]/(X^2 + 1) with r = X does not satisfy the described relation |
| MkKeyGen.GeneratedKeyFor | src/binfhe/lib/mk-acc-xzw.cpp:132-229 | a key generated from samples whose effective noise is small modulo Q is a key of its message within the noise bounds |
| MkKeyGen.CoefficientKeys | src/binfhe/lib/mk-acc-xzw.cpp:66-85 | evk+ encrypts 1 exactly for secret 1 and evk- exactly for secret -1, divided by s_0 for the first coefficient of the first user |
| MkKeyGen.KeyGenAcc | src/binfhe/lib/mk-acc-xzw.cpp:38-87 | the nested loops generate all keys that a run over the secrets t needs, in both variants |
| MkKeyGen.GenerateAndRun | src/binfhe/lib/mk-acc-xzw.cpp:38-130 | from generated keys a run over k users and n coefficients ends at phase Rx·X^(inner product) within the bound of the complete run |
| MkLwe.EvalAddEq | src/binfhe/lib/mklwe-pke.cpp:300-307 | all vectors and the scalar become the sums modulo q, in place |
| MkLwe.EvalSubEq | src/binfhe/lib/mklwe-pke.cpp:311-318 | all vectors and the scalar become the differences modulo q, in place |
| MkLwe.CombinePhase | src/binfhe/lib/mklwe-pke.cpp:300-318 | adding or subtracting ciphertexts adds or subtracts their phases modulo q |
| MkLwe.ModSwitch | src/binfhe/lib/mklwe-pke.cpp:160-171 | every coefficient is rounded to the new modulus |
| MkLwe.RoundWitness | src/binfhe/lib/mklwe-pke.cpp:12-17 | a rounded coefficient is the nearest integer to v·q/Q modulo q, halves rounded up |
| MkLwe.ModSwitchPhase | src/binfhe/lib/mklwe-pke.cpp:160-171 | the rescaled phase changes by at most (1 + sum of all secrets' absolute values)/2, modulo q |
| MkLweKeys.DigitsRebuild | src/binfhe/lib/mklwe-pke.cpp:266-288 | the least digit count with base^count >= Q rebuilds every coefficient below Q |
| MkLweKeys.KeySwitchEntry | src/binfhe/lib/mklwe-pke.cpp:218-235 | a generated table entry satisfies b = <a,s> + e + s_N·v·base^j |
| MkLweKeys.KeySwitchGen | src/binfhe/lib/mklwe-pke.cpp:176-256 | every entry of every user's table satisfies its relation, for all samples and errors |
| MkLweKeys.SwitchUser | src/binfhe/lib/mklwe-pke.cpp:273-288 | one user's table subtractions move the phase to the new secret, minus the selected errors |
| MkLweKeys.KeySwitch | src/binfhe/lib/mklwe-pke.cpp:260-291 | the phase changes by exactly the negated sum of the k·N·digitCount selected key errors |
| MkLweKeys.SwitchNoiseBound | src/binfhe/lib/mklwe-pke.cpp:260-291 | that sum is at most k·N·digitCount times one key error |
| MkLweKeys.Encrypt | src/binfhe/lib/mklwe-pke.cpp:36-64 | the phase of an encryption is (m mod p)·floor(q/p) plus the error |
| MkLweKeys.Decrypt | src/binfhe/lib/mklwe-pke.cpp:66-113 | decryption is floor(p·(phase + q/2p)/q) of the phase modulo q |
| MkLweKeys.DecryptsBit | src/binfhe/lib/mklwe-pke.cpp:66-113 | a bit with noise e decrypts correctly whenever 8·abs(e) + 16 <= q |
| MkLweKeys.DecryptsInWindow | src/binfhe/lib/mklwe-pke.cpp:66-98 | for every p every message m < p decrypts from the whole window of noise that rounds to m |
| MkLweKeys.DecryptsMessage | src/binfhe/lib/mklwe-pke.cpp:66-98 | for every p every message m < p decrypts whenever abs(e) + p <= q/(2p) |
| MkLweKeys.EncryptDecrypt | src/binfhe/lib/mklwe-pke.cpp:36-98 | decrypting an encryption of m < p returns m whenever abs(e) + p <= q/(2p) |
| TestPolynomial.RotatedHalfPlane | src/binfhe/lib/binfhe-base-scheme.cpp:1018-1026 | the constant coefficient of the rotated half-plane polynomial is -h exactly for exponents in (N/2, 3N/2] modulo 2N |
| TestPolynomial.RotatedTest | src/binfhe/lib/binfhe-base-scheme.cpp:1024-1043 | the coefficient loop computes X^b·Rx modulo Q |
| TestPolynomial.Extraction | src/binfhe/lib/binfhe-base-scheme.cpp:441-449 | the inner product with the transposed element is the constant coefficient of the ring product |
| MkNand.ExponentHalf | src/binfhe/lib/binfhe-base-scheme.cpp:396-407 | the exponent lies in the upper half circle exactly when NAND is 1, for all noise within the input budget |
| MkNand.OutputPhase | src/binfhe/lib/binfhe-base-scheme.cpp:450-460 | extraction, rounding and key switching leave (q/4)·m with noise at most E, within the output budget |
| MkNand.ExtractAll | src/binfhe/lib/binfhe-base-scheme.cpp:441-449 | summed over users the extracted vectors have the constant coefficient of the accumulator's phase |
| MkNand.FinalCoefficient | src/binfhe/lib/binfhe-base-scheme.cpp:1004-1067 | the final constant coefficient is h or -h by the exponent's half circle, up to the run's noise |
| MkGate.GateOutcome | src/binfhe/lib/binfhe-base-scheme.cpp:380-463 | two inputs encoding bits with noise E give an output encoding their NAND with noise E |
| MkCircuit.Prepare | src/binfhe/lib/binfhe-base-scheme.cpp:384-401 | 5q/8 - (ct1 + ct2) is computed on copies; the inputs are unchanged |
| MkCircuit.BootstrapGateCore | src/binfhe/lib/binfhe-base-scheme.cpp:1004-1067 | the accumulator is the complete run by -a from the rotated test polynomial |
| MkCircuit.ExtractSample | src/binfhe/lib/binfhe-base-scheme.cpp:441-449 | the loop transposes and reduces every accumulator element |
| MkCircuit.EvalBinGate | src/binfhe/lib/binfhe-base-scheme.cpp:380-463 | the gate is refused exactly for the same object twice; otherwise a new ciphertext carries NAND with the input noise bound |
| MkCircuit.EvalCircuit | src/binfhe/lib/binfhe-base-scheme.cpp:380-463 | any NAND circuit completes if and only if no gate reads one object twice, and then every wire carries its plaintext value with the noise bound of an input |
| MkCircuit.CarriesDecrypts | src/binfhe/lib/mklwe-pke.cpp:66-113 | what a wire carries is what decryption returns |
| LogTable.OrderOfFive | src/binfhe/lib/rgsw-cryptoparameters.cpp:112-124 | 5^d is 1 modulo 2N if and only if N/2 divides d |
| LogTable.PowersDistinct | src/binfhe/lib/rgsw-cryptoparameters.cpp:119-123 | the loop writes different slots in different iterations |
| LogTable.PlusMinusPower | src/binfhe/lib/rgsw-cryptoparameters.cpp:112-124 | every odd residue is 5^i or -5^i with i < N/2 |
| LogTable.LogGen | src/binfhe/lib/rgsw-cryptoparameters.cpp:112-124 | the table holds 0 for 1, 2N for -1, i for 5^i and -i for -5^i |
| LogTable.LogRoundTrip | src/binfhe/lib/rgsw-cryptoparameters.cpp:112-124 | every odd residue is recovered from its entry, so entries are distinct |
| LogTable.OddInvertible | src/binfhe/lib/vntru-acc-xzddf.cpp:60-64 | every odd residue has an inverse modulo 2N |
| SignedPermutation.BoundedAuto | src/binfhe/lib/rgsw-acc-lmkcdey.cpp:259-270 | for N a power of two an automorphism never enlarges coefficients |
| RingGsw.GadgetProductPhase | src/binfhe/lib/rgsw-acc-lmkcdey.cpp:231-257 | digits times key rows have phase w·(c - dropped) plus digits times noise |
| RingGsw.ExternalNear | src/binfhe/lib/rgsw-acc-lmkcdey.cpp:231-257 | the external product multiplies the phase by X^m up to its bound |
| RingGsw.RotatedNear | src/binfhe/lib/rgsw-acc-lmkcdey.cpp:259-290 | automorphism and key switch apply X -> X^k to the phase up to their bound |
| RingGsw.AddToAcc | src/binfhe/lib/rgsw-acc-lmkcdey.cpp:231-257 | both elements become digits times the key's columns modulo Q |
| RingGsw.Automorphism | src/binfhe/lib/rgsw-acc-lmkcdey.cpp:259-290 | the in-place loops compute the rotated and key-switched pair |
| RingGswKeys.KeyGen | src/binfhe/lib/rgsw-acc-lmkcdey.cpp:164-202 | a key generated for a signed m encrypts X^((m mod q)·(2N/q)) with exactly the sampled noise, also when the exponent is folded with a sign |
| RingGswKeys.UnsignedReduction | src/binfhe/lib/rgsw-acc-dm.cpp:91-93 | reducing m as an unsigned number agrees with m mod q for every m if and only if q divides the word size |
| RingGswKeys.KeyGenAuto | src/binfhe/lib/rgsw-acc-lmkcdey.cpp:205-227 | a generated automorphism key encrypts -z(X^k) with exactly the sampled noise |
| Lmkcdey.AddIndex | src/binfhe/lib/rgsw-acc-lmkcdey.cpp:231-257 | adding index j while the automorphism rho remains adds rho·e_j to the final exponent |
| Lmkcdey.Rotate | src/binfhe/lib/rgsw-acc-lmkcdey.cpp:259-290 | applying a factor of the remaining automorphism uses it up and keeps the final exponent |
| PhaseTracking.TrackAdd | src/binfhe/lib/rgsw-acc-lmkcdey.cpp:108-158 | the tracked exponent grows by the remaining automorphism times the key's exponent |
| PhaseTracking.TrackRotate | src/binfhe/lib/rgsw-acc-lmkcdey.cpp:108-158 | the tracked exponent is unchanged by an automorphism that was still to come |
| LmkcdeySchedule.BuildPermuteMap | src/binfhe/lib/rgsw-acc-lmkcdey.cpp:84-99 | the map holds exactly the nonempty buckets, each with its indices in order |
| LmkcdeySchedule.BeforeNext | src/binfhe/lib/rgsw-acc-lmkcdey.cpp:106-158 | moving past one schedule position picks up exactly the indices of its bucket |
| LmkcdeySchedule.BeforeAll | src/binfhe/lib/rgsw-acc-lmkcdey.cpp:106-158 | after the last position every index has been counted exactly once |
| LmkcdeySchedule.TailFactor | src/binfhe/lib/rgsw-acc-lmkcdey.cpp:104-134 | what remains at power i of the first walk is -5^i |
| LmkcdeySchedule.FullCircle | src/binfhe/lib/rgsw-acc-lmkcdey.cpp:104-158 | all automorphisms of a run compose to the identity |
| LmkcdeySchedule.Flush | src/binfhe/lib/rgsw-acc-lmkcdey.cpp:109-124 | a window 1..numAutoKeys has its key, and the pending power of 5 is applied |
| LmkcdeySchedule.Walk | src/binfhe/lib/rgsw-acc-lmkcdey.cpp:106-125 | one descending loop adds every bucket at its own power for every window size, ending with nothing pending |
| LmkcdeySchedule.EvalAcc | src/binfhe/lib/rgsw-acc-lmkcdey.cpp:71-159 | from (0, m) the run ends at m·X^(sum of odd_j·e_j), odd_j = (-a_j mod 2N) or 1, with the noise of n products and at most N - 1 automorphisms |
| LmkcdeyExponent.ScheduleExponent | src/binfhe/lib/rgsw-acc-lmkcdey.cpp:88-91 | for q dividing 2N that exponent is (2N/q)·(-<a,s> plus the secrets of the even a_j) modulo 2N |
| VectorNtru.FirstNear | src/binfhe/lib/vntru-acc-xzddf.cpp:165-186 | the product with a key-dependent key turns the element c into phase X^m·c |
| VectorNtru.LaterNear | src/binfhe/lib/vntru-acc-xzddf.cpp:165-186 | the product with a plain key multiplies the phase by X^m |
| VectorNtru.AutoNear | src/binfhe/lib/vntru-acc-xzddf.cpp:188-212 | automorphism and switch apply X -> X^k to the phase |
| Xzddf.AddToAcc | src/binfhe/lib/vntru-acc-xzddf.cpp:165-186 | the element becomes digits times key modulo Q |
| Xzddf.Automorphism | src/binfhe/lib/vntru-acc-xzddf.cpp:188-212 | the element becomes digits of its image under X -> X^k times key |
| Xzddf.IndexInverts | src/binfhe/lib/vntru-acc-xzddf.cpp:42-67 | the lookup index inverts the key table for every slot if and only if 2N/q = 2 |
| Xzddf.KeyIndex | src/binfhe/lib/vntru-acc-xzddf.cpp:67-74 | every odd automorphism other than 1 has its key at the computed index |
| Xzddf.StepFactorOdd | src/binfhe/lib/vntru-acc-xzddf.cpp:65-68 | w_i·w_(i+1)^-1 is odd and times w_(i+1) gives w_i |
| Xzddf.Telescoped | src/binfhe/lib/vntru-acc-xzddf.cpp:69-77 | the key of the sum of the secrets removes the +1 of every w_i |
| Xzddf.EvalAcc | src/binfhe/lib/vntru-acc-xzddf.cpp:48-77 | the run ends at m·X^(-2<a,s>) with the noise of at most 2n + 1 products |
| XzddfKeys.StoredMonomial | src/binfhe/lib/vntru-acc-xzddf.cpp:88-93 | the stored monomial is X^m if floor(m/N) is odd exactly for negative m, and -X^m otherwise |
| XzddfKeys.KDMKeyGen | src/binfhe/lib/vntru-acc-xzddf.cpp:80-107 | every row satisfies f·v = g + stored monomial·B^(i+1) |
| XzddfKeys.KeyGen | src/binfhe/lib/vntru-acc-xzddf.cpp:110-140 | every row satisfies f·v = g + f·stored monomial·B^(i+1) |
| XzddfKeys.KeyGenAuto | src/binfhe/lib/vntru-acc-xzddf.cpp:142-163 | every row satisfies f·v = g + f(X^k)·B^(i+1) |
| XzddfKeys.KdmEncrypts | src/binfhe/lib/vntru-acc-xzddf.cpp:80-107 | a key-dependent key encrypts X^m/f with the sampled noise if and only if floor(m/N) is odd exactly for negative m |
| XzddfKeys.PlainEncrypts | src/binfhe/lib/vntru-acc-xzddf.cpp:110-140 | the same for a plain key of X^m |
| XzddfKeys.FirstUnfaithful | src/binfhe/lib/vntru-acc-xzddf.cpp:119-123 | exponents N and -N - 1 are stored with the wrong sign |
| XzddfKeys.SumSecrets | src/binfhe/lib/vntru-acc-xzddf.cpp:29-37 | the loop computes the signed residue of the sum of the secrets |
| XzddfKeys.KeyGenAcc | src/binfhe/lib/vntru-acc-xzddf.cpp:8-46 | for secrets and their sum within half a turn the generated keys are all the keys a run needs |
| XzddfKeys.GenerateAndRun | src/binfhe/lib/vntru-acc-xzddf.cpp:8-77 | from generated keys the run ends at m·X^(-2<a,s>) when the sum of the secrets is in [-N, N) |
| DmAccumulator.WalkDigits | src/binfhe/lib/rgsw-acc-dm.cpp:70-77 | the digit walk, skipping zeros, rotates by (2N/q)·s_i·(-a_i mod q) |
| DmAccumulator.EvalAcc | src/binfhe/lib/rgsw-acc-dm.cpp:62-78 | the phase is multiplied by X^(-(2N/q)<a,s>) with the noise of at most n·digits products |
| CggiAccumulator.MuxNear | src/binfhe/lib/rgsw-acc-cggi.cpp:104-152 | the ternary multiplexer multiplies the phase by X^(e·s) with the noise of four products |
| CggiAccumulator.AddToAccCGGI | src/binfhe/lib/rgsw-acc-cggi.cpp:104-152 | both elements become c + t1·(X^e - 1) + t2·(X^-e - 1) modulo Q |
| CggiAccumulator.EvalAcc | src/binfhe/lib/rgsw-acc-cggi.cpp:60-69 | the phase is multiplied by the same X^(-(2N/q)<a,s>) as by the digit walk |
| FunctionalBootstrap.FuncPolynomial | src/binfhe/lib/binfhe-base-scheme.cpp:1265-1275 | slot j·(2N/q) holds floor(Q/fmod)·f(b - j) |
| FunctionalBootstrap.RotatedFunction | src/binfhe/lib/binfhe-base-scheme.cpp:1264-1288 | the constant coefficient after rotation is f at the phase, or -f half a turn further, by the half circle of <a,s> |
| FunctionalBootstrap.ScaledNegacyclic | src/binfhe/lib/binfhe-base-scheme.cpp:1272-1275 | for f(x) + f(x + q/2) = c·fmod both cases agree modulo Q up to c·(Q mod fmod) |
| FunctionalBootstrap.BootstrapPhase | src/binfhe/lib/binfhe-base-scheme.cpp:1293-1312 | bootstrapping a negacyclic f gives f at the phase plus the bootstrap's error, for every mask |
| SwitchChain.ChainPhase | src/binfhe/lib/binfhe-base-scheme.cpp:1304-1311 | modulus switch, key switch and modulus switch rescale the phase with three explicit error terms |
| SingleKey.Rotate | src/binfhe/lib/binfhe-base-scheme.cpp:1276-1288 | the accumulator's constant coefficient is that of the rotated test polynomial up to the noise of n multiplexers |
| SingleKey.SwitchDown | src/binfhe/lib/binfhe-base-scheme.cpp:1297-1311 | the refreshed sample has fm/Q times the extracted phase, with bounded noise |
| SingleKey.BootstrapFunc | src/binfhe/lib/binfhe-base-scheme.cpp:1252-1312 | for every ciphertext modulus dividing 2N the output carries the looked-up value with an error within the budget, as one bootstrap of the functional programs |
| LargePrecision.QuarterSignNegacyclic | src/binfhe/lib/binfhe-base-scheme.cpp:778-784 | the sign function passed first is negacyclic |
| LargePrecision.HalfTableNegacyclic | src/binfhe/lib/binfhe-base-scheme.cpp:792-797 | the doubled table function is negacyclic |
| LargePrecision.MiddleNegacyclic | src/binfhe/lib/binfhe-base-scheme.cpp:853-861 | the flooring function is negacyclic |
| LargePrecision.CheckInputFunction | src/binfhe/include/binfhe-base-scheme.h:116-131 | the class is 0 exactly for negacyclic tables and 1 exactly for periodic tables that do not start like a negacyclic one |
| LargePrecision.PeriodicAsArbitrary | src/binfhe/include/binfhe-base-scheme.h:116-131 | the periodic table 2, 1, 2, 1 modulo 4 is classified as arbitrary |
| LargePrecision.FoldPhase | src/binfhe/lib/binfhe-base-scheme.cpp:803-815 | the first bootstrap folds the phase into the first half circle, shifted by its error |
| LargePrecision.EvalFunc | src/binfhe/lib/binfhe-base-scheme.cpp:742-826 | in every class the result is the table at the rounded phase, shifted only by the first bootstrap's error; it is refused exactly for arbitrary tables with q > N |
| LargeSign.FloorPhase | src/binfhe/lib/binfhe-base-scheme.cpp:829-866 | the two bootstraps subtract exactly (x + beta) mod q; the first error cancels |
| LargeSign.EvalFloor | src/binfhe/lib/binfhe-base-scheme.cpp:829-866 | the result is (x + beta) - ((x + beta) mod q) minus the second error, for every x when the first error is 0; q is the modulus of the parameters, or 2·beta·2^roundbits when roundbits > 0 |
| LargeSign.EvalFloorBits | src/binfhe/lib/binfhe-base-scheme.cpp:829-866 | dropping r > 0 bits turns a phase 2·beta·m + e into 2·beta·2^r·floor(m/2^r) minus the second error |
| LargeSign.SwitchPhase | src/binfhe/lib/lwe-pke.cpp:281-288 | switching from modulus q·r to 2·beta·r turns q·m - e into 2·beta·m + e' with a bounded e' |
| LargeSign.ModSwitchDrift | src/binfhe/lib/lwe-pke.cpp:281-288 | rounding every coefficient of a moves the rounded inner product by at most (1 + sum of the secrets' absolute values)/2 |
| SignLoop.RoundHolds | src/binfhe/lib/binfhe-base-scheme.cpp:891-896 | one round replaces the message by floor(m/2^a) and keeps the noise margin |
| SignLoop.FollowModulus | src/binfhe/lib/binfhe-base-scheme.cpp:898-918 | with three keys a modulus below 2^18 takes base and key of 2^27, one in [2^18, 2^27) those of 2^18, a larger one keeps both (for EvalDecomp up to 2^17 and up to 2^26); it fails exactly when the key asked for is missing and then leaves that base in place; without three keys nothing changes |
| SignLoop.OneRound | src/binfhe/lib/binfhe-base-scheme.cpp:890-918 | one iteration drops the low digit and leaves the base that the new modulus asks for, independently of the bases before |
| SignLoop.ThreeSuffice | src/binfhe/lib/binfhe-base-scheme.cpp:903-906 | the keys of 2^18, 2^27 and the starting base are all that any run needs |
| SignLoop.EvalSign | src/binfhe/lib/binfhe-base-scheme.cpp:869-939 | the loop terminates and returns the top bit with the noise of the base in force; it succeeds if and only if the modulus is large and the key of the base in force at every visited modulus is present, so always with keys of 2^18, 2^27 and the starting base; the base is restored if and only if it succeeds, the modulus is small, or the first key is missing |
| SignLoop.SignLosesBase | src/binfhe/lib/binfhe-base-scheme.cpp:908-915 | a run with three keys that ends with another base than it started with |
| SignLoop.EvalDecomp | src/binfhe/lib/binfhe-base-scheme.cpp:942-1000 | ciphertext j carries digit j of the message to base q/(2·beta), the last one the leading remainder; base in force, success and restoring of the base as for EvalSign, with the rounded-up length |
| SignLoop.DecompLosesBase | src/binfhe/lib/binfhe-base-scheme.cpp:985-992 | the same loss of the base in EvalDecomp |
| SignLoop.DigitsAddUp | src/binfhe/lib/binfhe-base-scheme.cpp:942-1000 | those digits and the remainder add up to the message |
| GateTables.ArcNegacyclic | src/binfhe/lib/binfhe-base-scheme.cpp:1224-1230 | the gate's test function changes sign half a turn further, whichever end point is larger |
| GateTables.GateCoefficient | src/binfhe/lib/binfhe-base-scheme.cpp:1191-1246 | in signed representatives, the rotated constant coefficient depends only on b - <a,s>, through the half circle [q1, q1 + q/2) |
| GateTables.GateTruth | src/binfhe/lib/rgsw-cryptoparameters.cpp:77-89 | with bits encoded modulo p = 4 (6 for AND3 and OR3, 8 for AND4 and OR4) each of the eleven gate constants separates the false from the true inputs, for all noise in [-q/(2p), q/(2p)) when 2p divides q and up to q/(2p) - 48 otherwise |
| GateTables.GateEvaluates | src/binfhe/lib/binfhe-base-scheme.cpp:1191-1246 | the rotated constant coefficient is h or -h as the gate is true or false |
| SingleKeyGates.GatePolynomial | src/binfhe/lib/binfhe-base-scheme.cpp:1199-1230 | the loop stores the gate's test function at the slots of the sparse polynomial, in both orders of the end points |
| SingleKeyGates.EvalPrepared | src/binfhe/lib/binfhe-base-scheme.cpp:1191-1246 | a prepared ciphertext becomes an encoding of the gate's value with noise at most E |
| SingleKeyGates.PrepareInputs | src/binfhe/lib/binfhe-base-scheme.cpp:596-608 | the inputs are added up, or subtracted and doubled for the fast XORs |
| SingleKeyGates.EvalGate | src/binfhe/lib/binfhe-base-scheme.cpp:577-682 | for all eleven gates, on inputs whose own plaintext modulus is that of the gate (4, or 6 for AND3 and OR3, 8 for AND4 and OR4), the output carries the gate's value; it is refused exactly when an object occurs twice |
| MatrixNtru.ModQ | src/binfhe/lib/mntru-pke.cpp:408-418 | the signed C remainder with its correction is the non-negative residue |
| MatrixNtru.AddScaledRow | src/binfhe/lib/mntru-pke.cpp:530-559 | four entries at a time and then the rest: every entry gets its product, for every n |
| MatrixNtru.BlockedRow | src/binfhe/lib/mntru-pke.cpp:506-567 | the blocked, centred, lazily reduced row is the plain product modulo q |
| MatrixNtru.Embed | src/binfhe/lib/mntru-pke.cpp:464-491 | s_i·base^j is added to entry i·d + j of the first column and nowhere else |
| MatrixNtru.KeySwitchGen | src/binfhe/lib/mntru-pke.cpp:421-569 | the key is (E with the gadget multiples of s)·F^-1 modulo q |
| MatrixNtru.Associate | src/binfhe/lib/mntru-pke.cpp:519-562 | (x·M)·v = x·(M·v) |
| MatrixSwitch.DigitVector | src/binfhe/lib/mntru-pke.cpp:591-599 | entry i·d + j is digit j of coefficient i |
| MatrixSwitch.KeySwitch | src/binfhe/lib/mntru-pke.cpp:573-617 | the result is digits times key modulo q |
| MatrixSwitch.MultiplesTable | src/binfhe/lib/mntru-pke.cpp:743-753 | the table holds v·K for every digit v |
| MatrixSwitch.KeySwitch2 | src/binfhe/lib/mntru-pke.cpp:763-823 | adding table rows and skipping zero digits equals the plain product |
| MatrixSwitch.SwitchPhase | src/binfhe/lib/mntru-pke.cpp:421-617 | the phase under the first column of F is <c,s> plus the digits times the first column of E |
| MntruNand.FloorInnerAll | src/binfhe/lib/mk-acc-xzw.cpp:107-127 | rounding exponents down changes 2N/q times the phase by at most the sum of the key columns' absolute values |
| MntruNand.ExponentSide | src/binfhe/lib/binfhe-base-scheme.cpp:1091-1096 | the exponent lies in (N/2, 3N/2] exactly when NAND is 1 |
| MntruNand.DecodesWindow | src/binfhe/lib/mntru-pke.cpp:306-341 | for every p every message m < p is decoded from the whole window of phases between q·m/p and q·(m + 1)/p, less the shift q/p |
| MntruNand.DecodesNand | src/binfhe/lib/mntru-pke.cpp:306-341 | an output phase (q/4)·NAND - q/8 within q/8 decrypts to NAND |
| MntruGate.EncryptAll | src/binfhe/lib/mntru-pke.cpp:158-205 | the phase of an encryption is the encoded value plus the users' first errors |
| MntruGate.SwitchUsers | src/binfhe/lib/mntru-pke.cpp:763-823 | summed over all users key switching adds at most k·N·d·base times one error |
| MntruGate.BootstrapGateCore | src/binfhe/lib/binfhe-base-scheme.cpp:1072-1130 | the constant coefficient of the accumulator's phase is h or -h as NAND is 1 or 0, up to the run's noise |
| MntruGate.EvalBinGate | src/binfhe/lib/binfhe-base-scheme.cpp:467-515 | refused exactly for the same object twice; otherwise the output decrypts to NAND of the inputs |
| MntruGate.Decrypt | src/binfhe/lib/mntru-pke.cpp:306-341 | decryption is floor(p·(phase + q/p)/q) of the phase |
| MntruGate.EncryptNandDecrypt | src/binfhe/lib/binfhe-base-scheme.cpp:467-515 | encrypting two bits, generating the gate constant, evaluating the gate and decrypting returns NAND |

## Left out

- Random sampling and the search for invertible keys: keys, inverses and errors are inputs with stated relations and bounds.
- NTT, bit-reversal maps and the integer classes: `SetFormat` is the identity and `Transpose` is X -> 1/X.
- Word sizes: integers are unbounded; the shift pair in the digit extraction is modelled as the signed low digit.
- EvalFunc, EvalFloor, EvalSign and EvalDecomp work on samples (b, <a,s>, modulus) with the error of each bootstrap and the drift of each rounding as inputs; their bounds are `SingleKey.BootstrapFunc` and `LargeSign.ModSwitchDrift`.
- The single-key bootstrap and gates are composed with the CGGI accumulator only.
- Floating point: `RoundqQ` is exact rational rounding, and a digit count is any count with base^count at least the modulus.
- The binary accumulator has no keys of negative secrets; the model repeats evk+ in their place and never reads them.
- The matrix-NTRU gate with the binary accumulator: that combination passes unscaled residues as table indices, so only the ternary accumulator is composed with it.
- CMUX, XOR, XNOR, NOT and single-ciphertext refresh, which compose the modelled gates.
- Serialization, parameter sets, context wrappers, threading, timing and debug output.
- Security: only correctness under the stated bounds.
