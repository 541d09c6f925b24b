# MHE drivers: a Dafny model

Bob0724/MHE holds three demonstration drivers for multiparty homomorphic
encryption. Each sits on top of the lattigo library (RLWE and BGV/heint
schemes). The drivers do not implement cryptography themselves. They
arrange the library's calls into protocols:

- **MHE_CRS**: N = 40 parties share one common reference polynomial (CRP).
  They build one joint public key, each party encrypts a constant input
  vector under it, and ciphertexts 1 and 2 are added. Every decryption sums
  the partial decryptions of all N parties into a fresh accumulator, which
  one party then finalizes.
- **MHE_WCRS**: N = 100 parties, with no common reference string. Each
  party builds its own public key from its own CRP. It then bundles its
  two-component ciphertext into an extended ciphertext of N + 1 components:
  slot 0 is shared by everyone and slot i + 1 belongs to party i. Adding two
  such bundles and restricting them back gives per-party ciphertexts.
- **TMHE**: N = 100 parties with threshold t = 95. Each party Shamir-shares
  its key. Each party folds the evaluations it receives at its own public
  point. The quorum `parties[:t]` then reconstructs additive shares with the
  library's combiner, before key generation and before decryption.

Module map:

- `ring.dfy` (`RingQ`): the ring that `ringQ.Add`, `AggregateShares` and
  `Decryptadd` work in. It holds the group laws of coefficient-wise addition
  mod q, and the fold `Sum` into a freshly allocated (zero) share, with its
  order independence.
- `primitives.dfy` (`Primitives`): the boundary to the library. The library
  operations are fields of `Library`: each call is a deterministic function
  of its arguments (its randomness is not modelled), and beyond that only
  the shape of the results is assumed (`Library.Valid`).
- `computer.dfy` (`Computer`): `Computer.Add`, identical in the three
  drivers. It is an in-place loop over arrays, with its specification
  function `AddInto`.
- `protocols.dfy` (`Protocols`): the loops that MHE_CRS and TMHE share.
  These are collective key generation against one CRP, encryption of every
  input, and decryption by aggregated partial decryptions. `m` is the
  number of contributors: N, or t.
- `wcrs.dfy` (`MheWcrs`): the bundler (`extendCiphertext`, `reCiphertext`,
  `ctaddzero`), the per-party phases and the whole MHE_WCRS run.
- `tmhe.dfy` (`Tmhe`): Shamir set-up, the share matrix and its transposed
  aggregation, `combine`, the quorum reconstruction loops, a closed-form
  reference of the whole threshold session, and the TMHE run.
- `crs.dfy` (`MheCrs`): the whole MHE_CRS run.

Each driver's `Run` takes as parameters the secret keys, the sampled CRP(s)
and the input length `params.N()`. The party counts N and t are the lengths
and arguments passed in; the source fixes them at N = 40, N = 100, and
N = 100 with t = 95. The panics on a failing Encode, Encrypt,
GenShamirPolynomial or GenAdditiveShare become an `Err` result; the
`AggregateShares` and `Decode` error paths are not modelled (see below).

The bundler does not "give back" a party's ciphertext after an addition.
Restricting `Add(extend(a, i), extend(b, j))` to party i yields
`(a0 + b0, a1)`, not `a`. Slot 0 carries both summands' shared components.
The model follows the code: `MheWcrs.ReCiphertextOfSumIsInputIff` proves
that the restriction equals `a` exactly when `b0` is zero.

Two finalizers contribute nothing to the accumulator they finalize, and
the model keeps both as written. In TMHE, ciphertext j for j >= t is
finalized with party j's own, un-reconstructed key over the quorum's
partial decryptions (TMHE/main.go:262-274; `Tmhe.Run`). In MHE_WCRS, the
sum is finalized by party 0, whose partial decryption is never added,
because the loop starts at party 1 (MHE_WCRS/main.go:200-210;
`MheWcrs.DecryptSum`).

## Model

| member | source | states |
|---|---|---|
| RingQ.AddCommutes | MHE_WCRS/main.go:249 | ring addition of two elements is commutative |
| RingQ.AddAssociates | TMHE/main.go:138-145 | ring addition is associative, so folding shares into an accumulator one at a time equals adding their sum |
| RingQ.AddZero | TMHE/main.go:108 | a freshly allocated (zero) share is the neutral element on both sides |
| RingQ.AddCancels | MHE_WCRS/main.go:249 | `a + b == a` holds exactly when `b` is zero (both directions) |
| RingQ.SumSnoc | MHE_CRS/main.go:102-106 | aggregating one more share into the accumulator adds it to the sum of the earlier ones |
| RingQ.SumSingleton | MHE_WCRS/main.go:180-182 | folding a single contribution into a fresh share yields that contribution, so a lone partial decryption passed to Decryptall is a one-party fold |
| RingQ.SumMoveToEnd | MHE_CRS/main.go:176-182 | any one contribution can be moved to the end of the fold without changing the total |
| RingQ.SumPermutation | MHE_CRS/main.go:176-182 | folding any rearrangement (equal multiset) of the contributions gives the same total |
| Primitives.NewCiphertext | MHE_WCRS/main.go:226 | a fresh ciphertext of degree d has d + 1 components, all zero |
| Primitives.ConstInput | MHE_CRS/main.go:130-133 | party i's input has length `params.N()` and every entry equals i |
| Computer.Computer.Add | MHE_WCRS/main.go:245-251 | writes only `ctadd`. For every k below ct1's component count, slot k becomes the ring sum of the inputs' slots k; all other slots of `ctadd` keep their values; the inputs are unchanged unless one of them is `ctadd` itself |
| Computer.AddCiphertexts | MHE_CRS/main.go:159-161 | Add into a fresh copy of the destination gives exactly `AddInto` of the inputs |
| Computer.AddIntoSlot | MHE_CRS/main.go:233-235 | slot semantics of Add: slot k is `c1[k] + c2[k]` below ct1's length, and the destination's old slot k otherwise |
| Computer.AddIntoCommutes | TMHE/main.go:355-357 | Add of two equally long ciphertexts is commutative |
| Computer.AddIntoOverwrites | TMHE/main.go:240-242 | when ct1 covers the whole destination, its previous contents do not matter, and the result lies in the ring |
| Protocols.CkgRound | MHE_CRS/main.go:98-108 | share i is GenShare(sk_i, crp) for the single crp; the round share is the fold of all m shares from a fresh share; GenPublicKey is called once, on that total and the same crp |
| Protocols.EncryptInputs | MHE_CRS/main.go:123-150 | encryption succeeds exactly when every party's encode and encrypt succeed; ciphertext i is the encryption of constant input i under the joint key, with two ring components |
| Protocols.DecryptWith | MHE_CRS/main.go:197-207 | the accumulator receives exactly one partial decryption of the ciphertext from each of parties 0..m-1, in order, and is finalized once by party f on the same ciphertext |
| Protocols.DecryptEach | MHE_CRS/main.go:172-193 | ciphertext j is decrypted from the partial decryptions of parties 0..m-1 and finalized with party j's own key |
| Protocols.PartialSumOrderIrrelevant | MHE_CRS/main.go:176-182 | the aggregated decryption share does not depend on the order in which partial decryptions arrive |
| Protocols.CkgOrderIrrelevant | MHE_CRS/main.go:102-108 | the joint public key does not depend on the order in which key-generation shares are aggregated |
| MheWcrs.ExtendCiphertext | MHE_WCRS/main.go:225-230 | the extension has N + 1 components: slot 0 is ct's shared component, slot i + 1 is ct's own component, every other slot is zero |
| MheWcrs.ReCiphertext | MHE_WCRS/main.go:232-237 | the restriction is the two-component ciphertext (slot 0, slot i + 1) |
| MheWcrs.CtAddZero | MHE_WCRS/main.go:239-243 | the two-component ciphertext with the shared slot 0 and a zero second component |
| MheWcrs.ReExtendRoundTrip | MHE_WCRS/main.go:225-237 | restricting party i's extension to party i gives back its two-component ciphertext |
| MheWcrs.ExtendZero | MHE_WCRS/main.go:162-163 | extending the fresh degree-1 ciphertext gives the fresh degree-N ciphertext |
| MheWcrs.ReCiphertextOfAdd | MHE_WCRS/main.go:245-251 | restricting a sum of extended ciphertexts equals adding the restrictions: N independent additions sharing slot 0 |
| MheWcrs.NoCrossContamination | MHE_WCRS/main.go:162-165 | after adding the extensions of a (party i) and b (party j), i != j: party i's restriction is (a0 + b0, a1), party j's is (a0 + b0, b1), every other party's is (a0 + b0, 0); when i == j it is the slot-wise sum |
| MheWcrs.ReCiphertextOfSumIsInputIff | MHE_WCRS/main.go:201-202 | restricting the sum to party i returns a exactly when b's shared component is zero |
| MheWcrs.PerPartyKeys | MHE_WCRS/main.go:92-108 | party i's share is GenShare(sk_i, crp_i) against its own CRP, and its public key is GenPublicKey on that share and the same CRP |
| MheWcrs.EncryptExtended | MHE_WCRS/main.go:123-153 | succeeds exactly when every encryption does; ciphertext i is party i's encryption under its own key, extended into slot i + 1 |
| MheWcrs.ComputePhase | MHE_WCRS/main.go:160-165 | the sum is Add of the extended ciphertexts of parties 1 and 2 into a zero degree-N ciphertext |
| MheWcrs.DecryptOwn | MHE_WCRS/main.go:176-191 | party j restricts its own extended ciphertext to slot j + 1, computes one partial decryption with its own key and passes it straight to the finalization with the same key on the same ciphertext; that equals finalizing the one-party fold of that partial decryption |
| MheWcrs.DecryptSum | MHE_WCRS/main.go:200-210 | parties 1..N-1 each add one partial decryption of their own restriction of the sum; party 0 finalizes on the shared-slot ciphertext |
| MheWcrs.KeysAndCiphertexts | MHE_WCRS/main.go:87-153 | the public keys are the per-party keys, and ciphertext i is the extension of party i's own encryption |
| MheWcrs.Run | MHE_WCRS/main.go:75-221 | the whole run succeeds exactly when every encryption does. Each party decrypts exactly the ciphertext it encrypted. The sum's restrictions are (a0 + b0, a1) for party 1, (a0 + b0, b1) for party 2 and (a0 + b0, 0) for every other party. Party 0 finalizes (a0 + b0, 0) over the fold of parties 1..N-1's partial decryptions |
| Tmhe.ShamirSetup | TMHE/main.go:106-116 | succeeds exactly when every Shamir polynomial of threshold t can be generated. Party i then holds its key, a zero share, its polynomial, point i + 1 and no combiner. The point list is [1..N], strictly increasing and nonzero, hence distinct |
| Tmhe.GenShareMatrix | TMHE/main.go:124-136 | shares[i][j] is party i's polynomial evaluated at party j's point, for every ordered pair |
| Tmhe.AggregateReceived | TMHE/main.go:138-145 | each party's share becomes its old share plus the fold of column i of the share matrix (`shares[pj][pi]` over all pj); nothing else changes |
| Tmhe.Distribute | TMHE/main.go:117-147 | when t == N the parties are unchanged. Otherwise each party's combiner is configured with (own point, all points, t), and its share is its old share plus the fold of every party's evaluation at its point |
| Tmhe.FreshShareIsSumOfEvaluations | TMHE/main.go:108 | starting from the freshly allocated share, the accumulated share is exactly the fold of the N evaluations at the party's point |
| Tmhe.Combine | TMHE/main.go:328-345 | returns the party's own key when t == N; otherwise GenAdditiveShare on the online parties' points in order, the party's point and its share; a failure is an error |
| Tmhe.CombineQuorum | TMHE/main.go:162-164 | succeeds exactly when every combine of parties 0..t-1 succeeds; then only the secret keys of parties 0..t-1 change, each to its combined key |
| Tmhe.FullThresholdKeepsKeys | TMHE/main.go:331-332 | with t == N, reconstruction leaves every party unchanged |
| Tmhe.RecombineIsStable | TMHE/main.go:254-256 | reconstructing a second time with the same active points changes nothing |
| Tmhe.CombineKeepsPoints | TMHE/main.go:162-164 | reconstruction keeps every party's public point |
| Tmhe.ActivePointsArePrefix | TMHE/main.go:158-159 | the online parties `parties[:t]` contribute exactly the points 1..t, in order |
| Tmhe.DistributedCombinesToQuorumKey | TMHE/main.go:117-164 | after set-up and distribution, combining party i over [1..t] gives the reference key: sk_i when t == N, otherwise GenAdditiveShare((i+1, [1..N], t), [1..t], i+1, fold of the evaluations at i+1) |
| Tmhe.CombinedKeysAreSettled | TMHE/main.go:254-256 | after a reconstruction every quorum party already holds the key combine would give it |
| Tmhe.SharePhase | TMHE/main.go:95-147 | succeeds exactly when every Shamir polynomial can be generated; the points are [1..N] and each party combines to its reference key |
| Tmhe.KeyPhase | TMHE/main.go:77-188 | for every value of the -o flag, the online list is parties[:t] with the points 1..t (the flag's count is overwritten by t). Succeeds exactly when set-up and every quorum combine succeed; the keys are the quorum's combined keys followed by the untouched keys of parties t..N-1; the public key is the collective key of parties 0..t-1 against the single crp |
| Tmhe.Recombine | TMHE/main.go:253-256 | the second reconstruction, over any online list with the points 1..t, cannot fail and changes nothing |
| Tmhe.Run | TMHE/main.go:63-311 | the whole threshold run succeeds exactly when set-up, reconstruction and every encryption succeed. Ciphertext j is finalized by party j's key over the quorum's partial decryptions. The sum of ciphertexts 1 and 2 is finalized by party 1 over the quorum's partial decryptions |
| MheCrs.Run | MHE_CRS/main.go:61-221 | the whole run succeeds exactly when every encryption under the collective key of all N parties succeeds; ciphertext j is finalized by party j, and the sum of ciphertexts 1 and 2 by party 1, each over all N partial decryptions |

## Left out

- The lattice library (key generation, GenShare, GenPublicKey, Encode, Encrypt, Decryptpart, Decryptall, Shamir polynomials and shares, GenAdditiveShare) is a parameter of the model. Its cryptographic correctness, the noise and the correctness of Shamir reconstruction are not modelled.
- Every library call is modelled as a deterministic function of its arguments. The fresh sampling inside GenShamirPolynomial, GenShare and Encrypt is not modelled, so two calls with equal arguments give equal results.
- Tmhe.Recombine: its promise that the second reconstruction cannot fail relies on GenAdditiveShare being deterministic. Its first call on the same arguments already succeeded.
- Secret-key generation and CRP sampling use randomness. The keys and the sampled CRPs are inputs to each `Run`, and a failing `sampling.NewPRNG` is not modelled.
- Timing, printing, the `-o` flag parsing and the commented-out `fmt.Scanln` are not modelled. `Encoder.Decode` is used only to print results and is left out together with its error path.
- Pointer aliasing of `ring.Poly` and of `*party` is not modelled. Parties are value records, and each phase returns the updated records. The WCRS decrypt loop overwrites `parties[j].ct` with its restriction; the model returns the restrictions separately.
- The plaintext, ciphertext and partial-decryption buffers of a party are phase results rather than fields of `Tmhe.Party`.
- `AggregateShares` and `Decryptadd` are modelled as addition in the ring, and their error results are never raised. This includes the `AggregateShares` panic at TMHE/main.go:141-143. The `Ciphertext` level and `params.MaxLevel()` are not modelled.
- Computer.Computer.Add: does not model `ringQ.AtLevel(ct1.Level())`, because the model has a single modulus without RNS levels.
- Tmhe.Combine: `NewCombiner` is modelled as the record of its arguments, because the combiner's internals belong to the library.
- The `N` argument of `Computer.Add`, `reCiphertext` and `ctaddzero` is unused in the source and is carried through unused.
