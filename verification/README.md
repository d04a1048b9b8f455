# A shielded ledger, modelled and proved

This project models the core of a shielded-payment ledger: notes hidden behind commitments in a
depth-32 Merkle tree, nullifiers that mark notes as spent, checkpoints that filter and apply ordered
batches, a stake-backed rate-limiting lane, a fixed-point issuance schedule, the wire format, the
wallet's transfer builder, replicated commit and restart from a store. What is proved about it:

- **Value conservation** (`Conservation`): after every checkpoint of every run, the summed value of the
  notes not yet consumed is the recorded supply; no leaf is consumed twice, no two notes share a rho,
  and every consumed note was a leaf sealed under the anchor it was proven against.
- **The Merkle tree** (`Merkle`, `Tree`): the level-by-level loops compute the root of the full padded
  tree; every witness verifies; every accepted path whatever names the padded leaf at its position, or
  two different inputs with one hash can be pointed at.
- **Runs of the ledger** (`Ledger`, `LedgerMachine`, `Batches`, `Runs`, `QuotaRuns`), restarts from a
  snapshot included: no double spend, exact rejection reasons, rejected transactions without effect, the
  exact anchor window, the exact supply and audit, the quota registry as exactly the accepted shares, and
  the rate limit that follows.
- **The quota field** (`Modular`, `Fermat`, `Mersenne`, `Field`, `Quota`): 2^61 - 1 is proved prime (a
  Lucas-Lehmer argument), the square-and-multiply loop is exponentiation, the Fermat inverse is an
  inverse, and two shares of one slot give back the secret.
- **End to end** (`Payments`): at any checkpoint of an honest run, what conservation says about notes makes
  every wallet that keeps its own notes healthy, its builder succeeds exactly when funds and range allow,
  and the ledger accepts the result exactly under a condition stated on the ledger's state.
- **Issuance** (`Emission`), **codecs, framing and the bytes behind every hash** (`Hashing`, `Formats`,
  `Interfaces`, `Codec`, `Tx`),
  **canonical order and replicas** (`Consensus`), **the spend statement** (`Prover`, `Book`), **the
  wallet** (`Wallet`) and **persist/restore** (`Storage`).

`dafny verify dfyconfig.toml` checks everything.

## Reading guide

Objects the program mutates are classes (`CommitmentTree`, `QuotaRegistry`, `LedgerObject`, `Cluster`,
`Store`, `WalletObject`); their methods keep the loops of the program and are proved against functions on
values, about which the theorems are stated. `Run` is a sequence of ledger states, each `Apply` of the
one before, or of the state restored from its snapshot where the run has a restart;
`LedgerObject.ApplyCheckpoint` is proved to move exactly as `Apply`.

**Hashes.** `Hashing.Blake3` is an uninterpreted constant, so every statement holds for every function
from labelled byte strings to 32 bytes. A function into 32-byte strings cannot be injective, so nothing
assumes it is. The Merkle theorems end in "or here are two different inputs with one hash". The ledger
theorems speak of `log`, the inputs hashed during the run (each `Logs...` predicate lists them), and
assume only that no two different inputs *in the log* share a digest.

**Hypotheses of conservation.** `HonestRun` spells them out. (1) Each accepted transaction carries the
public inputs `prove` derived from a satisfying witness, and one `SpendingKey` supplied both its nullifier
key and its address tag; the development verifier cannot establish either, by design, and `Wallet`
shows that its own transfers satisfy both. (2) No collision in the log. (3) Allocation notes have
different rho values, unlike any derived later.

**Where the code does not do what one might expect.**

- The spend statement never compares the witness's mint value with the public one:
  `UncheckedMintValue` gives a witness that creates value under a public mint value of zero, and
  `BalanceAgainstPublicMint` says that the statement balances publicly exactly when the two agree.
- `field::sub` is subtraction exactly when the subtrahend is at most the minuend plus P (`SubExact`,
  `SubWrongOutOfRange`). Shares taken from the wire are not reduced, so `admit` can miss: it recovers the
  secret exactly when the stored y is at most the new y plus P, or the stored x is 0
  (`InterpolateExactly`, `WireSlashExactly`); `RaisedShareMisses` is such a share.
- Nothing ties a rate nullifier to who uses it. `CopiedNullifierSlashes` is a run in which a copied one,
  with an arbitrary y, makes its owner's only signature answer `Slash`; `AdmitExactly` says for every run
  and every proof which answer `admit` gives.
- With a zero weight sum nothing is minted while the audit still counts emission
  (`AuditFailsAtZeroWeight`); `AuditExactly` gives the exact condition. The audit's sum is taken in 64 bits
  and modelled with its wrap-around, as in a build without overflow checks.
- One-byte list lengths make the public-input encoding injective on lists up to n entries exactly when
  n < 256 (`EncodeInjectiveExactly`).
- The commit order is independent of the order of submission exactly when no two different submitted
  transactions share a binding digest (`OrderIrrelevantExactly`), which covers neither the proof nor the
  anti-spam body (`OrderMatters`).
- A restart forgets older anchors and used quota slots. `RestartReadmits` is a transaction rejected
  before and accepted after under the development verifier; `RestoreVerdictExactly` and
  `RestoreSimulates` say exactly which verdicts and which summaries change, and `RestartFades` that
  nothing ever does if nothing in the first 1023 checkpoints did. The comment in `restore` that a restart
  is safe because epochs roll over and no invalid spend is admitted holds in this sense: from the next
  epoch on no quota transaction is affected (`LaterUnaffected`), no double spend and conservation are
  proved for runs with restarts anywhere, and each restart within an epoch grants a note at most its
  quota once more (`RateLimit`).
- The wallet pads with dummies of constant entropy, so all its transfers from fewer than two notes reveal
  one common nullifier: `BuildTransfer` says exactly which do, and a run accepts at most one of them
  (`OneDummyTransfer`).

## Model

| member | source | states |
|---|---|---|
| `Conservation.ValueConserved` | crates/state/src/lib.rs:109-200 | by induction over every honest run: each leaf is the commitment of its note, rho values are pairwise different and accounted for, consumed positions are pairwise different with public nullifiers, and the unconsumed value equals `supply` |
| `Conservation.SupplyIsUnspentValue` | crates/state/src/lib.rs:203-208 | the conclusions in plain terms for the last state: supply equals the value of unconsumed notes, no two leaf notes share a rho, no position is consumed twice, every consumed position is a leaf |
| `Conservation.ConsumedWereSealed` | crates/prover-dev/src/lib.rs:86-111 | every non-dummy input of an accepted transaction is the note behind a leaf that was already in the tree at the height of the transaction's anchor, less than 1024 checkpoints ago |
| `Conservation.StepConserved` | crates/state/src/lib.rs:109-200 | one whole checkpoint, filter, append and mint, keeps the conservation invariant |
| `Conservation.BatchBalanced` | crates/state/src/lib.rs:121-171 | the accepted part of any batch keeps the invariant without changing the unconsumed value, and its commitments are those of the outputs |
| `Conservation.SpendKeepsBook` | crates/prover-dev/src/lib.rs:72-141 | one accepted transfer consumes sealed, unconsumed leaves, adds fresh notes and leaves the unconsumed value as it was |
| `Conservation.MintBalanced` | crates/state/src/lib.rs:173-186 | rewards add notes with fresh rho values and raise unconsumed value and supply by the same amount |
| `Conservation.RewardsFresh` | crates/state/src/lib.rs:176-186 | the rewards of a new height carry pairwise different rho values that no earlier note has |
| `Conservation.OutputsFresh` | crates/prover-dev/src/lib.rs:113-128 | each output of a transfer with a new first nullifier carries a rho no earlier note has |
| `Conservation.FreshTransfer` | crates/notes/src/lib.rs:50-55 | a transfer rho bound to a nullifier never accepted before differs from every earlier rho: allocation, reward or transfer |
| `Conservation.FreshMint` | crates/notes/src/lib.rs:56-59 | a reward rho of a height not reached before differs from every earlier rho |
| `Book.InputIsLeaf` | crates/prover-dev/src/lib.rs:95-106 | an input whose path verifies against a sealed root is the very note behind the leaf at its position modulo 2^32, and not a padding leaf |
| `Book.RespendRepeats` | crates/prover-dev/src/lib.rs:100-111 | spending a note already spent, under any key that owns it, repeats a public nullifier |
| `Book.SpentInput` | crates/prover-dev/src/lib.rs:86-111 | an input of an accepted transaction names a sealed leaf not consumed before and reveals its nullifier |
| `Book.NewPosition` | crates/prover-dev/src/lib.rs:86-111 | nor was that leaf consumed by an earlier input of the same transaction |
| `Book.ConsumeInputs` | crates/prover-dev/src/lib.rs:84-111 | after any number of the inputs, the unconsumed value has dropped by exactly their value |
| `Prover.CheckSpendStatement` | crates/prover-dev/src/lib.rs:72-141 | the loops accept exactly the spend statement and otherwise report the first violated constraint in program order |
| `Prover.CheckInput` | crates/prover-dev/src/lib.rs:86-111 | the first violated constraint of one input, checked with the real path loop |
| `Prover.NoViolationExactly` | crates/prover-dev/src/lib.rs:72-141 | no violation is reported if and only if all of C0 to C8 hold |
| `Prover.InputViolationExactly` | crates/prover-dev/src/lib.rs:86-111 | the exact condition of each of the five violations of an input, the range being 2^62 |
| `Prover.OutputViolationExactly` | crates/prover-dev/src/lib.rs:113-128 | and of the three of an output |
| `Prover.SpendViolationExactly` | crates/prover-dev/src/lib.rs:72-141 | which violation a witness is reported for: arities, binding, the first failing input, the first failing output, the mint range, the balance |
| `Prover.SortedInputs` | crates/prover-dev/src/lib.rs:46-49 | canonicalizing keeps the inputs as a multiset and puts their nullifiers in ascending order |
| `Prover.BalanceAgainstPublicMint` | crates/prover-dev/src/lib.rs:130-140 | a satisfied statement balances against the public mint value exactly when the witness repeats it, as pairs built by `public_inputs` do |
| `Prover.UncheckedMintValue` | crates/prover-dev/src/lib.rs:72-141 | a satisfying witness for public mint value zero whose outputs are worth one more than its inputs |
| `Prover.Prove` | crates/prover-dev/src/lib.rs:149-160 | succeeds exactly on witnesses that satisfy the statement once canonical, returning their public inputs and the padded tag |
| `Prover.OneProof` | crates/prover-dev/src/lib.rs:164-180 | the verifier accepts exactly one byte string per public input, the one `prove` emits |
| `Prover.VerifyErrors` | crates/prover-dev/src/lib.rs:164-180 | malformed exactly at a wrong length or nonzero padding, invalid exactly at a wrong tag |
| `Prover.ProofBinds` | crates/prover-dev/src/lib.rs:290-297 | no bytes pass for two different public inputs, unless hashes collide |
| `Merkle.ClimbBinds` | crates/tree/src/lib.rs:166-178 | any list of siblings that climbs to a node of the tree starts at the padded leaf its index bits select, or path and tree contain two different pairs with one hash |
| `Merkle.PathBinds` | crates/tree/src/lib.rs:166-178 | any path accepted against the root proves the padded leaf at its position modulo 2^32, or a collision between path and tree is exhibited |
| `Merkle.NodeBinds` | crates/tree/src/lib.rs:84-105 | two trees with an equal node agree on every padded leaf below it, or contain a collision |
| `Merkle.RootBinds` | crates/tree/src/lib.rs:84-105 | equal roots of trees without empty-digest leaves mean equal leaf lists, or the trees contain a collision |
| `Merkle.WitnessClimbs` | crates/tree/src/lib.rs:108-139 | the siblings handed out for a position climb, level by level, through the nodes above its leaf |
| `Merkle.WitnessVerifies` | crates/tree/src/lib.rs:166-178 | every witness below 2^32 verifies against the root of the padded tree |
| `Merkle.NoNodeCollision` | crates/tree/src/lib.rs:17-20 | a collision-free log of node hashes rules the collision alternative out |
| `Tree.EmptyRoots` | crates/tree/src/lib.rs:22-31 | entry d is the root of an all-empty tree of depth d |
| `Tree.ParentLevel` | crates/tree/src/lib.rs:90-102 | from the nodes of one level, padded by an empty root, the inner loop builds exactly the nodes of the next |
| `Tree.NextIsLevel` | crates/tree/src/lib.rs:90-102 | pairwise hashes of a level with an odd last node padded are the next level of the infinite padded tree |
| `Tree.CommitmentTree.Root` | crates/tree/src/lib.rs:84-105 | for every number of leaves, zero included, the loop returns the root of the recursive padded tree |
| `Tree.CommitmentTree.Witness` | crates/tree/src/lib.rs:108-139 | none exactly at or beyond the length; otherwise at every level the sibling node of the padded tree |
| `Tree.CommitmentTree.Append` | crates/tree/src/lib.rs:64-68 | adds one leaf at the end and returns its position |
| `Tree.CommitmentTree.Seal` | crates/tree/src/lib.rs:143-157 | adds the anchor of the current root and evicts from the front while too old |
| `Tree.EvictExactly` | crates/tree/src/lib.rs:149-155 | eviction leaves everything from the first anchor less than 1024 heights old, whatever the heights |
| `Tree.CommitmentTree.constructor` | crates/tree/src/lib.rs:47-53 | an empty tree with correct empty roots |
| `Tree.CommitmentTree.FromRawLeaves` | crates/tree/src/lib.rs:77-81 | a tree over exactly these leaves and no anchors |
| `Tree.VerifyPath` | crates/tree/src/lib.rs:166-178 | the loop accepts exactly the paths that climb to the root |
| `Tree.WitnessThenVerify` | crates/tree/src/lib.rs:236-250 | the witness of any stored position passes `verify_path` against the computed root |
| `Runs.NoDoubleSpend` | crates/state/src/lib.rs:121-166 | over every run from genesis, restarts included, all nullifiers of all accepted transactions are pairwise different, and the ledger's set is exactly them |
| `Runs.NoSharedNullifier` | crates/state/src/lib.rs:121-166 | no two transactions accepted anywhere in a run reveal a common nullifier |
| `Runs.AnchorWindow` | crates/tree/src/lib.rs:143-157 | the queue is exactly the anchors of heights max(0, h-1023) to h, or from the last restart on, each the root of the leaves at that height |
| `Runs.AnchorValidExactly` | specs/anchors.md:59-63 | an anchor is valid if and only if it was sealed, with that root, less than 1024 checkpoints ago and since the last restart, if any; the current anchor always is |
| `Runs.EvictWindow` | crates/tree/src/lib.rs:150-155 | on consecutive heights the eviction loop drops exactly the anchor 1024 back |
| `Runs.LeavesGrow` | specs/anchors.md:65-70 | earlier leaf lists are prefixes of later ones in every run |
| `Runs.SupplyAfter` | crates/state/src/lib.rs:173-186 | supply after n checkpoints is the allocation plus all emission, or the allocation alone at zero weight |
| `Runs.AuditExactly` | crates/state/src/lib.rs:203-208 | the 64-bit audit equation holds after a run if and only if the weights sum to something or the emission so far is a multiple of 2^64 |
| `Runs.AuditFailsAtZeroWeight` | crates/state/src/lib.rs:203-208 | a run of one empty checkpoint, one validator of weight zero and emission 1, whose audit fails |
| `QuotaRuns.RegistryExactly` | crates/state/src/lib.rs:141-152 | the registry of any run is exactly the slots and shares of the quota-lane transactions accepted since the last restart, one slot each |
| `QuotaRuns.RateLimit` | crates/antispam-quota/src/lib.rs:77-79 | over a whole run a note gets at most `quota()` accepted quota-lane transactions per epoch, times one plus the restarts within that epoch |
| `QuotaRuns.RateLimitByStake` | crates/antispam-quota/src/lib.rs:72-79 | over a run without restarts the number n of a note's accepted transactions in an epoch is at most one or has 1000 * n at most the stake |
| `QuotaRuns.SignedAccepted` | crates/state/src/lib.rs:141-152 | a transaction whose note signed its own binding digest is accepted if and only if it passes the other checks, its epoch is the next height divided by 100 and the slot is unused |
| `QuotaRuns.AcceptedEpochs` | crates/state/src/lib.rs:145-152 | quota-lane proofs accepted between two checkpoints carry the epochs of the heights between them |
| `QuotaRuns.AdmitExactly` | crates/antispam-quota/src/lib.rs:206-227 | after any run, whoever made the proofs, `admit` answers `Slash` if and only if a proof accepted since the last restart filled the slot with another x, and `Duplicate` if and only if one did with the same x |
| `QuotaRuns.CopiedNullifierSlashes` | crates/antispam-quota/src/lib.rs:206-227 | a run of one transaction with a copied rate nullifier, accepted under the development verifier, after which the owner's only signature in that slot is answered `Slash` |
| `QuotaRuns.HonestNeverSlashed` | crates/antispam-quota/src/lib.rs:206-227 | corollary: where accepted proofs are signatures and rate nullifiers do not collide, a note that signs one message per slot is never slashed |
| `Runs.HeightAndConfig` | crates/state/src/lib.rs:188-189 | after n checkpoints the height is n and the configuration is unchanged |
| `Runs.RunLength` | crates/state/src/lib.rs:114-114 | the 64-bit height bounds every run |
| `Batches.BatchNullifiersFresh` | crates/state/src/lib.rs:132-161 | nullifiers accepted in one batch are pairwise different and new to the committed set |
| `Batches.RejectedExactly` | crates/state/src/lib.rs:121-152 | position i is listed with reason r if and only if r is the verdict after the accepted prefix |
| `Batches.DoubleSpendExactly` | crates/state/src/lib.rs:132-140 | `DoubleSpend` is reported exactly for transactions that pass the anchor and stateless checks and share a nullifier with the committed set or an earlier accepted transaction |
| `Batches.StaleExactly` | crates/state/src/lib.rs:122-126 | `StaleOrUnknownAnchor` is reported exactly for transactions whose anchor is not in the window |
| `Batches.StatelessInvalidExactly` | crates/state/src/lib.rs:127-131 | `StatelessInvalid` exactly for those with a valid anchor that fail stateless validation |
| `Batches.QuotaRejectedExactly` | crates/state/src/lib.rs:141-152 | `QuotaRejected` exactly for quota-lane transactions that pass the earlier checks and carry another epoch than the next height divided by 100, or a slot used before or earlier in the batch |
| `Batches.OutputPositionsExactly` | crates/state/src/lib.rs:167-171 | two reported positions for each accepted transaction, ascending from the old end of the tree, and at each of them the commitment it stands for |
| `Batches.RewardsPaid` | crates/state/src/lib.rs:173-186 | the leaf i places after the outputs commits to a note under validator i's tag, worth its proportion of the emission give or take less than a unit, with its own rho and rseed |
| `Batches.FilterIdempotent` | crates/state/src/lib.rs:121-161 | filtering the accepted subsequence accepts all of it and rejects nothing, through the stateful registry |
| `Batches.RejectedInert` | crates/state/src/lib.rs:121-200 | dropping the rejected transactions changes neither the whole next state nor the summary, its list of rejections aside |
| `Ledger.MintedExact` | crates/state/src/lib.rs:173-186 | a checkpoint mints exactly the emission of its height, or nothing at zero weight |
| `LedgerMachine.LedgerObject.constructor` | crates/state/src/lib.rs:67-90 | appending the allocation one note at a time and sealing height 0 gives the genesis state |
| `LedgerMachine.LedgerObject.Load` | crates/state/src/lib.rs:254-263 | a ledger around a loaded tree, with an empty registry |
| `LedgerMachine.LedgerObject.CurrentAnchor` | crates/state/src/lib.rs:98-103 | the height and the root of the padded tree over the current leaves |
| `LedgerMachine.LedgerObject.Judge` | crates/state/src/lib.rs:122-152 | the checks in program order reach the specified verdict, and the registry changes only on acceptance |
| `LedgerMachine.LedgerObject.Stage` | crates/state/src/lib.rs:121-161 | the loop stages exactly the effects of the filtered batch and leaves the registry after the accepted ones |
| `LedgerMachine.LedgerObject.AppendAll` | crates/state/src/lib.rs:169-171 | staged commitments are appended in order |
| `LedgerMachine.LedgerObject.Mint` | crates/state/src/lib.rs:176-186 | the reward loop appends each reward note's commitment and raises supply by the sum of the shares |
| `LedgerMachine.LedgerObject.ApplyCheckpoint` | crates/state/src/lib.rs:109-200 | the whole state moves exactly as `Apply` and the summary is exactly `Summarize` |
| `LedgerMachine.LedgerObject.AuditSupply` | crates/state/src/lib.rs:203-208 | true if and only if supply is the given allocation plus every emission so far, summed in 64 bits |
| `Mersenne.PIsPrime` | crates/antispam-quota/src/lib.rs:24-27 | 2^61 - 1 is prime |
| `Fermat.FermatLittle` | crates/antispam-quota/src/lib.rs:53-56 | a^(p-1) is 1 modulo every prime p that does not divide a |
| `Modular.HasInverse` | crates/antispam-quota/src/lib.rs:53-56 | modulo a prime, every number outside the zero class has an inverse |
| `Field.Pow` | crates/antispam-quota/src/lib.rs:41-52 | the square-and-multiply loop returns base^exp mod P for every base and exponent |
| `Field.Inv` | crates/antispam-quota/src/lib.rs:54-56 | computes a^(P-2) mod P |
| `Field.InvIsInverse` | crates/antispam-quota/src/lib.rs:53-56 | a times its computed inverse is 1 for every nonzero class |
| `Field.SubExact` | crates/antispam-quota/src/lib.rs:35-37 | `sub`, with its 128-bit wrap-around, is subtraction modulo P if and only if b <= a + P |
| `Field.SubWrongOutOfRange` | crates/antispam-quota/src/lib.rs:35-37 | a 64-bit operand for which it is not |
| `Field.SlopeRecovered` | crates/antispam-quota/src/lib.rs:217-220 | two shares at different points give back the slope of their line |
| `Field.SecretRecovered` | crates/antispam-quota/src/lib.rs:217-221 | and its constant term |
| `Field.InterpolateExactly` | crates/antispam-quota/src/lib.rs:217-221 | for shares on the line but not reduced, the constant term comes out if and only if y0 <= y1 + P or x0 is 0 |
| `Quota.SlashRecoversSecret` | crates/antispam-quota/src/lib.rs:203-227 | two signals of one note in one slot and epoch with different x make `admit` return exactly that note's secret |
| `Quota.WireSlashExactly` | crates/antispam-quota/src/lib.rs:206-227 | the same for `admit` on shares as they come over the wire: it returns the note's secret if and only if the stored y is at most the new y plus P, or the stored x is 0 |
| `Quota.RaisedShareMisses` | crates/antispam-quota/src/lib.rs:206-227 | a share raised by 2P, stored first, makes `admit` slash with something other than the note's secret |
| `Quota.QuotaRegistry.Admit` | crates/antispam-quota/src/lib.rs:206-227 | result and new registry for a fresh slot, a duplicate and a reuse |
| `Quota.AdmitThenRepeat` | crates/antispam-quota/src/lib.rs:203-227 | a fresh slot is admitted and recorded; the same proof again is a duplicate and changes nothing |
| `Quota.AdmitMonotone` | crates/antispam-quota/src/lib.rs:206-227 | the registry changes if and only if the proof is admitted, and no share is forgotten or overwritten |
| `Quota.RateNullifierBinds` | crates/antispam-quota/src/lib.rs:102-108 | in a collision-free log a rate nullifier determines key, epoch and slot number |
| `Quota.SignalExactly` | crates/antispam-quota/src/lib.rs:74-126 | slot k can be signed if and only if it is the first or 1000 * (k + 1) is at most the stake; the refusal names the quota; a signature carries its epoch and the message's x |
| `Quota.BytesLayout` | crates/antispam-quota/src/lib.rs:154-161 | epoch, rate nullifier, x and y lie at bytes 0, 8, 40 and 48 of 56 |
| `Quota.WriteBytes` | crates/antispam-quota/src/lib.rs:154-161 | the buffer filled field by field is the wire form |
| `Quota.FromBytes` | crates/antispam-quota/src/lib.rs:163-170 | every 56 bytes parse to a rate proof that prints back to them |
| `Quota.RateProofRoundTrip` | crates/antispam-quota/src/lib.rs:153-171 | printing and parsing a rate proof gives it back |
| `Emission.DecayStep` | crates/emission/src/lib.rs:39-51 | the factor never increases from one height to the next and never goes below zero |
| `Emission.DecayMonotone` | crates/emission/src/lib.rs:39-51 | nor over any span of heights |
| `Emission.DecayEnds` | crates/emission/src/lib.rs:39-51 | it is 2^32 at height 0 and zero from 33 half-lives on |
| `Emission.HalvingLaw` | crates/emission/src/lib.rs:39-51 | one half-life later it is exactly half, rounded up, below 32 half-lives |
| `Emission.DecayExactly` | crates/emission/src/lib.rs:39-51 | inside a half-life, r steps past q halvings, the factor is H = 2^(32-q) less the whole units of H * r / (2 * half_life) |
| `Emission.EmissionAt` | crates/emission/src/lib.rs:53-57 | emission lies between the tail and `e0` at every height |
| `Emission.EmissionExactly` | crates/emission/src/lib.rs:53-57 | emission is the tail plus the whole units of (e0 - e_tail) * factor / 2^32 |
| `Emission.EmissionSchedule` | crates/emission/src/lib.rs:53-57 | emission never increases, starts at `e0`, and is the tail from 33 half-lives on |
| `Emission.RemainderSmall` | crates/emission/src/lib.rs:71-95 | the leftover after the floors is below the number of validators |
| `Emission.PortionsSum` | crates/emission/src/lib.rs:71-95 | floors plus the handed-out remainder add up to the total |
| `Emission.PortionFits` | crates/emission/src/lib.rs:71-95 | no portion is negative or above the total |
| `Emission.SharesExact` | crates/emission/src/lib.rs:66-95 | each share is the floor of its exact proportion or one more, extra units going to lower indices, and all shares sum to the total, or to nothing at zero weight |
| `Emission.FloorShares` | crates/emission/src/lib.rs:77-86 | the first loop computes all floors and their sum |
| `Emission.HandOut` | crates/emission/src/lib.rs:87-94 | the second loop raises exactly the first `remainder` shares by one |
| `Emission.Distribute` | crates/emission/src/lib.rs:71-95 | both loops together compute exactly those shares; the remainder index never wraps |
| `Hashing.FrameInjective` | crates/primitives/src/lib.rs:11-18 | the byte stream fed to the hasher determines the list of parts, for any number and lengths of parts |
| `Hashing.ComputeHashParts` | crates/primitives/src/lib.rs:11-18 | the hasher loop absorbs exactly the framed stream |
| `Hashing.HashPartsInjective` | crates/primitives/src/lib.rs:11-18 | in a collision-free log equal digests mean equal label and equal parts |
| `Interfaces.Encode` | crates/interfaces/src/lib.rs:62-77 | the loops append exactly the canonical encoding, list lengths truncated to a byte |
| `Interfaces.EncodeInjective` | crates/interfaces/src/lib.rs:62-77 | the encoding determines every public input for lists below 256 entries |
| `Interfaces.EncodeInjectiveExactly` | crates/interfaces/src/lib.rs:62-77 | on lists of up to n entries the encoding is injective if and only if n < 256 |
| `Interfaces.EncodeCollidesAt256` | crates/interfaces/src/lib.rs:62-77 | two different public inputs, one with 256 nullifiers and one with 256 commitments, that share an encoding |
| `Bytes.LE8RoundTrip` | crates/interfaces/src/lib.rs:64-75 | little-endian words read back to themselves |
| `Bytes.LessTrichotomy` | crates/interfaces/src/lib.rs:28-32 | the byte order on digests is total and strict |
| `Bytes.LessTransitive` | crates/interfaces/src/lib.rs:28-32 | and transitive |
| `Bytes.LessLexicographic` | crates/interfaces/src/lib.rs:28-32 | and lexicographic: the first differing byte decides |
| `Notes.CommitmentBinds` | crates/notes/src/lib.rs:20-31 | in a collision-free log a commitment determines value, tag, rho and rseed |
| `Notes.NullifierBinds` | crates/notes/src/lib.rs:33-35 | a nullifier determines key and rho |
| `Notes.RhoTransferBinds` | crates/notes/src/lib.rs:50-55 | a transfer rho determines first nullifier and index |
| `Notes.RhoMintBinds` | crates/notes/src/lib.rs:56-59 | a reward rho determines height and index |
| `Notes.RhoKindsDiffer` | crates/notes/src/lib.rs:50-59 | transfer and reward rho values are never equal |
| `Notes.AddrTagBinds` | crates/keys/src/lib.rs:49-59 | an address tag determines the spending key |
| `Notes.NkBinds` | crates/keys/src/lib.rs:49-59 | a nullifier key determines the spending key |
| `Tx.ComputeBindingDigest` | crates/tx/src/lib.rs:101-116 | the parts pushed list by list are the eight bound fields in order |
| `Tx.BindingDetermines` | crates/tx/src/lib.rs:98-116 | the hashed stream determines every field of the transaction but proof and anti-spam body |
| `Tx.StatelessMeans` | crates/tx/src/lib.rs:216-249 | a transaction passes if and only if proof size, nullifier order, its lane's check and the proof are all right |
| `Tx.StatelessErrors` | crates/tx/src/lib.rs:216-249 | the exact condition of each error: size, nullifier order, lane, proof, in this order |
| `Tx.PowVerifyExactly` | crates/antispam-pow/src/lib.rs:60-62 | a nonce solves the puzzle at difficulty d if and only if the hash of challenge and nonce, as a number, is below 2^(256-d) |
| `Tx.CountLeadingZeroBits` | crates/antispam-pow/src/lib.rs:35-46 | the loop with its early exit counts the leading zero bits |
| `Tx.LeadingZeroBitsExactly` | crates/antispam-pow/src/lib.rs:60-62 | at least d leading zero bits if and only if the hash, read as a number, is below 2^(bits-d) |
| `Codec.WireExact` | crates/tx/src/lib.rs:45-68 | a tag and body parse to a lane if and only if they are that lane's own |
| `Codec.WriteBody` | crates/tx/src/lib.rs:45-52 | the zeroed buffer, overwritten for the lane, is its body |
| `Codec.Encode` | crates/tx/src/lib.rs:128-146 | appends exactly the specified encoding |
| `Codec.EncodeHasLayout` | crates/tx/src/lib.rs:128-157 | every field of an encoded transaction lies at its fixed offset, in 2964 bytes |
| `Codec.LaneLayout` | crates/tx/src/lib.rs:23-68 | tag 1, nonce and zero padding, or tag 2 and the rate proof's four fields, each at its offset in the transaction |
| `Codec.LayoutIsEncode` | crates/tx/src/lib.rs:159-208 | bytes with these fields at these offsets are that transaction's encoding |
| `Codec.EncodeTxInjective` | crates/tx/src/lib.rs:128-146 | different transactions have different encodings |
| `Codec.Decode` | crates/tx/src/lib.rs:159-208 | what it accepts re-encodes to the input, and what it rejects encodes no well-sized transaction: it accepts exactly the image of `encode` |
| `Codec.EncodeThenDecode` | crates/tx/src/lib.rs:283-297 | decoding an encoded transaction gives it back, in both lanes |
| `Consensus.ComputeCommitOrder` | crates/consensus/src/lib.rs:27-34 | the insertion loop computes `CommitOrder` |
| `Consensus.CommitOrderCanonical` | crates/consensus/src/lib.rs:27-34 | the order is strictly sorted by digest, holds every submitted digest once, and keeps the first transaction submitted under it |
| `Consensus.CommitOrderByDigest` | crates/consensus/src/lib.rs:27-34 | the same spelled out over binding digests |
| `Consensus.CanonicalUnique` | crates/consensus/src/lib.rs:27-34 | only one list has these properties |
| `Consensus.CommitOrderIdempotent` | crates/consensus/src/lib.rs:27-34 | ordering an ordered batch changes nothing |
| `Consensus.CommitOrderPermutes` | crates/consensus/src/lib.rs:27-34 | permuted submissions commit in the same order when digests determine transactions |
| `Consensus.OrderIrrelevantExactly` | crates/consensus/src/lib.rs:20-34 | and only then: submission order is irrelevant if and only if no two different submitted transactions share a digest |
| `Consensus.OrderMatters` | crates/consensus/src/lib.rs:20-34 | two transactions that differ in the proof alone: whichever is submitted first is the one committed |
| `Consensus.Cluster.constructor` | crates/consensus/src/lib.rs:56-71 | n separate replicas, all in the genesis state |
| `Consensus.Cluster.CommitRound` | crates/consensus/src/lib.rs:89-117 | whatever states the replicas are in, each moves on by the canonical batch, and agreement is reported if and only if all summaries match the first in root, count, supply and height |
| `Consensus.Cluster.CommitTogether` | crates/consensus/src/lib.rs:89-117 | replicas in one state end in one state and report agreement on its summary |
| `Consensus.Cluster.Audit` | crates/consensus/src/lib.rs:120-124 | true if and only if every replica's supply audits |
| `Consensus.ClusterRun` | crates/consensus/src/lib.rs:186-194 | any number of replicas through any sequence of rounds: all end in the same full state, that of the run of canonical batches, every round agrees and reports its height, root and supply, and the final audit holds exactly under the condition of `AuditExactly` |
| `Storage.Store.CommitCheckpoint` | crates/storage/src/lib.rs:56-79 | rows inserted in order, later ones winning, and both meta entries set |
| `Storage.Store.LoadLeaves` | crates/storage/src/lib.rs:109-123 | the rows' values in ascending key order, each key once |
| `Storage.Store.LoadNullifiers` | crates/storage/src/lib.rs:125-139 | exactly the keys of the nullifier table |
| `Storage.DenseKeys` | crates/storage/src/lib.rs:109-123 | ascending keys that are exactly 0 to n-1 come out as 0, 1, 2 and so on, so positions survive the reload |
| `Storage.PutNumbered` | crates/state/src/lib.rs:224-233 | after inserting all leaves at their positions the table holds them there, and its other rows |
| `Storage.Persist` | crates/state/src/lib.rs:220-235 | all three tables afterwards, for any store; it then holds exactly this state if and only if it held no leaf beyond the tree and no foreign nullifier |
| `Storage.Restore` | crates/state/src/lib.rs:240-264 | the ledger read from any store: rows in key order, nullifiers, height and supply or zero where none is stored, one anchor, no quota slots; from a store that holds exactly a state, that state up to anchors and slots |
| `Storage.PersistThenRestore` | crates/state/src/lib.rs:220-264 | the round trip, leaving the original ledger as it was |
| `Storage.SnapshotsChain` | crates/state/src/lib.rs:217-235 | the store of any earlier state of a run can take any later snapshot |
| `Storage.VerdictExactly` | crates/state/src/lib.rs:121-152 | a ledger and its restored counterpart judge a transaction differently if and only if it uses a forgotten anchor or reusing a forgotten slot is all that is wrong with it |
| `Storage.FilterExactly` | crates/state/src/lib.rs:121-161 | they reject the same from a batch if and only if that applies to none of it, and then accept the same |
| `Storage.SimulationStep` | crates/state/src/lib.rs:236-264 | one checkpoint gives both the same summary if and only if that applies to none of the batch, and then keeps them in step |
| `Storage.RestoreSimulates` | crates/state/src/lib.rs:236-264 | a ledger restored at checkpoint n and fed the rest of the run's batches reports the same k summaries if and only if the restart matters to nothing in them, and then holds the same leaves, nullifiers, height and supply |
| `Storage.PowUnaffected` | crates/state/src/lib.rs:236-264 | it never matters to proof-of-work transactions on anchors sealed since |
| `Storage.RegisteredEpochs` | crates/state/src/lib.rs:145-152 | after n checkpoints no registered slot belongs to an epoch later than that of height n |
| `Storage.LaterUnaffected` | crates/state/src/lib.rs:251-253 | from the next epoch on it matters to no quota transaction, and after 1023 checkpoints to no anchor |
| `Storage.RestartFades` | crates/state/src/lib.rs:236-264 | if it mattered to nothing in the first 1023 checkpoints it never does, and all later summaries agree |
| `Storage.RestoreVerdictExactly` | crates/state/src/lib.rs:251-258 | right after a restart and after any accepted prefix, the verdict on any transaction changes if and only if its anchor is valid but not current, or reusing a forgotten slot not used since was all that was wrong |
| `Storage.RestartReadmits` | crates/state/src/lib.rs:251-258 | a quota transaction the development verifier takes, rejected before a restart and accepted after it |
| `Wallet.SmallestCovering` | crates/wallet/src/lib.rs:98-106 | the first among the least valued notes that cover the amount, or none exactly when none does |
| `Wallet.TopTwo` | crates/wallet/src/lib.rs:107-112 | the two largest notes are worth at least any other two |
| `Wallet.SelectInputs` | crates/wallet/src/lib.rs:90-113 | each error exactly in its case; otherwise at most two different notes that cover the amount: the smallest single one, or the pair worth most |
| `Wallet.KeptExactly` | crates/wallet/src/lib.rs:77-86 | exactly the notes with unseen nullifiers remain |
| `Wallet.KeptComposes` | crates/wallet/src/lib.rs:77-86 | observing checkpoints one after the other leaves what observing them together leaves |
| `Wallet.WalletObject.ObserveNullifiers` | crates/wallet/src/lib.rs:79-86 | remembers all nullifiers, then keeps exactly the notes they do not spend |
| `Wallet.GatherInputs` | crates/wallet/src/lib.rs:135-154 | fails at the first note without witness, and otherwise gives the notes with their paths followed by dummies up to two |
| `Wallet.PaddingRevealed` | crates/wallet/src/lib.rs:144-154 | a transfer reveals exactly the dummies its selection calls for and otherwise the wallet's notes; the constant first dummy if and only if fewer than two notes were selected |
| `Wallet.SpentValue` | crates/wallet/src/lib.rs:77-86 | observing a transfer's own nullifiers takes exactly the selected value off the balance |
| `Wallet.OneDummyTransfer` | crates/wallet/src/lib.rs:144-154 | a run accepts at most one transaction of a wallet that reveals that nullifier |
| `Wallet.SelectedFit` | crates/wallet/src/lib.rs:135-154 | inputs gathered from a healthy wallet meet their constraints, differ in nullifier and are worth the selection |
| `Wallet.TransferHolds` | crates/wallet/src/lib.rs:156-207 | a transfer assembled this way satisfies the spend statement once canonical |
| `Wallet.ProveTransfer` | crates/wallet/src/lib.rs:156-220 | from fitting inputs and amounts in range a statelessly valid, honestly proven transaction with the sorted nullifiers, never for an amount out of range; it pays: `pay` holds the amount under the recipient's tag and `back` the change under the own tag, each bound to the first nullifier and encrypted to its owner |
| `Wallet.AssembledValid` | crates/wallet/src/lib.rs:206-220 | with its proof it passes stateless validation at difficulty 0 |
| `Wallet.WalletObject.BuildTransfer` | crates/wallet/src/lib.rs:118-221 | fails for lack of funds or of two covering notes exactly then; with a healthy wallet it otherwise succeeds if and only if the amount is in range; the transaction is statelessly valid and honestly proven, pays the recipient the amount, and what its nullifiers take off the balance is the amount plus the change; it reveals the dummy nullifier exactly unless every note alone is too small |
| `Wallet.LedgerWitnessSpendable` | crates/state/src/lib.rs:210-212 | the ledger's witnesses make every stored note of the wallet spendable at the current anchor |
| `Wallet.LedgerAccepts` | crates/state/src/lib.rs:121-152 | such a transaction is accepted by a ledger of any difficulty if and only if its nonce meets it, its anchor is still valid and neither nullifier was seen |
| `Payments.NotesApart` | crates/wallet/src/lib.rs:156-160 | where no two notes share a rho and hashes do not collide, the nullifiers of a wallet's notes and dummies are pairwise different |
| `Payments.HonestHealthy` | crates/wallet/src/lib.rs:118-221 | at every checkpoint of an honest run a wallet that keeps its own notes and takes its witnesses from the tree has all `build_transfer` needs |
| `Payments.PublicExactly` | crates/prover-dev/src/lib.rs:86-111 | in an honest run the nullifier of a leaf's note under its owner's key is public if and only if the leaf was consumed or a spend under that key revealed the note's rho from a dummy |
| `Payments.Unrevealed` | crates/wallet/src/lib.rs:144-154 | where a key's spends pad with the fixed dummies only, the nullifiers of its unconsumed notes are not public |
| `Payments.Pay` | crates/wallet/src/lib.rs:118-221 | a wallet with its own unconsumed notes builds a transfer if and only if its funds cover the amount in at most two notes and the amount is in range; it pays the recipient the amount and returns the rest of the spent value, and the ledger accepts it if and only if nonce 0 meets its difficulty and the padding was not revealed before |
| `Payments.PaymentArrives` | crates/state/src/lib.rs:153-171 | once a transaction with these output notes is accepted in an honest run, the book holds both side by side, and the holders of the keys behind their tags own them |
| `Payments.RewardOwned` | crates/state/src/lib.rs:173-186 | in an honest run validator i owns the note i places after a checkpoint's outputs, worth its proportion of the emission |
| `Formats.NoteStreams` | specs/notes.md:47-51 | the exact bytes hashed into a commitment and a nullifier |
| `Formats.RhoStreams` | specs/notes.md:55-59 | and into both kinds of rho |
| `Formats.KeyStreams` | specs/notes.md:12-16 | nullifier key and address tag from the spending key |
| `Formats.DummyStreams` | crates/notes/src/lib.rs:40-47 | a dummy's fields from its entropy, and the wallet's two constant dummies |
| `Formats.TreeStreams` | crates/tree/src/lib.rs:17-24 | a node hashes left, then right; the empty leaf hashes nothing |
| `Formats.FieldFromDigest` | crates/antispam-quota/src/lib.rs:59-62 | a field element is the first eight digest bytes, little-endian, modulo P |
| `Formats.QuotaStreams` | crates/antispam-quota/src/lib.rs:88-132 | the bytes behind secret, slope, rate nullifier and x |
| `Formats.PuzzleAndSeedStreams` | crates/antispam-pow/src/lib.rs:31-33 | the bytes of the puzzle, and of the wallet's derived seeds |
| `Formats.BindingStream` | crates/tx/src/lib.rs:98-116 | the eight bound fields of a transaction in order, each behind its length |
| `Formats.ProofStream` | crates/prover-dev/src/lib.rs:143-160 | the development proof is the hash of the 210 encoded bytes of the public inputs followed by 160 zeros |

## Left out

- BLAKE3, X25519, ML-KEM and ChaCha20-Poly1305: the hash, note encryption and address derivation are uninterpreted functions with stated lengths.
- crates/encryption and the address and KEM parts of crates/keys: thin wrappers over those libraries.
- Wallet scanning (`try_receive`): it depends on decryption only.
- Proof-of-work `solve`: its search has no termination guarantee; `verify` is modelled.
- Soundness of a proof system, zero knowledge and unlinkability: not implemented in these crates; conservation assumes honestly made proofs instead.
- redb transactions, file paths and storage errors: the three tables are maps with atomic update and key-ordered iteration.
- Iteration order of hash sets when persisting: nullifiers are listed in some order, and only the set is observable.
- BFT networking, crates/node, crates/sim, crates/testkit, crates/knockout and bench: demonstrations, finite test batteries and measurements.
- `RewardDescriptor` and simple getters: one-line compositions of modelled parts.
- In-place sorting in `canonicalize`, `select_inputs` and `build_transfer`, and the ordered map of `commit_order`: the library's sort and map are functions on sequences (insertion in key order), so their algorithms are not modelled.
- Conservation.ValueConserved: assumes `HonestRun`, which the development verifier does not enforce.
- QuotaRuns.HonestNeverSlashed: takes every accepted quota proof to be some note's signature, which the code does not enforce; `QuotaRuns.AdmitExactly` carries no such hypothesis.
- Tree.WitnessThenVerify: needs a position below 2^32, because `append` does not check capacity.
- Merkle.WitnessVerifies: needs a position below 2^32, for the same reason.
- Merkle.RootBinds: compares lists of at most 2^32 leaves none of which is the empty digest, since padding cannot be told from such a leaf.
- LedgerMachine.LedgerObject.ApplyCheckpoint: requires room for one more height and the minted reward in 64 bits, at most 128 validators, a positive half-life and `e0 >= e_tail`; outside these the program overflows or divides by zero.
- LedgerMachine.LedgerObject.AuditSupply: models the wrapping 64-bit sum of a build without overflow checks; a build with them stops instead once the sum passes 2^64.
- LedgerMachine.LedgerObject.constructor: requires the allocation to fit in 64 bits.
- Wallet.WalletObject.BuildTransfer: requires the wallet's balance to fit in 64 bits; says nothing about which of the later errors a wallet with bad witnesses gets.
- Storage.RestoreSimulates: compares with an original that itself goes on without restarts.
- Consensus.ClusterRun: requires at least one replica, as `commit_round` reads the first.
- Payments.Pay: assumes that accepted spends under the wallet's key padded with the fixed dummies, as `build_transfer` does and other software need not; and notes of value below the range limit, since an allocation may hold larger ones.
