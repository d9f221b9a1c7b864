# Verified model of the verify-pqc transparency stack

This project states, in Dafny 4.11, what the transparency layer of `packages/verify-pqc` does and proves it for all
sizes, inputs and runs. The repository's own SMT scripts cover a few fixed sizes of the same algorithms.

The hash is a function value `h: (T, T) -> T`. Collision resistance is `Injective(h)` and appears as a precondition
only where it is needed; leaves may coincide with node values. `Hashing.FREE` is a concrete injective hash. Signature
checks are booleans or function values supplied by the caller.

| file | contents |
|---|---|
| `Merkle.dfy` | the hash model; tree heads: the level-by-level build and the RFC 6962 split |
| `Inclusion.dfy` | inclusion prover, audit paths, the `fn`/`sn` walk |
| `Consistency.dfy` | consistency prover, the two-root walk, proof lengths, chains of heads |
| `Log.dfy` | the append-only log and the bundle verifier |
| `Witness.dfy` | the co-signing witness, its durable node with throwing, promised and late writes and restarts, the monitor |
| `Quorum.dfy` | k-of-n witnessing and the split-view bound |
| `Gossip.dfy` | the pairwise reconciler, on top of the real consistency walk |
| `IssuerKey.dfy` | the issuer-key replay over unbounded event logs |
| `Gateway.dfy` | the metered gateway under any interleaving |
| `Contexts.dfy`, `StepChain.dfy`, `Anchor.dfy`, `SigDiff.dfy` | context registry scan, hash-linked traces, anchor payload, signature comparison |

How the central proofs go. Both walks are read level by level: `Next` builds the level above, `Root` iterates it, and
`Path` lists the siblings met on the way. One step of the walk is one level up, so `WalkBinds` is a single induction;
`OldRootWalk` says the old root is folded alongside because the old tree's level is a cut of the new tree's level.
`RootJoins`, `PathJoins` and `BottomUpJoins` carry roots, paths and proofs across the largest-power-of-two split.
The issuer replay (filter, stable sort, one pass) is shown equal to `Greedy`, which takes the first acceptable event
of the unsorted log again and again; order independence is then a property of `Greedy`, and the chains that reordering
reaches are the maximal chains of custody, because `Greedy` takes any such chain put in front (`GreedyTakes`).

Functions that transcribe the source without a contract of their own are pinned by the rows below: `Next`, `Mth`,
`SubProof`, `Walk`, `Walk2`, `CosignStep`, `NodeStep`, `Vouchers`, `Counted`, `Judge`, `Accepts`, `HolderAt`,
`Arrive`, `Written` and `Inspect`.

## Where the code and its documentation disagree

The model follows the code.

- `pqgovern-witness.mjs:14-26` calls every detected disagreement undeniable and false equivocation impossible. The
  code reports a prefix violation whenever a supplied proof fails, so a wrong proof accuses an honest log
  (`HonestLogFramed`); `HonestEquivocationIff` gives the exact condition. An empty tree head next to any other head
  with a proof has the same effect.
- `pqgovern-witness.mjs:137-140` calls `consistent` a proven verdict. With no counted observation it is true as well,
  with no agreed head (`NothingCountedIsConsistent`).
- `pqkt.mjs:82-88` claims order independence from the signed seq, while `pqkt.mjs:18` lets the first of two conflicting
  branches win. Two validly signed events with one seq do resolve by array order, so a revocation can be outrun
  (`RevocationCanBeOutrun`). What reordering can reach is exactly the maximal chains of custody
  (`ReorderingsAreMaximalCustody`): the accepted chain is canonical if and only if the log is conflict-free
  (`OrderIrrelevantIffConflictFree`), the returned key if and only if those chains agree on it (`KeyIsCanonicalIff`).
- `pqkt.mjs:182-206`: a witness can co-sign the empty tree first (`EmptyHeadIsReachable`) and then refuses every later
  head (`EmptyHeadIsStuck`); `GrowthIsCosignedIff` gives the exact condition for following an honest log.
- `witness-service.mjs:35-38` means to fail closed on an asynchronous store. The failure still carries the
  co-signature, so a direct caller of `cosign` can hold two roots at one size after a restart: `CallersSafeIff`. The
  request handler strips it, and its clients are safe unless a store mixes confirmed and promised writes:
  `ClientsSafeIff`.
- `anchor_sth.py:58` calls the payload length-framed. It is not. `AmbiguousIffNul` says exactly which tree heads share
  their payload with another, and they include every head with a non-empty root and a size below 2^56
  (`SmallSizesAreAmbiguous`). Among roots of one length, or among NUL-free names, no two do (`PayloadBindsHead`).
- The pseudocode of the spine document and `rfc6962_consistency_algo_z3.py:80-113` have no size guard; `pqsign.mjs:64`
  and `pqsign.mjs:96` refuse trees above 2^32 - 1 leaves. `Checks` has no guard, the verifier methods include it.

## Model

| member | source | states |
|---|---|---|
| MerkleTree.LargestPow2Below | packages/verify-pqc/formal/rfc6962_consistency_algo_z3.py:52-56 | the doubling loop ends at the one power of two k with k < n <= 2k |
| MerkleTree.SplitUnique | packages/verify-pqc/formal/merkle_consistency_z3.py:51-56 | those bounds and being a power of two determine the split |
| MerkleTree.BuildLevel | packages/verify-pqc/pqsign.mjs:36-37 | one inner loop yields the level above: neighbours combined, a lone right node promoted |
| MerkleTree.NextAt | packages/verify-pqc/pqsign.mjs:37 | node i of the level above combines nodes 2i and 2i+1, or is node 2i when that is the last |
| MerkleTree.MerkleRoot | packages/verify-pqc/pqsign.mjs:32-41 | the level-by-level loop returns MTH of RFC 6962, or the empty-tree hash |
| MerkleTree.RootIsMth | packages/verify-pqc/formal/rfc6962_consistency_algo_z3.py:59-65 | bottom-up build and largest-power-of-two split give the same head for every size |
| MerkleTree.MthPinsLeaves | packages/verify-pqc/formal/merkle_consistency_z3.py:68-81 | no history rewrite: for lists of one length, equal heads if and only if equal lists |
| InclusionProof.ProveInclusion | packages/verify-pqc/pqsign.mjs:43-53 | the prover collects exactly the existing siblings of the climb, with their sides |
| InclusionProof.PathIsAuditPath | packages/verify-pqc/pqsign.mjs:42-61 | the siblings of the climb are PATH(m, D) of section 2.1.1 of RFC 6962 |
| InclusionProof.VerifyInclusion | packages/verify-pqc/pqsign.mjs:62-77 | the loop with its 32-bit guard decides Accepts |
| InclusionProof.InclusionIffAuditPath | packages/verify-pqc/pqsign.mjs:59-77 | against MTH(D), accepted if and only if the leaf is D[index], the path is the audit path and the size is within the guard |
| InclusionProof.GuardIs32Bits | packages/verify-pqc/pqsign.mjs:64 | the guard is the largest unsigned 32-bit size |
| InclusionProof.ProvableIff32Bits | packages/verify-pqc/pqsign.mjs:59-77 | a leaf has an accepted proof against its tree's head if and only if the tree has fewer than 2^32 leaves |
| InclusionProof.InclusionLength | packages/verify-pqc/pqsign.mjs:60-77 | for any hash and any values only the audit path's length can pass, and it is at most ceil(log2 n) |
| InclusionProof.CeilLog2IsLeast | packages/verify-pqc/pqsign.mjs:60-77 | the logarithm in the length bounds: 2^CeilLog2(n) is the least power of two not below n |
| InclusionProof.VerifyInclusionUnbound | packages/verify-pqc/pqsign.mjs:54-58 | the older verifier folds the siblings in the directions the proof claims |
| InclusionProof.FoldSides | packages/verify-pqc/pqsign.mjs:54-58 | which side a direction means: both one-step proofs of a two-leaf tree fold to its head |
| InclusionProof.FoldBinds | packages/verify-pqc/formal/merkle_inclusion_binding_z3.py:35-54 | along fixed directions of any depth, equal roots if and only if equal leaves and equal siblings |
| InclusionProof.FoldAcceptsSteps | packages/verify-pqc/pqsign.mjs:43-58 | the prover's directed steps fold every leaf to the root |
| ConsistencyProof.ProveSub | packages/verify-pqc/pqsign.mjs:81-87 | the recursive prover, on computed roots, returns SUBPROOF of section 2.1.2 of RFC 6962 |
| ConsistencyProof.ProveConsistency | packages/verify-pqc/pqsign.mjs:88-92 | the proof for 1 <= m <= n, null otherwise |
| ConsistencyProof.BitTrickIsPow2 | packages/verify-pqc/pqsign.mjs:98 | m & (m - 1) is zero exactly for powers of two |
| ConsistencyProof.Pow2StripsToZero | packages/verify-pqc/formal/rfc6962_consistency_algo_z3.py:88-95 | the power-of-two branch is taken exactly when shifting out trailing ones brings fn to zero |
| ConsistencyProof.VerifyConsistency | packages/verify-pqc/pqsign.mjs:94-116 | the nested loops with their 32-bit guard decide Checks |
| ConsistencyProof.NewRootWalk | packages/verify-pqc/formal/rfc6962_consistency_algo_z3.py:97-113 | the sr half of the walk is the inclusion walk from the same indices |
| ConsistencyProof.OldRootWalk | packages/verify-pqc/formal/rfc6962_consistency_algo_z3.py:97-113 | along the path of its last node the fr half computes the old tree's root, balanced or ragged |
| ConsistencyProof.SubProofIsBottomUp | packages/verify-pqc/pqsign.mjs:81-87 | the split recursion emits the path the walk consumes, with the start node dropped for powers of two |
| ConsistencyProof.ConsistencyIffPrefix | packages/verify-pqc/formal/rfc6962_consistency_algo_z3.py:80-132 | against MTH(D), accepted if and only if 1 <= m <= n, root1 is MTH(D[..m]) and the proof is the RFC 6962 proof: soundness, completeness and uniqueness at every size |
| ConsistencyProof.SubProofLen | packages/verify-pqc/formal/rfc6962_consistency_algo_z3.py:68-77 | the proof has the length computed from the two sizes |
| ConsistencyProof.ConsistencyLength | packages/verify-pqc/formal/rfc6962_consistency_algo_z3.py:68-113 | for any hash and values the indices run to the end exactly on that length, which is at most ceil(log2 n) + 1 |
| ConsistencyProof.WrongLengthRejected | packages/verify-pqc/formal/rfc6962_consistency_algo_z3.py:135-148 | every other proof length is rejected at every pair of sizes |
| ConsistencyProof.StepBack | packages/verify-pqc/pqsign.mjs:93-116 | a step to a prefix head of D is accepted if and only if it starts at a prefix head with the RFC 6962 proof |
| ConsistencyProof.ChainIsAppendOnly | packages/verify-pqc/formal/merkle_consistency_z3.py:2-29 | in a chain of accepted steps ending in the head of D every head is a prefix head and sizes never shrink |
| ConsistencyProof.CommittedLeavesSurvive | packages/verify-pqc/formal/merkle_consistency_z3.py:2-29 | a client that committed to leaves C under any head of the chain finds C at the front of D |
| TransparencyLog.Log.Append | packages/verify-pqc/pqsign.mjs:135 | the entry goes last and its index is returned |
| TransparencyLog.Log.TreeHead | packages/verify-pqc/pqsign.mjs:137-143 | the head is the number of entries and the head of their leaf hashes |
| TransparencyLog.PublishedIffHonest | packages/verify-pqc/pqsign.mjs:137-143 | the head a log publishes is the only honest one of its size, the empty-tree hash included |
| TransparencyLog.Log.InclusionOf | packages/verify-pqc/pqsign.mjs:144 | the record names index, size, leaf and the directed siblings |
| TransparencyLog.Log.ConsistencyFrom | packages/verify-pqc/pqsign.mjs:145 | the log hands out the RFC 6962 proof from any of its earlier sizes |
| TransparencyLog.VerifyBundle | packages/verify-pqc/pqsign.mjs:158-176 | all five checks, with the leaf recomputed |
| TransparencyLog.BundleIffLogged | packages/verify-pqc/pqsign.mjs:157-176 | against a log's head a signed bundle verifies if and only if it carries the logged leaf at its index, its audit path and the signed size |
| TransparencyLog.LoggedBundleVerifies | packages/verify-pqc/pqsign.mjs:133-176 | the log's own record verifies for every entry, under both inclusion verifiers |
| TransparencyLog.GrowthIsProvable | packages/verify-pqc/pqsign.mjs:133-146 | after any appends the old head passes with the log's proof and with no other root or proof |
| KeyWitness.Witness.constructor | packages/verify-pqc/pqkt.mjs:184-187 | the last head is the anchor and the seen map holds it, or both are empty |
| KeyWitness.Witness.Cosign | packages/verify-pqc/pqkt.mjs:191-205 | each verdict exactly when its own condition on the request and the old fields holds; a co-signature records the head, a refusal changes nothing |
| KeyWitness.CosignedIff | packages/verify-pqc/pqkt.mjs:191-200 | a coherent witness co-signs if and only if it is anchored or need not be, the log signed the head, no other root was seen at its size, and the head is the first, of a known size, or joined to the last one |
| KeyWitness.StepKeepsCoherent | packages/verify-pqc/pqkt.mjs:188-206 | kept by every step: the last head is the largest, and if it is a head of D every seen head is a prefix head of D |
| KeyWitness.CosignsExactlyPrefixes | packages/verify-pqc/pqkt.mjs:194-204 | when the larger of the two heads belongs to D, a coherent witness co-signs if and only if both are prefix heads of D, with the RFC 6962 proof for sizes new to it |
| KeyWitness.GrowthIsCosignedIff | packages/verify-pqc/pqkt.mjs:194-204 | a larger head of an honest log is co-signed exactly when the last head is not the empty tree, the size is within the guard and the proof is the RFC 6962 one |
| KeyWitness.EmptyHeadIsStuck | packages/verify-pqc/pqkt.mjs:196-200 | once the last head is the empty tree, every larger head is refused with any proof |
| KeyWitness.EmptyHeadIsReachable | packages/verify-pqc/pqkt.mjs:191-205 | a new witness shown the empty tree co-signs it and keeps it as its last head |
| KeyWitness.WitnessNode.constructor | packages/verify-pqc/witness-service.mjs:25-30 | start-up loads the stored seen map and last head over the configuration |
| KeyWitness.WitnessNode.Cosign | packages/verify-pqc/witness-service.mjs:31-44 | the reply, the store and the writes under way, by the witness's verdict and the three outcomes of a write; after a promise the failure carries the co-signature |
| KeyWitness.HandleCosign | packages/verify-pqc/witness-service.mjs:55-65 | a co-signature is sent exactly on success, with 200; a failure is 409 with the flags of the verdict, a missing head 400 |
| KeyWitness.ReleasedIsHandedOut | packages/verify-pqc/witness-service.mjs:31-64 | in every run, a head sent to a client was presented with the log's signature and its write returned |
| KeyWitness.HandedOutWasSigned | packages/verify-pqc/pqkt.mjs:193 | in every run, a head a direct caller holds was presented with the log's signature and its write did not throw |
| KeyWitness.UnanchoredNeverSigns | packages/verify-pqc/pqkt.mjs:192 | a node that requires an anchor and has none signs nothing in any run |
| KeyWitness.HandedOutIsDurable | packages/verify-pqc/witness-service.mjs:19-44 | while no write is left unconfirmed, every head handed out is stored and never forgotten, through throwing writes and restarts |
| KeyWitness.NeverEquivocates | packages/verify-pqc/pqkt.mjs:160-173 | over a store of one kind no run sends clients co-signatures on two roots at one size, for any hash |
| KeyWitness.ClientsSafeIff | packages/verify-pqc/witness-service.mjs:34-40 | which outcomes of writes keep clients safe in every run: if and only if confirmed and promised writes are not mixed |
| KeyWitness.CallersSafeIff | packages/verify-pqc/witness-service.mjs:39 | which outcomes keep direct callers safe in every run: if and only if no write is left unconfirmed |
| KeyWitness.PromisedWriteEquivocates | packages/verify-pqc/witness-service.mjs:39 | a promised write and a restart: the caller holds co-signatures on two roots at one size |
| KeyWitness.ReleasedArePrefixes | packages/verify-pqc/pqkt.mjs:188-200 | if the last head belongs to D, everything released in the run is a prefix head of D |
| KeyWitness.HonestGrowthIsCosigned | packages/verify-pqc/pqkt.mjs:188-205 | following an honest log through any growth within the guard, a node releases a co-signature for every head |
| KeyWitness.UnstoredSignatureIsForgotten | packages/verify-pqc/witness-service.mjs:34-40 | throwing writes and a restart let a node sign two roots at one size, which is why neither is handed out |
| KeyWitness.MonitorUpdate | packages/verify-pqc/pqkt.mjs:136-145 | each verdict exactly when its condition holds; advancing only on an accepted walk |
| KeyWitness.MonitorIsAppendOnly | packages/verify-pqc/pqkt.mjs:136-145 | over any run of updates, if the head a client ends with belongs to D then so does every head it ever pinned, in growing sizes |
| WitnessQuorum.VerifyWitnessed | packages/verify-pqc/pqkt.mjs:210-226 | the loop counts distinct trusted signers with a valid co-signature on this head |
| WitnessQuorum.VoucherIff | packages/verify-pqc/pqkt.mjs:214-222 | a signer is counted if and only if it is trusted and some entry is its valid co-signature on this head |
| WitnessQuorum.QuorumIff | packages/verify-pqc/pqkt.mjs:208-226 | k distinct trusted signers with valid co-signatures on the head are enough, and needed, whatever else is in the list |
| WitnessQuorum.CountOnlyGrows | packages/verify-pqc/pqkt.mjs:215-223 | further co-signatures in any order never lower the count |
| WitnessQuorum.QuorumsMeet | packages/verify-pqc/formal/pqkt_witness_quorum_z3.py:13-20 | two sets of witnesses meet in at least the sum of their sizes minus n |
| WitnessQuorum.SplitIffUnderProvisioned | packages/verify-pqc/formal/pqkt_witness_quorum_z3.py:43-59 | two k-quorums for different roots can exist if and only if k <= n and 2k - n <= d |
| WitnessQuorum.BuildSplit | packages/verify-pqc/formal/pqkt_witness_quorum_z3.py:22-25 | below the bound, an explicit assignment of witnesses to the two views |
| WitnessQuorum.NoSplitView | packages/verify-pqc/pqkt.mjs:165-171 | with running honest nodes, each on one kind of store, two verified heads of one size with different roots need 2k - n <= d |
| WitnessQuorum.SplitViewIsReachable | packages/verify-pqc/pqkt.mjs:174-177 | below the bound, running nodes that trust their first head and are shown one view each produce both quorums |
| WitnessQuorum.AnchoredSplitViewIsReachable | packages/verify-pqc/pqkt.mjs:165-177 | so do nodes anchored at a common head, each following one of two extensions of it |
| GossipReconciler.CountValid | packages/verify-pqc/pqgovern-witness.mjs:108-116 | the loop splits the observations into Counted and Skipped |
| GossipReconciler.CountedExactly | packages/verify-pqc/pqgovern-witness.mjs:108-116 | the counted list holds witness and head of exactly the trusted and authentic observations, in order |
| GossipReconciler.SkippedExactly | packages/verify-pqc/pqgovern-witness.mjs:112-114 | the skipped list holds exactly the others, in order, with whether the witness is trusted |
| GossipReconciler.JudgePair | packages/verify-pqc/pqgovern-witness.mjs:121-130 | the body of the pair loop decides Judge; at one size it agrees exactly on equal roots and otherwise reports the fork |
| GossipReconciler.JudgeNamesSmallerFirst | packages/verify-pqc/pqgovern-witness.mjs:126-130 | a pair of different sizes in either order: the gap or violation names sizes and witnesses, the smaller first |
| GossipReconciler.Reconcile | packages/verify-pqc/pqgovern-witness.mjs:100-143 | the lists are the conflicts and gaps of the pairs in pair order, consistent means every pair agrees, the agreed head is a largest one, and every fork among the observations is reported |
| GossipReconciler.ForkIsReported | packages/verify-pqc/pqgovern-witness.mjs:108-124 | two trusted and authentic observations of one size with different roots: not consistent, and their fork is listed |
| GossipReconciler.PairAt | packages/verify-pqc/pqgovern-witness.mjs:119-132 | the pair (i, j) is judged at its rank among the pairs |
| GossipReconciler.PairOf | packages/verify-pqc/pqgovern-witness.mjs:119-132 | and every judgement is that of a pair |
| GossipReconciler.RankIsLexicographic | packages/verify-pqc/pqgovern-witness.mjs:120-121 | ranks follow the loops: by i, then by j, so no pair comes twice |
| GossipReconciler.OnTheLists | packages/verify-pqc/pqgovern-witness.mjs:122-132 | every conflict and every gap is on its list and nothing else is |
| GossipReconciler.NothingCountedIsConsistent | packages/verify-pqc/pqgovern-witness.mjs:134-140 | nothing counts if and only if no observation is trusted and authentic, and then the verdict is consistent |
| GossipReconciler.ConsistentMeansPrefixes | packages/verify-pqc/formal/pqgovern_witness_z3.py:59-98 | consistent with largest head MTH(D): every counted head is a prefix head of D |
| GossipReconciler.ConsistentObservations | packages/verify-pqc/formal/pqgovern_witness_z3.py:59-98 | consistent with largest head MTH(D): every trusted and authentic observation is of a prefix of D |
| GossipReconciler.JudgeHonestPair | packages/verify-pqc/pqgovern-witness.mjs:119-132 | a pair of one honest log's heads agrees, conflicts or stays open, exactly by sizes and supplied proof |
| GossipReconciler.HonestConsistentIff | packages/verify-pqc/formal/pqgovern_witness_z3.py:101-110 | observations of one honest log are consistent if and only if every pair of different sizes has its RFC 6962 proof |
| GossipReconciler.HonestEquivocationIff | packages/verify-pqc/pqgovern-witness.mjs:14-26 | on an honest log an equivocation is reported exactly when some supplied proof is not the proof of its sizes |
| GossipReconciler.HonestLogFramed | packages/verify-pqc/pqgovern-witness.mjs:129-130 | a two-leaf honest log is reported for a prefix violation on an empty proof |
| GossipReconciler.ForkAlwaysListed | packages/verify-pqc/formal/pqgovern_witness_z3.py:80-97 | two counted heads of one size with different roots are always listed |
| IssuerKeyLog.ResolveIssuerKey | packages/verify-pqc/pqkt.mjs:76-133 | the replay loop returns the holder of the accepted chain, now or at a point in time, and nothing for a malformed time |
| IssuerKeyLog.CurrentKeyIff | packages/verify-pqc/pqkt.mjs:98-110 | the current key is that of the chain's last event, if that binds one |
| IssuerKeyLog.SnapshotAt | packages/verify-pqc/pqkt.mjs:119-130 | the timeline scan finds the holder among the events issued by then, within its validity |
| IssuerKeyLog.HolderAtIff | packages/verify-pqc/pqkt.mjs:116-130 | a key is in force at t exactly if all events carry a time, it was bound by the last event issued before any later than t, and its validity has begun |
| IssuerKeyLog.SortIsSortedPermutation | packages/verify-pqc/pqkt.mjs:90 | the sort orders the filtered events and keeps them all |
| IssuerKeyLog.ChainIsGreedy | packages/verify-pqc/pqkt.mjs:90-115 | filter, stable sort and one pass find what repeatedly taking the first acceptable event finds |
| IssuerKeyLog.ReplayInvariants | packages/verify-pqc/formal/pqkt_no_rebind_z3.py:53-95 | accepted events carry 0, 1, 2, ...; the current seq is their number minus one; none is accepted twice; a revocation is last |
| IssuerKeyLog.ChainIsOwn | packages/verify-pqc/pqkt.mjs:90-95 | only key events of the issuer with an integer seq are ever accepted |
| IssuerKeyLog.OthersAreIgnored | packages/verify-pqc/pqkt.mjs:90-95 | other issuers' events and other leaves have no effect on the chain |
| IssuerKeyLog.BootstrapIff | packages/verify-pqc/pqkt.mjs:100-104 | the chain is non-empty exactly when the log holds a self-signed event 0 of the issuer with an accepted key |
| IssuerKeyLog.AcceptedIffCustody | packages/verify-pqc/pqkt.mjs:12-23 | the state machine accepts exactly the chains of custody from a pinned bootstrap |
| IssuerKeyLog.ReplayIsMaximalCustody | packages/verify-pqc/pqkt.mjs:76-115 | every log resolves to a chain of custody of its events that none of its events extends |
| IssuerKeyLog.AppendNeverRewrites | packages/verify-pqc/formal/pqkt_no_rebind_z3.py:71-82 | appended events only extend the chain, and never bring a revoked issuer back |
| IssuerKeyLog.AnswerSurvivesIff | packages/verify-pqc/pqkt.mjs:116-130 | with the events an append adds to the chain: exactly when the key at time t is as before |
| IssuerKeyLog.LaterEventsKeepThePast | packages/verify-pqc/pqkt.mjs:116-130 | in a timed log, appending events later than t keeps the answer at t |
| IssuerKeyLog.OrderAndJunkIrrelevant | packages/verify-pqc/formal/pqkt_no_rebind_z3.py:22-26 | a conflict-free log resolves alike in any order, with repetitions and any unsigned or other issuers' events inserted |
| IssuerKeyLog.OrderIrrelevantIffConflictFree | packages/verify-pqc/pqkt.mjs:82-90 | every permutation accepts the same chain if and only if no replay step had two different acceptable events |
| IssuerKeyLog.ReorderingsAreMaximalCustody | packages/verify-pqc/pqkt.mjs:82-115 | some permutation resolves to a chain if and only if it is a chain of custody of the log's events that none of them extends |
| IssuerKeyLog.KeyIsCanonicalIff | packages/verify-pqc/pqkt.mjs:82-133 | every permutation returns the same key, now or at a point in time, if and only if all those chains leave the same key |
| IssuerKeyLog.RotationsConflict | packages/verify-pqc/pqkt.mjs:82-90 | two rotations with one seq to one key are a conflict |
| IssuerKeyLog.ConflictMayBeHarmless | packages/verify-pqc/pqkt.mjs:82-90 | with a further rotation behind them, that log still returns one key in every order |
| IssuerKeyLog.DistinctNumbersSuffice | packages/verify-pqc/formal/pqkt_no_rebind_z3.py:24-26 | distinct seqs on the issuer's signed events rule such conflicts out |
| IssuerKeyLog.RevocationCanBeOutrun | packages/verify-pqc/pqkt.mjs:82-90 | a rotation and a revocation with one seq resolve by array order |
| IssuerKeyLog.RevocationHoldsInTime | packages/verify-pqc/pqkt.mjs:116-130 | a revocation in force at one time is in force at every later time |
| MeteredGateway.MakeConfig | packages/verify-pqc/demo-gateway.mjs:32-45 | tokens are the distinct settings in first-seen order, labelled; the quota is the floor of a positive setting or none |
| MeteredGateway.Gateway.Authorize | packages/verify-pqc/demo-gateway.mjs:77-99 | the full scan without early exit decides Authorise |
| MeteredGateway.Gateway.Meter | packages/verify-pqc/demo-gateway.mjs:102-111 | counts the call or, over quota, changes nothing |
| MeteredGateway.Gateway.Handle | packages/verify-pqc/demo-gateway.mjs:156-164 | everything before the first await is the one transition Arrive |
| MeteredGateway.AnswersOutright | packages/verify-pqc/demo-gateway.mjs:77-111 | 200 exactly on health paths; 401, 503 and unmetered calls exactly by configured and presented tokens; the meter is reached by token holders only |
| MeteredGateway.EveryRunAnswers | packages/verify-pqc/demo-gateway.mjs:124-164 | in every run each arrival has one answer, and that is the one it deserves |
| MeteredGateway.MeteringIsExact | packages/verify-pqc/demo-gateway.mjs:101-175 | in every interleaving, inner calls started, usage and min(quota, metered requests) agree for each key id |
| MeteredGateway.ServedInOrder | packages/verify-pqc/demo-gateway.mjs:102-111 | a metered request is served exactly when fewer than quota came before it, and is told its rank |
| MeteredGateway.ExposedWithoutTokensStartsNothing | packages/verify-pqc/demo-gateway.mjs:79-82 | exposed without tokens every run answers health paths 200 and every other arrival 503 |
| MeteredGateway.OnlyKeyHoldersStart | packages/verify-pqc/demo-gateway.mjs:84-99 | with tokens configured, every inner call of every run was started by a request presenting one |
| ContextRegistry.Scan | packages/verify-pqc/formal/context_prefix_free_check.py:60-64 | the nested loops list the forward pairs in order |
| ContextRegistry.ScanIsComplete | packages/verify-pqc/formal/context_prefix_free_check.py:60-64 | over the sorted registry the forward scan reports exactly all proper-prefix pairs |
| ContextRegistry.ScanIsOrdered | packages/verify-pqc/formal/context_prefix_free_check.py:60-64 | each pair is reported once, in registry order |
| ContextRegistry.ScanDecidesUnambiguity | packages/verify-pqc/formal/context_prefix_free_check.py:2-17 | nothing reported if and only if prefix-free if and only if ctx and message are recoverable from their concatenation |
| StepChain.Chain | packages/verify-pqc/formal/pqtrace_chain_z3.py:50-54 | the loop folds the payloads from nil |
| StepChain.FinalPinsPayloads | packages/verify-pqc/formal/pqtrace_chain_z3.py:38-58 | equal final hashes if and only if equal payload lists, even of different lengths |
| StepChain.WrittenIffLinked | packages/verify-pqc/pqtrace.mjs:122-130 | a recorder writes exactly the steps in which each names the hash before it and hashes its payload with that; the final hash is the last |
| StepChain.TraceWriter.AddStep | packages/verify-pqc/pqtrace.mjs:111-139 | each recorded step links to the one before it; a finished trace takes no more |
| StepChain.TraceWriter.Finish | packages/verify-pqc/pqtrace.mjs:140-150 | the head carries the count and the final hash; an empty or finished trace is not sealed |
| StepChain.VerifyChain | packages/verify-pqc/pqtrace.mjs:198-221 | link, recomputation and head checks accept exactly the steps a recorder writes, under their head |
| StepChain.SealedHeadPinsTrace | packages/verify-pqc/pqtrace.mjs:17-21 | two traces that verify under one final hash are identical step for step |
| AnchorCommitment.U64be | site-integration/pq/js/anchor.js:6 | the byte loop writes the big-endian bytes of any integer |
| AnchorCommitment.Cat | site-integration/pq/js/anchor.js:8 | the buffer holds the parts joined in order |
| AnchorCommitment.PackedIffBigEndian | anchor/anchor_sth.py:63-65 | eight bytes worth n exist exactly inside 64 bits, are unique, and are the big-endian bytes |
| AnchorCommitment.JsPayload | site-integration/pq/js/anchor.js:9 | the JavaScript payload is the specified concatenation |
| AnchorCommitment.ImplementationsAgree | anchor/anchor_sth.py:57-67 | whatever packing keeps struct.pack's promise, the Python payload is the JavaScript one inside 64 bits and an error outside |
| AnchorCommitment.BytesReadBack | anchor/anchor_sth.py:63-65 | the eight bytes read back as the number |
| AnchorCommitment.BytesAreTheirValue | anchor/anchor_sth.py:63-65 | any bytes are the big-endian bytes of their value |
| AnchorCommitment.SameBytesIffCongruent | site-integration/pq/js/anchor.js:6 | outside 64 bits the byte loop wraps: equal bytes if and only if congruent modulo 2^64 |
| AnchorCommitment.AmbiguousIffNul | anchor/anchor_sth.py:57-67 | another tree head shares the payload if and only if there is a NUL in the name or among the first |root| bytes after its separator |
| AnchorCommitment.AmbiguousIffOtherName | anchor/anchor_sth.py:57-67 | for any notion of a valid name, text encodings included: exactly when another validly named head shares the payload |
| AnchorCommitment.SmallSizesAreAmbiguous | anchor/anchor_sth.py:57-67 | every head with a non-empty root and a size below 2^56 shares its payload with another |
| AnchorCommitment.PayloadBindsHead | anchor/anchor_sth.py:57-67 | among roots of one length, or among NUL-free names, the payload determines the tree head |
| AnchorCommitment.NulInNameIsAmbiguous | anchor/anchor_sth.py:58-66 | the plainest pair of heads with one payload |
| SignatureDiff.HeaderMasks | packages/verify-pqc/index.js:37 | the three header masks as arithmetic on the byte |
| SignatureDiff.InspectReads | packages/verify-pqc/index.js:35-50 | the whole report as arithmetic on the header byte and the length |
| SignatureDiff.SaltedHeaders | packages/verify-pqc/index.js:35-50 | which headers imply a salt and the deterministic flag, and the body lengths of the two documented headers |
| SignatureDiff.Compare | packages/verify-pqc/index.js:53-70 | the report names the first difference and its region in terms of both signatures; none for an empty one |
| SignatureDiff.RegionsFollowLayout | packages/verify-pqc/index.js:53-60 | the region of the first difference follows header, salt and body lengths of the inspection |
| SignatureDiff.ComparisonIsSymmetric | falcon_interop.py:131-149 | exchanging the signatures changes only the two lengths |
| SignatureDiff.AbiDecodesEncoding | falcon_interop.py:109-118 | a length-prefixed value decodes to itself |
| SignatureDiff.AbiPrefixIsBigEndian | falcon_interop.py:109-118 | the stripped prefix is the length in two bytes, most significant first |
| SignatureDiff.AbiDecodeIffEncoded | packages/verify-pqc/index.js:27-32 | decoding changes a value exactly when it is some value's encoding |

## Left out

- Hash and signature primitives: SHA-2 is an injective function where that is needed, ML-DSA and Ed25519 checks are booleans or function values.
- Leaf and node prefix bytes, canonical JSON and hexadecimal case: hashes are compared as values; the witness compares root strings, so two spellings of one root would be two roots to it, and an empty root string would count as unseen.
- JavaScript number limits other than the tree-size guard: sizes, seqs and timestamps are integers.
- The gossip detector over bare co-signatures, the stateful GovernLogMonitor and GovernWitness wrappers: the same walk and the same size comparison again.
- Grade, posture, admission and provenance-binding checks: chains of maxima and conjunctions.
- IssuerKeyLog.ResolveIssuerKey: the list of rejected events with its reasons, and the alg and key-hash fields of the result, are not modelled; the built-in filter and sort are functions.
- MeteredGateway.Gateway.Handle: response bodies and headers, header parsing, constant-time comparison and the settled response of the inner handler are not modelled; settling is an event that changes no metering state.
- StepChain.VerifyChain: the per-step field checks, size cap, seal and log anchoring of the trace verifier are not modelled; seq and timestamps are part of the payload.
- AnchorCommitment.JsPayload: the log name arrives as encoded bytes and the final hash is not applied.
- SignatureDiff.Compare: the human-readable summary strings are not modelled.
- ContextRegistry.Scan: collecting the strings from source files and sorting them are the caller's; the registry is taken as sorted distinct keys.
- Network fetches, HTTP serving, page rendering and command-line parsing.
