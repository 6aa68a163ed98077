# A verified model of the quantum-classical gateway's core

A Dafny model of the parts of the gateway that carry its guarantees: the Merkle audit trail, the compiler
from optimisation problems to QUBO matrices, replay protection with its durable registry and lineage, the
execution process with its evidence ledger, producer trust, the bounded replay cache, quorum consensus, framing
and the token bucket.  `dafny verify dfyconfig.toml` checks everything.

## How the program is represented

- Objects that the program updates in place are classes with the same fields; their methods keep the program's
  loops and branches and are verified against specification functions, about which the lemmas then speak.
- SHA-256 is a function parameter whose values have 64 characters and start with a hexadecimal digit.  Tamper
  evidence assumes that it is injective on the finite set of strings that the operations in question hash, and
  that set is written out (`TrailInputs`, `LedgerInputs`, `FoldInputs`, ...).  So any two inputs that
  falsify a conclusion contain a collision within that set.  (Plain existence of a collision would be no
  conclusion at all: with a fixed digest length there always is one.)
- `json.dumps`, signature checks, the runtime and the fingerprint of a lineage record are function parameters;
  where a proof needs it, the JSON encoding is assumed to be readable back and to start with a brace.
- Clock readings, random ids and whether a write succeeds are inputs.
- Floating-point numbers are `real`; all results are for exact arithmetic.
- Dictionaries whose order shows in the program's behaviour are sequences of items in insertion order
  (`OrderedDicts`); the others are maps.
- Concurrency and crashes: `ReplayRuns` is a state machine whose steps are the points where another thread, a
  failing write, a crash or a restart can come in between.

## Files

| area | files |
|---|---|
| foundations | `Digests`, `Options`, `Texts`, `OrderedDicts`, `Sums`, `Selections`, `StableSort`, `HashChains` |
| audit trail | `MerkleTree`, `HashTrees`, `MerkleAcceptance`, `AuditTrail` |
| QUBO compiler | `OptimizationProblem`, `QuboTranslation`, `QuboTheorems`, `QuboWeights`, `BuilderOrder` |
| replay protection | `ReplayRegistry`, `ReplayAuthority`, `ReplayRuns`, `ReplayEnforcer`, `ReplayLifetimes`, `ReplayBursts` |
| execution | `EvidenceLedger`, `Provenance`, `ProducerVerification`, `ExecutionProcess` |
| distribution | `Consensus`, `HonestNodes`, `DistributedSimulation` |
| transport | `Framing`, `RateLimiter` |

## Where the code does less than its documentation says

- `replay_registry.py` documents `FUTURE` as the answer to a sequence gap.  A new message always asks for the
  next number, so with a positive gap limit the answer never occurs (`ReplayRegistry.ReplayRegistry.Submit`).
- `replay_enforcer.py` promises that an artifact is accepted exactly once within its time to live.  `submit` reads
  the clock before it takes the lock, so readings can come to the lock late.  When they are at most d seconds late,
  the promise cannot be broken exactly when no acceptance evicts an entry that a reading d seconds late would
  still find alive, whatever the times of issue (`ReplayLifetimes.OncePerLifetimeIffNoEarlyDrop`).  With readings
  in order these evictions are the forced ones (`ReplayLifetimes.ForcedIsEarlyDrop`); with no bound on how late
  they are, every eviction is one (`ReplayLifetimes.OncePerLifetimeIffNothingDropped`).  Both ways to break the
  promise do occur: `ReplayBursts.PromiseCanBreak` and `ReplayBursts.ClockOrderMatters`.
- `producer_verification.py` revokes a key permanently, but a failing write goes unreported.  A revocation is
  permanent once it is in memory and in the file (`ProducerVerification.RevokedForever`).  Otherwise it lasts
  through any run exactly when nothing is reloaded or some write, of this or a later operation, succeeds before
  the first reload (`ProducerVerification.RevocationSurvivesReload`).
- `qubo_translation.py` has a default constraint weight of 10.  That is not enough for every problem
  (`QuboWeights.DefaultWeightCanFail`).  The weights that are enough for all integer equality constraints are
  exactly those above every difference of two objective values (`QuboWeights.SufficesIffAboveRange`), for which
  the absolute objective coefficients give a simple check (`QuboWeights.CoefficientSumIsAboveRange`).
- A failing write in `replay_registry.py` raises, but leaves the id in memory: the lineage of the authority then
  lacks exactly these numbers (`ReplayRuns.LineageIsContiguous`).
- `set_objective` in `quantum_problem_compiler.py` replaces the sense but adds its terms to those of earlier
  calls, and `add_constraint` replaces a constraint of the same name.  So the order of calls can matter
  (`BuilderOrder.SenseOrderMatters`, `BuilderOrder.SameNameOrderMatters`), exactly when
  `BuilderOrder.PermutedCallsAgreeIff` says so.
- `verify_integrity` in `audit_trail.py` looks at neither payload nor timestamp, and accepts an emptied list;
  the exact condition is `AuditTrail.IntegrityExact`.
- A timeout inside a frame loses the part already read, and the rest of the frame is then taken for a new one:
  all messages are recovered exactly when no timeout falls inside a frame (`Framing.RecoveredIffUninterrupted`).
- `rejected_count` in the authority's report is the number of ids that were never accepted, not of rejected
  submissions (`ReplayAuthority.CanonicalReplayAuthority.VerificationReport`).
- A halted execution still yields a hash that nodes can agree on, so consensus can finalise a halt
  (`HonestNodes.HonestQuorumDecides` speaks of every contract that can be voted for).

## Model

| member | source | states |
|---|---|---|
| MerkleTree.BuildMerkleTree | audit_trail.py:42-64 | the level-by-level build with padding in place yields the recursively defined tree of its leaves |
| HashTrees.TreeIsHashTree | audit_trail.py:37-64 | told from the levels alone: the leaves are at the bottom, an odd level repeats its last node, each parent is the hash of its left and then its right child, and the last level is one node |
| MerkleTree.TreeLevel | audit_trail.py:42-64 | each stored level is the level hashed from the one below, padded when odd; exactly the last is a single node, the root |
| MerkleTree.TreeHeight | audit_trail.py:42-64 | a tree over n leaves has ceil(log2 n) + 1 levels |
| MerkleTree.CeilLog2IsCeiling | audit_trail.py:238-238 | the logarithm used for heights is the least k with n <= 2^k |
| MerkleTree.MerkleProof | audit_trail.py:67-93 | the loop yields the sibling path of the index, and nothing for an index outside the leaf level or an empty tree |
| MerkleTree.VerifyMerkleProof | audit_trail.py:96-108 | accepts exactly when folding the siblings into the leaf hash gives the expected root |
| MerkleTree.GeneratedProofVerifies | audit_trail.py:67-108 | for every tree and index, the generated proof has one step per level below the root and verifies |
| MerkleTree.FoldInjective | audit_trail.py:96-108 | two proofs for the same position that reach the same root have the same leaf and the same siblings |
| MerkleTree.OnlyTheLeafVerifies | audit_trail.py:67-108 | at a position of a tree, the stored leaf with its generated proof is the only accepted pair of leaf and proof |
| MerkleAcceptance.AcceptedAreNodes | audit_trail.py:96-108 | for a digest and a proof of any sides, siblings and length, over leaves that are no inner hashes: accepted exactly when the digest is a node of the tree and the proof hashes the same strings as that node's own proof |
| MerkleAcceptance.AcceptedProofIsOwn | audit_trail.py:96-108 | such a proof has the node's own siblings, and its sides except where a node is its own partner |
| MerkleTree.SameHeightSameRoot | audit_trail.py:191-224 | two lists of distinct leaves with trees of the same height and the same root are equal, although padding hides lengths |
| MerkleTree.TallerTreeDiffers | audit_trail.py:191-224 | trees of different height have different roots when no leaf is the hash of two digests |
| MerkleTree.RootBindsLeaves | audit_trail.py:191-224 | roots over distinct leaves that are no inner hashes are equal exactly when the leaf lists are, whatever their lengths |
| AuditTrail.MerkleAuditTrail.constructor | audit_trail.py:154-156 | a new trail has no entries and an empty tree |
| AuditTrail.MerkleAuditTrail.Append | audit_trail.py:158-170 | adds one entry with the next sequence number; the tree stays equal to a rebuild from scratch; exactly ceil(log2 n) parent hashes are computed, and the tree then has one level more than that |
| AuditTrail.MerkleAuditTrail.RebuildTree | audit_trail.py:237-278 | editing the old tree in place gives the from-scratch tree of all leaves, padding included, with ceil(log2 n) parent hashes |
| AuditTrail.MerkleAuditTrail.RemovePadding | audit_trail.py:245-251 | popping the padding leaves every level of the old tree unpadded |
| AuditTrail.MerkleAuditTrail.UpdatePath | audit_trail.py:253-269 | padding each level and setting one parent per level turns the old levels into those of the longer leaf list |
| AuditTrail.MerkleAuditTrail.UpdateLevel | audit_trail.py:257-269 | pads one level and makes the level above it the one hashed from it, changing no other level |
| AuditTrail.MerkleAuditTrail.AddRoots | audit_trail.py:271-278 | adds levels until a single node is left, which completes the tree |
| AuditTrail.LastParentSuffices | audit_trail.py:256-269 | when a level grows by one or changes only its last node, replacing or appending one parent gives the whole level above |
| AuditTrail.MerkleAuditTrail.VerifyInclusion | audit_trail.py:178-189 | accepts exactly when the index is stored, the leaf hashes agree and the proof from the stored tree reaches the root |
| AuditTrail.AppendedStaysIncluded | audit_trail.py:158-189 | every appended entry is included after any later appends |
| AuditTrail.InclusionExact | audit_trail.py:178-189 | with any replaced entry list, an entry is included exactly when its leaf fields are those appended at its position and still stored there |
| AuditTrail.MerkleAuditTrail.VerifyIntegrity | audit_trail.py:191-226 | reports gaps, duplicates and a root mismatch in that order, in any state of the entries, and passes exactly when there are none |
| AuditTrail.GapsExact | audit_trail.py:205-208 | no gap is reported exactly when the sequence numbers are 0, 1, 2, ... |
| AuditTrail.GapsAre | audit_trail.py:205-208 | each entry out of place is reported once, in order, with its index and the number found there |
| AuditTrail.DuplicatesExact | audit_trail.py:210-213 | fewer distinct numbers than entries means exactly that two entries have the same number |
| AuditTrail.ErrorsExact | audit_trail.py:200-226 | the report is the gaps, then duplicates exactly when two numbers are equal, then a mismatch exactly when the rebuilt root is not the stored one |
| AuditTrail.IntegrityExact | audit_trail.py:191-226 | whatever list of whatever length replaces the entries, the check passes exactly when all leaf fields are those appended, or the list is empty |
| OptimizationProblem.NameLeTotal | quantum_problem_compiler.py:25-31 | the order that sorts a pair of names is total and antisymmetric |
| OptimizationProblem.NameLeExact | quantum_problem_compiler.py:25-31 | a name comes before another exactly when it is a prefix, or the first differing character has the smaller code point |
| OptimizationProblem.SortedPairIsSorted | qubo_translation.py:82-82 | a pair's key is the same two names in that order, and the only such key |
| OptimizationProblem.SortKeysAt | quantum_problem_compiler.py:25-31 | each quadratic term is added under the key of its two names in order, with its value |
| OptimizationProblem.ProblemCompiler.constructor | quantum_problem_compiler.py:69-72 | a new compiler holds the empty problem, to be minimised |
| OptimizationProblem.ProblemCompiler.AddVariable | quantum_problem_compiler.py:74-77 | stores or overwrites one variable and changes nothing else |
| OptimizationProblem.ProblemCompiler.AddConstraint | quantum_problem_compiler.py:79-85 | fails and stores nothing exactly when a term uses an undeclared variable; otherwise stores the constraint with its accumulated terms, which have the value of the given ones at every assignment |
| OptimizationProblem.ProblemCompiler.SetObjective | quantum_problem_compiler.py:87-94 | the sense is replaced, and at every assignment the value of the given terms is added to that of the terms set before |
| OptimizationProblem.ProblemCompiler.AddPenalty | quantum_problem_compiler.py:96-98 | appends one penalty and changes nothing else |
| OptimizationProblem.TotalAccumulateAll | quantum_problem_compiler.py:19-44 | adding terms one by one to a dictionary adds up their values |
| QuboTranslation.QuboTranslator.constructor | qubo_translation.py:7-10 | a new translator has an empty matrix and offset 0 |
| QuboTranslation.QuboTranslator.AddQuboTerm | qubo_translation.py:78-86 | a zero coefficient changes nothing; any other is added to the coefficient of the key that has the two names in code point order |
| QuboTranslation.QuboTranslator.Translate | qubo_translation.py:12-76 | fails and changes nothing unless all variables are binary; otherwise the energy at every assignment grows by exactly the source energy, and every key stays unique with its names in code point order |
| QuboTranslation.QuboTranslator.TranslateObjective | qubo_translation.py:21-33 | the energy at every assignment grows by the objective's value, negated unless the sense is to minimise |
| QuboTranslation.QuboTranslator.TranslateConstraints | qubo_translation.py:35-63 | adds the terms and the constant of each equality constraint, in order |
| QuboTranslation.QuboTranslator.TranslateConstraint | qubo_translation.py:37-63 | the energy at every assignment grows by weight * (sum a_i x_i - b)^2 for an equality, and not at all for an inequality |
| QuboTranslation.QuboTranslator.AddDiagonal | qubo_translation.py:46-52 | adds one diagonal term for each variable of a constraint |
| QuboTranslation.QuboTranslator.AddCross | qubo_translation.py:54-63 | the nested loops add one term for each pair i < j |
| QuboTranslation.QuboTranslator.TranslatePenalties | qubo_translation.py:65-74 | adds the terms and constants of all penalties |
| QuboTranslation.QuboTranslator.TranslatePenalty | qubo_translation.py:65-74 | the energy at every assignment grows by the penalty's weight times the value of its terms |
| QuboTranslation.QuboTranslator.TranslateKey | qubo_translation.py:66-74 | the energy grows by the coefficient at exactly the assignments where the name, or both names of the pair, are 1; everywhere for "offset"; nowhere for anything else |
| QuboTranslation.SquareExpansion | qubo_translation.py:42-63 | diagonal and cross terms together have the value of the weighted square without its constant |
| QuboTranslation.SquareTermsValue | qubo_translation.py:37-63 | terms and constant of a constraint have the value weight * (sum a_i x_i - b)^2, or 0 for an inequality |
| QuboTranslation.ConstraintTermsValue | qubo_translation.py:35-63 | the same for all constraints together |
| QuboTranslation.PenaltyTermsValue | qubo_translation.py:65-74 | terms and constant of the penalties have the value of the weighted penalties |
| QuboTranslation.ObjectiveTermsValue | qubo_translation.py:21-33 | the objective's terms have the value of the signed objective |
| QuboTranslation.EnergyPreserved | qubo_translation.py:12-76 | whatever was in the matrix, translating adds signed objective + weight * squared violations + penalties at every assignment |
| QuboTranslation.AddTermsCanonical | qubo_translation.py:78-86 | every key stays a pair in code point order and occurs once |
| QuboTheorems.FreshEnergy | qubo_translation.py:12-76 | the matrix of a fresh translator is canonical and has exactly the source energy |
| QuboTheorems.EnergiesDetermineCoefficients | qubo_translation.py:78-86 | canonical matrices with offsets that agree on all assignments have equal offsets and coefficients |
| QuboTheorems.CoefficientsDetermineTotal | qubo_translation.py:78-86 | conversely, equal coefficients give equal sums, in whatever order the items are stored |
| QuboTheorems.SameMeaningSameMatrix | qubo_translation.py:12-76 | two problems translate to the same coefficients and offset exactly when they have the same energy at every assignment |
| QuboTheorems.InnerOrderIrrelevant | quantum_problem_compiler.py:40-44 | the order of terms within constraints does not change the squared violations |
| QuboTheorems.OrderIrrelevant | qubo_translation.py:12-76 | permuting objective terms, constraints, their terms and penalties changes neither coefficients nor offset |
| BuilderOrder.PermutedCallsAgreeIff | quantum_problem_compiler.py:74-98 | permuted builder calls give the same translation for every weight exactly when the resulting senses have the same sign, or there is nothing to optimise, and the stored constraints amount to the same violation everywhere |
| BuilderOrder.StoredAreLast | quantum_problem_compiler.py:79-85 | the stored constraints are, for each name, the one accepted last; a call with an undeclared variable stores nothing |
| BuilderOrder.LastCallsDecide | quantum_problem_compiler.py:74-98 | permuted calls agree when the same sense and, for each name, the same accepted constraint come last |
| BuilderOrder.SameNameOrderMatters | quantum_problem_compiler.py:79-85 | two constraints of one name, in either order, translate differently |
| BuilderOrder.SenseOrderMatters | quantum_problem_compiler.py:87-94 | two senses, in either order, translate differently |
| QuboTheorems.EnergySplit | qubo_translation.py:37-63 | a feasible assignment has its signed objective as energy; an infeasible one has more than any signed objective |
| QuboTheorems.BuiltConstraintsAreInteger | quantum_problem_compiler.py:79-85 | a constraint built from integer terms and right-hand side keeps all constraints integer, so the results on minimisers apply to what the builder stores |
| QuboTheorems.MinimisersAreOptimal | qubo_translation.py:12-76 | with integer equality constraints, a weight above the objective's range and a feasible assignment, the minimisers are exactly the optimal feasible assignments for the problem's sense (the condition on the weight is necessary by QuboWeights.SufficesIffAboveRange) |
| QuboWeights.SufficesIffAboveRange | qubo_translation.py:12-63 | a weight makes the minimisers exactly the optima, for every buildable problem with this objective and feasible integer equality constraints, exactly when it exceeds every difference of two objective values |
| QuboWeights.PinsForce | qubo_translation.py:37-63 | the constraints of the counterexample are met exactly by the assignments that agree with the given one on all names |
| QuboWeights.PinnedDefeats | qubo_translation.py:37-63 | with a weight that some difference of objective values reaches, an infeasible assignment of that problem has no more energy than its optimum |
| QuboWeights.CoefficientSumIsAboveRange | qubo_translation.py:12-12 | any weight above the sum of the absolute objective coefficients is large enough |
| QuboWeights.DefaultWeightCanFail | qubo_translation.py:12-12 | with the default weight, the only optimum of a concrete problem is no minimiser, and an infeasible assignment is one |
| ReplayRegistry.ReplayRegistry.constructor | replay_registry.py:65-78 | starts with what a readable file holds, and empty otherwise |
| ReplayRegistry.ReplayRegistry.Submit | replay_registry.py:84-143 | STALE exactly when now - issued_at exceeds the time to live, DUPLICATE exactly for a known id in time, with its number, FUTURE exactly for a new one with a gap limit below 1; VALID gives counter + 1, stores the id with its time of issue, and is in the file when answered; nothing else changes anything |
| ReplayRegistry.ReplayRegistry.Persist | replay_registry.py:187-199 | the file then holds counter and entries as in memory |
| ReplayRegistry.AcceptKeepsConsistent | replay_registry.py:128-135 | accepting a new id keeps the entries in bijection with 1..counter |
| ReplayAuthority.CanonicalReplayAuthority.constructor | canonical_replay_authority.py:109-117 | starts with no lineage at the registry's counter |
| ReplayAuthority.CanonicalReplayAuthority.Submit | canonical_replay_authority.py:123-154 | returns the registry's decision, STALE exactly when now - issued_at exceeds the time to live, with a lineage record that is stated field by field; stores it as the id's verdict, and extends the lineage exactly when it is VALID |
| ReplayAuthority.CanonicalReplayAuthority.Lookup | canonical_replay_authority.py:160-165 | finds the last verdict of an id, if it has one |
| ReplayAuthority.CanonicalReplayAuthority.Lineage | canonical_replay_authority.py:210-215 | returns the records start+1..counter in order, each VALID and naming its predecessor (none for 1) |
| ReplayAuthority.CanonicalReplayAuthority.VerificationReport | canonical_replay_authority.py:171-185 | what the four numbers count; the rejected ones are the ids with a verdict but no lineage record |
| ReplayAuthority.SortedNumbersAreContiguous | canonical_replay_authority.py:210-215 | unique numbers that cover start+1..start+m leave the sort as exactly that list |
| ReplayRuns.InvStep | replay_registry.py:84-143 | every step of every call, failing write, crash and restart keeps the invariant of memory, file, lock, pending and returned answers |
| ReplayRuns.RunsAreSafe | replay_registry.py:84-216 | in every run: no id is answered VALID twice; a call made after a VALID answer gets a greater number; every id answered VALID is in the file, and in memory after any restart, with its number; file and memory are always consistent |
| ReplayRuns.AnswersAreInTime | replay_registry.py:96-143 | in every run, crashes and failing writes included, each answer belongs to its call's request and is STALE exactly when that one was older than the time to live, so VALID never is |
| ReplayRuns.UniqueStep | replay_registry.py:108-143 | a step keeps claims and answers unique per id |
| ReplayRuns.OrderStep | replay_registry.py:118-143 | a step keeps numbers increasing from an answer to later calls |
| ReplayRuns.LineageIsContiguous | canonical_replay_authority.py:123-215 | in every interleaving, failing writes included, once no call is pending, an authority started at counter k has records for exactly the numbers k+1..counter that no failing write lost, in order, each naming its predecessor; it has all of them exactly when no write failed |
| EvidenceLedger.EvidenceLedger.constructor | evidence_ledger.py:36-40 | an empty ledger with the genesis head is sound |
| EvidenceLedger.EvidenceLedger.Append | evidence_ledger.py:42-62 | fails and changes nothing exactly when a previous hash is given that is not the head; otherwise adds the record, keeps the chain sound and returns length, root and head |
| EvidenceLedger.EvidenceLedger.GetMerkleRoot | evidence_ledger.py:64-83 | the root of the from-scratch tree over the evidence hashes, although it pads differently; a marker hash for the empty ledger |
| EvidenceLedger.EvidenceLedger.GetSnapshot | evidence_ledger.py:85-95 | the snapshot carries length, head and that root |
| EvidenceLedger.EvidenceLedger.VerifyChain | evidence_ledger.py:97-110 | for any records, stored hashes and head: passes exactly when all links fit, and hashes and head are those of the chain over the records |
| EvidenceLedger.HeadBindsExecutionHashes | evidence_ledger.py:42-62 | two ledgers have equal heads exactly when they hold the same execution hashes in the same order and number |
| EvidenceLedger.ReplacedRecordsDetected | evidence_ledger.py:97-110 | whatever replaces the records of a sound ledger, the chain verifies exactly when all execution hashes are unchanged and the links still fit |
| HashChains.EqualHeads | evidence_ledger.py:20-22 | heads of a hash chain are equal exactly when the chained items are |
| Provenance.VerifyLineage | provenance_api.py:58-73 | holds exactly when some record has the id, and the first one that has it comes after the head that is named as previous; so never for an id that is not in the ledger |
| Provenance.IndexOfFirst | provenance_api.py:58-73 | the search finds the first record with an id, and nothing exactly when there is none |
| Provenance.ExecutionCertificate | provenance_api.py:108-143 | fails exactly for an unknown id; otherwise carries position, chain hash and the ledger's root |
| Provenance.StoredLineage | provenance_api.py:58-73 | in a sound ledger with unique ids, a stored record's lineage verifies exactly when it names a previous hash |
| Provenance.CertificateMatchesEvidence | provenance_api.py:108-143 | a certificate's chain hash is the stored evidence exactly when the certified record has the stored execution hash |
| Provenance.ReplacedContentsDetected | provenance_api.py:19-39 | whatever replaces the records of a sound ledger: the chain and every execution hash verify exactly when number, the ten hashed fields and the execution hashes of all records are unchanged and the links still fit |
| ProducerVerification.ProducerRegistry.constructor | producer_verification.py:64-96 | starts with what a readable file holds, and empty otherwise |
| ProducerVerification.ProducerRegistry.Save | producer_verification.py:98-115 | a successful write stores producers and revoked keys; a failing one leaves the file as it was |
| ProducerVerification.ProducerRegistry.Register | producer_verification.py:117-139 | refuses exactly the revoked keys, without changing anything; otherwise files the identity with the given or default types and touches no other producer; no producer ever holds a revoked key |
| ProducerVerification.ProducerRegistry.RevokeKey | producer_verification.py:141-148 | adds the key to the revoked ones, removes exactly the producers that hold it and leaves the others alone |
| ProducerVerification.DefaultTypesExact | producer_verification.py:126-136 | which types a role allows by default, type by type |
| ProducerVerification.FailuresExact | producer_verification.py:228-327 | each failure mode, and passing, by its own condition on id, key, signatures and type |
| ProducerVerification.RunIsSound | producer_verification.py:78-148 | after any registrations, revocations, failing writes and reloads, neither memory nor file has a producer with a revoked key |
| ProducerVerification.PassedUnderUnrevokedKey | producer_verification.py:228-327 | after any such run, a contract passes exactly when producer, signatures and type are in order under the registered key, and that key is not revoked |
| ProducerVerification.RevokedForever | producer_verification.py:78-148 | a key that is revoked in memory and in the file stays so through any operations, failing writes and reloads included |
| ProducerVerification.ReloadIsNeutral | producer_verification.py:78-115 | loading what was saved gives the same registry: without failing writes a reload changes nothing |
| ProducerVerification.RevocationSurvivesReload | producer_verification.py:98-148 | from its last revocation on, a key is revoked after any run exactly when it was in the file before, nothing was reloaded, or some operation wrote the file before the first reload |
| ExecutionProcess.ExecutionProcess.constructor | execution_process.py:22-52 | fresh registry, ledger and key store, nothing handled |
| ExecutionProcess.ExecutionProcess.Run | execution_process.py:55-190 | handles exactly the contract messages before the first DONE, in order; results, records and pinned keys are only added to; the invariant of the whole process is kept |
| ExecutionProcess.ContractsAre | execution_process.py:55-66 | the messages handled are those at exactly the positions of contract messages with no DONE before them, in order |
| ExecutionProcess.AckExact | execution_process.py:78-190 | each answer by its own condition on decision, contract, key, signatures and type |
| ExecutionProcess.ExecutionProcess.Handle | execution_process.py:67-190 | emits exactly one result, whose text follows from replay decision, pinned keys and verification before the message, replays being told by age and known ids; a record comes with it exactly when the contract was executed |
| ExecutionProcess.ExecutionProcess.HandleAccepted | execution_process.py:86-190 | the same for a message that is no replay; at most one record, with the message's trace id and number, is appended |
| ExecutionProcess.ExecutionProcess.Execute | execution_process.py:127-190 | trust failures halt; otherwise one verified record, linked to the current head, is appended that says of the execution what the contract and the runtime's answer say |
| ExecutionProcess.RecordCertifies | execution_process.py:147-176 | the record built for an execution has each field from where it belongs, and its execution hash verifies |
| ExecutionProcess.ExecutionProcess.Contact | execution_process.py:104-125 | an unknown producer is pinned to the key at hand and to the contract's type; a known one matches exactly when the key is the pinned one, and stays as it is |
| ExecutionProcess.PinnedSnoc | execution_process.py:104-125 | one more message keeps every producer pinned to the key of its first contact, and keeps the key halts exact |
| ExecutionProcess.NumberedAccept | execution_process.py:67-76 | a newly accepted id has a greater number than every record so far |
| ExecutionProcess.ExecutedOnce | execution_process.py:67-84 | no two results with a record have the same trace id |
| ExecutionProcess.ProcessGuarantees | execution_process.py:55-190 | in every reachable state: one result per contract message in order, each trace id executed at most once, every record stated field by field from its message, contract and the runtime's answer, increasing numbers, chain and all execution hashes verify, with unique random ids every lineage verifies, and keys stay pinned |
| DistributedSimulation.SimulatedNode.Process | distributed_simulation.py:69-112 | the ledger stays the hash chain over everything the node executed |
| DistributedSimulation.SingletonFinalHash | distributed_simulation.py:229-231 | the set comparison of final hashes means: non-empty and all equal |
| DistributedSimulation.FinalHashesDecideAgreement | distributed_simulation.py:229-238 | comparing last hashes succeeds exactly when all nodes executed the same non-empty history, and then all ledgers agree |
| ReplayEnforcer.ReplayEnforcer.constructor | replay_enforcer.py:48-53 | a new cache is empty and counts from 0 |
| ReplayEnforcer.ReplayEnforcer.Submit | replay_enforcer.py:55-99 | stale exactly when now - issued_at exceeds the time to live, duplicate exactly for a cached id in time, with its sequence id, and otherwise accepted as counter + 1; only that changes anything, and the cache stays below the threshold |
| ReplayEnforcer.ReplayEnforcer.EvictIfNeeded | replay_enforcer.py:101-115 | nothing below 10,000 entries; from there on exactly the expired ones go, unless 10,000 are alive: then 1,000 of those go too |
| ReplayEnforcer.OldestAreRemoved | replay_enforcer.py:111-115 | a forced eviction removes something, and nothing it removes is younger than anything it keeps |
| ReplayEnforcer.OldestCount | replay_enforcer.py:111-115 | a forced eviction removes 1,000 entries |
| ReplayEnforcer.SameDecision | replay_enforcer.py:55-99 | caches that differ only in entries seen to be expired decide alike on every request that does not bring such an artifact back as fresh |
| ReplayEnforcer.RunsAgree | replay_enforcer.py:55-115 | while no eviction is forced and no artifact comes back as fresh after a clock reading has shown it expired, the evicting cache lacks nothing but expired entries and gives the same numbers; no order of the clock readings is assumed |
| ReplayEnforcer.ForcedEvictionShows | replay_enforcer.py:111-115 | after the first forced eviction, some request that revives nothing is answered differently |
| ReplayEnforcer.UnnoticedIffNeverForced | replay_enforcer.py:55-115 | no request that revives nothing tells the evicting cache from one that never evicts, at any point of a run, while no eviction is forced; with a clock in order, exactly while none is |
| ReplayEnforcer.SameIssueTimesReviveNothing | replay_enforcer.py:55-68 | artifacts that keep their time of issue, with a clock in order, never come back as fresh |
| ReplayLifetimes.AcceptedAgainAfterExpiry | replay_enforcer.py:55-115 | for any times of issue and any order of clock readings: without a forced eviction, an artifact is accepted again only after a reading in between has shown it to be expired |
| ReplayLifetimes.OncePerLifetimeIffNoEarlyDrop | replay_enforcer.py:40-115 | for any times of issue and clock readings at most d late at the lock: at no point of a run can an artifact be accepted twice within its time to live exactly when no acceptance evicts what a reading d late still finds alive |
| ReplayLifetimes.AcceptedAgain | replay_enforcer.py:55-115 | whatever an acceptance evicts is accepted again at the end of its time to live, if a request for it comes with that reading |
| ReplayLifetimes.ForcedIsEarlyDrop | replay_enforcer.py:101-115 | with readings in order, an eviction is early exactly when it is forced, so that the promise depends on forced evictions alone |
| ReplayLifetimes.OncePerLifetimeIffNothingDropped | replay_enforcer.py:40-115 | with no bound on how late a reading may be, the promise cannot be broken exactly when nothing at all was evicted |
| ReplayLifetimes.TwiceIfForced | replay_enforcer.py:111-115 | after a forced eviction some artifact would at once be accepted again within its time to live |
| ReplayBursts.BurstForcesEviction | replay_enforcer.py:101-115 | a concrete run of 10,000 live artifacts forces an eviction |
| ReplayBursts.PromiseCanBreak | replay_enforcer.py:101-115 | so some run with a clock in order accepts an artifact twice within its time to live |
| ReplayBursts.ClockOrderMatters | replay_enforcer.py:65-99 | a concrete run in which a request read the clock before, but got the lock after, an eviction is accepted twice within its time to live with nothing forced |
| ReplayLifetimes.UnnoticedIffNothingEvicted | replay_enforcer.py:55-115 | when requests may carry any times of issue, the evicting cache cannot be told from one that never evicts exactly when nothing was evicted |
| Consensus.RunConsensus | consensus_simulation.py:134-237 | a hash is final exactly when at least quorum_size attestations with a good signature name it and report no provenance failure; the quorum is nodes times threshold rounded up; reached means share >= threshold; share and disagreements are those of the first hash with the most votes |
| Consensus.CollectAttestations | consensus_simulation.py:142-169 | every node but the missing one contributes, with the injected fault applied |
| Consensus.CollectedAre | consensus_simulation.py:147-169 | with distinct ids the attestations are those of exactly the nodes that are not missing, in order |
| Consensus.ParticipatingAre | consensus_simulation.py:147-154 | the participants are exactly the nodes that are not missing, in order |
| Consensus.NodeCountsExact | consensus_simulation.py:157-201 | what a node's vote depends on; a node made faulty votes for the wrong hash under its own signature on it |
| Consensus.CountVotes | consensus_simulation.py:196-201 | counts exactly the signed, non-empty votes that report no provenance failure (by Consensus.VotesAreVoters) |
| Consensus.FirstLargest | consensus_simulation.py:217-217 | the first among the largest counts |
| Consensus.ListDisagreements | consensus_simulation.py:182-226 | lists the attestations with or without a good signature that do not support the majority, with their reasons |
| Consensus.CountsAreVotes | consensus_simulation.py:196-201 | the count of each hash is its number of votes, and exactly the hashes with votes are counted |
| Consensus.VotesAreVoters | consensus_simulation.py:183-201 | a hash has as many votes as there are positions with a good signature, that hash and no provenance failure; the empty hash has none |
| Consensus.FinalisedByVoters | consensus_simulation.py:183-237 | a hash is finalised exactly when these positions are a quorum |
| Consensus.QuorumBounds | consensus_simulation.py:145-145 | the quorum is the least number of votes that meets the threshold, more than half of the nodes and at most all |
| Consensus.ShareMeetsThreshold | consensus_simulation.py:219-228 | comparing the share with the threshold is comparing votes with nodes times threshold |
| Consensus.FinalisedIsUnique | consensus_simulation.py:134-237 | no two hashes are finalised |
| Consensus.VotesAreNodes | consensus_simulation.py:134-201 | with distinct ids, votes count nodes |
| Consensus.NodeOrderIrrelevant | consensus_simulation.py:134-237 | any order of the nodes finalises the same hash |
| Consensus.FaultyNodesCannotOverturn | consensus_simulation.py:134-237 | whatever the dishonest nodes change into, a quorum of honest votes finalises, and votes they cannot lift to a quorum do not |
| Consensus.DisagreementsExact | consensus_simulation.py:146-226 | exactly the missing node and those without a signed attestation for the majority are listed |
| Consensus.DisagreementReasons | consensus_simulation.py:150-226 | the reason listed for each node: missing, bad signature before anything else, its own status, or its other hash |
| HonestNodes.HonestNodesAgree | consensus_simulation.py:81-121 | all honest nodes vote for the runtime's hash, and for nothing when the contract cannot be voted for |
| HonestNodes.ProcessExact | consensus_simulation.py:81-121 | what an honest node attests and signs, when it reports a halt, and when that counts |
| HonestNodes.HonestQuorumDecides | consensus_simulation.py:81-237 | with fewer dishonest nodes than a quorum, only the runtime's hash of a votable contract can be finalised; with a quorum of honest nodes it is finalised exactly then |
| Framing.Sender.Put | transport.py:102-114 | appends the frame of the message, or fails and sends nothing when its length does not fit |
| Framing.Receiver.Recv | transport.py:150-165 | delivers part of the next chunk, a timeout, or nothing at the end, without losing or reordering bytes |
| Framing.Receiver.ReadExactly | transport.py:150-164 | the accumulating loop returns the next n bytes whatever the chunks are, and loses them at a timeout or the end |
| Framing.Receiver.Get | network_ipc.py:51-79 | the result and the remaining stream depend on bytes and timeouts only, not on the chunks |
| Framing.Receiver.GetAll | execution_process.py:55-65 | getting until the end yields exactly the objects in the recovered frames, whatever the chunks and timeouts |
| Framing.PrefixRoundTrip | transport.py:107-107 | decoding the four length bytes gives the length back |
| Framing.PrefixIsUnique | transport.py:157-157 | every four bytes are the prefix of exactly one length |
| Framing.FrameEffect | transport.py:150-165 | a frame that is read was in the stream in one piece, and every read makes progress |
| Framing.UninterruptedIsRecovered | network_ipc.py:51-79 | without timeouts inside frames, exactly the sent messages are received in order |
| Framing.RecoveredIffUninterrupted | transport.py:142-169 | exactly the sent messages are received in order exactly when no timeout falls inside a frame |
| Framing.SentObjectsAreReceived | network_ipc.py:20-79 | end to end: with an encoding that reads back, the objects sent are the objects received when no timeout falls inside a frame |
| RateLimiter.TokenBucket.constructor | gateway.py:236-241 | a new bucket is full |
| RateLimiter.TokenBucket.Allow | gateway.py:243-254 | refills by time * capacity / 60 up to the capacity and takes a token exactly when a whole one is there; tokens stay in [0, capacity] |
| RateLimiter.BucketInRange | gateway.py:235-254 | after any calls at non-decreasing times the tokens are in [0, capacity] |
| RateLimiter.AllowedIffWindowsPermit | gateway.py:243-254 | a call is allowed exactly when it keeps every window that ends with it within capacity + time * capacity / 60 |
| RateLimiter.WindowBound | gateway.py:235-254 | no window of calls ever exceeds that bound |
| RateLimiter.PatientCallerIsAllowed | gateway.py:243-254 | the first call, and any call 60 / capacity seconds after the previous one, is allowed |

## Left out

- The objects nested in a problem (objective, constraints, penalties) are values inside the compiler object, so aliasing of a constraint after it was added is not captured.
- Names, bounds and types of variables beyond what the translator reads, and the text exports of problems and matrices.
- Reason texts of decisions and errors; the model keeps their kinds and numbers.
- Timestamps of consensus proofs, lineage records and identities, and the payload dictionary behind an audit entry's canonical text.
- Fields that outputs only copy from inputs: the contract, key and ledger snapshot in a result message, the attestations and the round number in a consensus proof.
- SHA-256, ECDSA, JSON and UUID internals, the runtime's thresholds and the governance layer: function parameters or inputs.
- Rounding of floating-point numbers.
- `reset` of registry, authority, enforcer and receiver; the receiver's capacity reset clears the registry but not the lineage, so lineage results are for runs without it.
- `Receiver.receive`, `CommunicationGateway.send` and the producers: a call to the authority followed by building a response.
- Read-only accessors and range tests (`is_known`, `validate_sequence_order`, `get_entry`, `sequence_status`, `entry_count`, `lookup`, `allowed_types` and the like).
- `execution_graph`, `verify_provenance`, `verify_runtime` and `execution_history`: single filters or comparisons.
- Circuit breaker, reconnects, partial sends, and the UDS, HTTP, ZeroMQ and other transports.
- Malformed messages that make the message loop raise; forwarding the DONE marker; heartbeat and logging.
- A producer file that is valid JSON with a malformed producer in it, of which the program keeps the part before the fault.
- Threads inside the producer registry and between its three lookups in `verify`.
- Quantum simulation, threshold classifiers, demos, doctrine and semantic registries.
- ProducerVerification.ProducerRegistry.Register: `str.upper` is modelled on ASCII letters only, because other letters play no part in the role names it looks for.
- ReplayRuns.RunsAreSafe: a file changed or corrupted by somebody else is not modelled, because the program then starts afresh and nothing is promised.
- ReplayRuns.LineageIsContiguous: is stated between a start and the next crash, because a restarted process begins with an empty lineage of its own.
- Consensus.RunConsensus: what a node is (its keys and runtime) enters through the attestation and the signature it gives.
