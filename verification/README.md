# Verified model of the Tensor Royale prover's server and its Starknet cryptography

The server keeps a sparse Merkle tree of request hashes. Requests are put into free leaf slots, a batch is
settled by rewriting a depth-16 tree level by level on many threads, and the rewrite records a preimage map
from which the prover can walk both the old and the new root. Requests are registered and consumed on chain.
Around it stands a fork of starknet-rs: the curve, ECDSA, Pedersen, Poseidon, field elements as text, and
account transaction hashes. The model states what these parts are for and proves it for all inputs.

**State tree and settlement.** `Merkle` defines the reference: `Node(h, leaves, i, j)` is the recursive Merkle
value, for any pairwise hash `h`. `LevelRun` is a state machine for one level of a batch update: tasks of 250
positions, each position going through the lock regions of the source one at a time, in any order across tasks.
`StepKeeps` proves that every lock region keeps the invariant, `EveryInterleaving` that every complete schedule
ends in the specified rows, next-row map and witness, `Deterministic` that the split and the iteration order do
not matter; `Scheduler` proves that schedules neither run forever nor get stuck. `Batch` chains the levels:
any batch yields a consistent tree over the overridden leaves, and its preimage map walks from the old root to
the old leaf and from the new root to the new leaf with the same clean siblings; `Precedence` says which entry
wins where keys coincide. `StateTree.Tree` is the class
whose methods are proved to be such runs. `TreeUtils`, `BuildTree`, `Allocator` and `Settlement` cover proofs,
the second builder, the free-slot allocator and whole runs of the server.

**Curve and ECDSA.** `Curve` proves the projective formulas against the affine slope formulas over any prime
field. `CurveGroup` states one hypothesis, `ValidCurve`: the points form a cyclic group of prime order under the
affine formulas. From it the scalar multiplication loops are proved, with the exact scalars for which the
projective addition's missing comparison of y does no harm. `Ecdsa`, `EcdsaVerify` and `EcdsaRecover` give the
exact outcome of `sign` and `verify` for all inputs, and of `recover` for all inputs but message zero, errors and
panics included, and prove that they agree; sections 4.1.3, 4.1.4 and 4.1.6
of SEC 1 version 2.0 are the background. `ValidScheme` adds that bound <= n <= p < 2n, as on the Stark curve.
`ToyCurve` shows that the hypotheses can be met, and gives concrete failures for message zero.

**Hashes.** `Poseidon` proves that the permutation run on the generated table of compressed round keys is the
permutation over all the keys; `PoseidonLaws` states both and the hash in plain arithmetic and proves the
permutation injective; and `Pedersen` that the generated window tables hold the announced multiples and
the windowed accumulation computes the four scalar multiplications plus the shift.

**Text, calldata, registry.** `Positional` treats numbers in a base; `FieldText`, `FieldHex` and `FieldBits` prove
parsers and printers of field elements inverse to each other. `Calldata` decodes what `raw_calldata` encodes and
proves that the transaction hash binds its inputs. `Registry` is the contract as a state machine with reverts.

Where code and documentation disagree the model follows the code: the Poseidon linear layer's last row is
(1, 1, -2), while the comment at crates/starknet-rs/starknet-crypto/src/poseidon_hash.rs:117 says (1, 1, 2);
and a task takes 250 positions, while comments in src/trees/mod.rs speak of four.

`dafny verify dfyconfig.toml` checks the project. `Hash2` and `Hash` are arbitrary functions; collision-freeness
is a hypothesis of the theorems that need it, and only over the pairs that occur.

## Model

| member | source | states |
|---|---|---|
| `LevelRun.EveryInterleaving` | src/trees/mod.rs:416-659 | every complete interleaving of the lock regions of a level, for every task split and position order, ends with the new children written, every dirty parent the hash of its new children, the next-row map holding exactly the dirty parents with their old values, and a witness whose entries hash to their keys and cover each dirty parent before and after |
| `LevelRun.StepKeeps` | src/trees/mod.rs:416-659 | each single lock region, taken in any state reachable so far, keeps the level invariant (what every position has read, written and recorded) |
| `LevelRun.Deterministic` | src/trees/mod.rs:290-412 | two complete runs of the same work, whatever their splits, orders and interleavings, leave equal child and parent vectors and equal next-row maps; a sequential run is one of them |
| `LevelRun.OwnersDiffer` | src/trees/mod.rs:426-431 | two positions that both hash never have the same parent: when both children are dirty only the right one does |
| `LevelRun.StrideSplitIs` | src/trees/mod.rs:288-346 | task t of the recursive split takes exactly positions 250t to 250t+249, and there is a task t exactly while 250t is below the number of positions |
| `LevelRun.FetchKeeps` | src/trees/mod.rs:435-507 | the region that reads the children (and for a right child writes leaves) keeps the invariant for all positions |
| `LevelRun.StoreKeeps` | src/trees/mod.rs:513-517 | the region that exchanges the parent keeps the invariant: the previous parent read is the old one |
| `LevelRun.RecordKeeps` | src/trees/mod.rs:521-536 | recording preimages loses no key, and both entries hash to their keys |
| `LevelRun.WriteLeafKeeps` | src/trees/mod.rs:473-476 | the late leaf write of a lonely left child keeps the invariant although neighbours run in between |
| `LevelRun.PublishKeeps` | src/trees/mod.rs:330-334 | a task publishing its next-row entries adds exactly its dirty parents with their old values |
| `Scheduler.StepDecreases` | src/trees/mod.rs:325-346 | every lock region leaves strictly less to do |
| `Scheduler.SchedulesAreBounded` | src/trees/mod.rs:325-346 | no schedule is longer than the work at its start, so every run of a level ends |
| `Scheduler.SomethingIsEnabled` | src/trees/mod.rs:325-346 | while a task has not returned, some lock region can be taken: no deadlock |
| `Batch.BatchRefinesSpec` | src/trees/mod.rs:56-81 | any batch turns a consistent tree into a consistent tree whose leaves are the old ones overridden by the batch and whose top node is their recursive Merkle root |
| `Batch.WitnessForBothRoots` | src/trees/mod.rs:452-469 | if the hash does not collide on the nodes involved, the final map is a valid witness, and walking it along an updated index reaches the old leaf from the old root and the new leaf from the new root; a sibling above no update is the same on both walks |
| `Batch.BatchDeterministic` | src/trees/mod.rs:69-76 | any two runs of a batch agree on all vectors, lengths included, and on the map handed to every level |
| `Batch.WitnessKeys` | src/trees/mod.rs:452-469 | the recorded map has exactly the keys it had before and the old and new values of the inner nodes above updates |
| `Batch.WitnessDeterministic` | src/trees/mod.rs:581-600 | two runs of a batch record maps with the same keys, and, if the hash does not collide on the pairs that occur, the same entries |
| `Precedence.LevelPrecedence` | src/trees/mod.rs:519-536 | after every complete interleaving of a level an earlier entry of the map is unchanged unless its key is a new value, and under every new value stands a pair of new children |
| `Precedence.WitnessPrecedence` | src/trees/mod.rs:452-469 | the same after a whole batch, whatever the scheduling: an old value's pair never replaces an entry that was there, a new value's pair always does |
| `Batch.ConsistentIsNode` | src/trees/mod.rs:129-144 | in a tree where each stored or defaulted node is the hash of its children, every node is the recursive Merkle value of the leaves |
| `Batch.TopRowExists` | src/trees/mod.rs:78-79 | after a non-empty batch the top row is not empty, so reading the root does not panic |
| `Batch.LeavesFit` | src/trees/mod.rs:86-100 | the leaf vector never outgrows a bound that holds for it before and for all keys |
| `Batch.WalkFollows` | src/trees/mod.rs:452-469 | a walk through a map that opens every node above an index reaches the tree's leaf with the tree's siblings |
| `StateTree.Tree.constructor` | src/trees/mod.rs:33-50 | a new tree has empty vectors, and zero hashes everywhere including the root |
| `StateTree.Tree.UpdateLeafNode` | src/trees/mod.rs:86-100 | writing a leaf changes that leaf only, whether it lies inside the vector or past its end |
| `StateTree.Tree.UpdateInnerNode` | src/trees/mod.rs:102-117 | writing an inner node changes that node only; lazy padding writes zero hashes of its level |
| `StateTree.Tree.NthLeafNode` | src/trees/mod.rs:119-127 | reads the padded row: absent leaves are zero |
| `StateTree.Tree.IthInnerNode` | src/trees/mod.rs:129-144 | reads the padded row: absent nodes are zero hashes of their level |
| `StateTree.Tree.FetchRegion` | src/trees/mod.rs:435-507 | the first lock region on the real vectors is the machine's fetch step |
| `StateTree.Tree.StoreRegion` | src/trees/mod.rs:445-448 | the second lock region on the real vectors is the machine's store step and returns the previous parent |
| `StateTree.Tree.TakeRegion` | src/trees/mod.rs:426-540 | any lock region on the real vectors is the machine's step for that position |
| `StateTree.Tree.SplitAndRunRow` | src/trees/mod.rs:290-412 | running a row on the real vectors, split into tasks of 250 positions, with an arbitrary choice of the next region is a complete interleaving of the level machine |
| `StateTree.Tree.BatchTransitionUpdates` | src/trees/mod.rs:56-81 | the tree stays consistent, its leaves are overridden by the batch and nothing else, its root is the recursive Merkle root, and the recorded map is that of a run of all levels; an empty batch changes nothing |
| `StateTree.Tree.GetProof` | src/trees/mod.rs:225-240 | entry i of the proof is the sibling of the index shifted by i, and folding it over the index bits from the leaf gives the root, also for leaves not stored |
| `StateTree.ProofClimbs` | src/trees/mod.rs:225-240 | folding siblings over index bits climbs any consistent tree to the ancestor at that level |
| `StateTree.Tree.VerifyRoot` | src/trees/mod.rs:244-252 | answers true exactly when the stored root is the recursive Merkle root of the leaves |
| `StateTree.EmptyTree` | src/trees/mod.rs:33-50 | the empty tree is consistent with every node the zero hash of its level |
| `Merkle.EmptySubtree` | src/trees/tree_utils.rs:330-333 | a subtree without stored leaves has the zero hash of its level, by the defining equation of the zero hashes |
| `Merkle.AncIsShift` | src/trees/tree_utils.rs:48-69 | halving i times is the shift by i |
| `Merkle.AncOfRoot` | src/trees/tree_utils.rs:48-69 | every index below 2^depth has the root as its ancestor |
| `TreeUtils.IdxToBinaryPos` | src/trees/tree_utils.rs:19-46 | element k is bit k of the index, for all k below the length |
| `TreeUtils.BinaryCharsAre` | src/trees/tree_utils.rs:22-37 | the k-th digit from the right of the formatted numeral is bit k, and beyond its end the index is shifted away |
| `TreeUtils.ProofPos` | src/trees/tree_utils.rs:48-69 | at every level the position of the sibling of the index's ancestor |
| `TreeUtils.SiblingAboveOf` | src/trees/tree_utils.rs:58-66 | half the sibling's position, one less or one more by the index's bit, is the sibling one level up |
| `TreeUtils.PairwiseHash` | src/trees/tree_utils.rs:5-17 | element k is the hash of elements 2k and 2k+1 |
| `TreeUtils.PadLeafNodes` | src/trees/mod.rs:275-283 | 2^depth elements, the given ones and then the padding |
| `TreeUtils.InnerFromLeafNodes` | src/trees/mod.rs:255-273 | row k from the root holds exactly the recursive Merkle values of its level |
| `TreeUtils.SameLeavesSameNodes` | src/trees/mod.rs:244-252 | padding the leaves with zeros changes no node of any level |
| `BuildTree.PairwiseHash2` | src/trees/mod.rs:733-750 | element k pairs elements 2k and 2k+1, a lonely last one with the zero hash of its level |
| `BuildTree.CloneFromSlice` | src/trees/mod.rs:719-723 | copies into exactly the given range; the lengths agree, so the source's copy does not panic |
| `BuildTree.SliceLengths` | src/trees/mod.rs:713-724 | in either branch of the copy the target range is as long as the chunk's hashes and lies inside the row |
| `BuildTree.ChunksCover` | src/trees/mod.rs:697-731 | every position of the next row lies in the range of some chunk |
| `BuildTree.ChunksDisjoint` | src/trees/mod.rs:697-731 | and in the range of only one |
| `BuildTree.HashChunk` | src/trees/mod.rs:711-727 | a chunk's task fills its own range with the pair hashes and leaves the others alone |
| `BuildTree.HashTreeLevel` | src/trees/mod.rs:697-731 | whatever the order of the chunks, the next row holds the pair hashes of the whole row |
| `BuildTree.NextLevel` | src/trees/mod.rs:684-691 | hashing a level of the zero-padded tree gives the level above it |
| `BuildTree.BuildTree` | src/trees/mod.rs:661-695 | the root is the recursive Merkle root of the list padded with zero leaves |
| `Allocator.SuperficialTree.constructor` | src/trees/superficial_tree.rs:20-27 | starts with no leaf, no queue and count zero |
| `Allocator.SuperficialTree.FromTree` | src/trees/superficial_tree.rs:164-182 | counts the stored leaves of the tree and queues exactly its zero leaves |
| `Allocator.SuperficialTree.UpdateLeafNode` | src/trees/superficial_tree.rs:29-63 | the new leaves, counter and queue, in all four branches |
| `Allocator.SuperficialTree.UpdateZeroIdxs` | src/trees/superficial_tree.rs:65-73 | the queue becomes the positions of the zero leaves |
| `Allocator.ZeroPositions` | src/trees/superficial_tree.rs:68-72 | holds a position exactly when its leaf is zero, in ascending order |
| `Allocator.TakeSlot` | src/trees/superficial_tree.rs:127-143 | the search ends from every state (its measure: queued slots and stored leaves at or past the counter) at a slot whose leaf is zero or absent, changes no leaf and never lowers the counter |
| `Allocator.TakeSlotIs` | src/trees/superficial_tree.rs:127-143 | exactly which slot is taken: the rearmost queued one that is free, those behind it dropped; when no queued one is free the queue is emptied and the first free slot from the counter on is taken |
| `Allocator.WithoutConcat` | src/trees/superficial_tree.rs:41-46 | filtering out an index works piece by piece, in order |
| `Allocator.WithoutAbsent` | src/trees/superficial_tree.rs:41-46 | and keeps a list that does not hold it |
| `Allocator.SuperficialTree.FirstZeroIdx` | src/trees/superficial_tree.rs:127-143 | the recursion on the fields ends, returns such a slot and leaves the state of the search |
| `Allocator.SuperficialTree.GetLeafByIndex` | src/trees/superficial_tree.rs:145-160 | the stored leaf, or zero past the end |
| `Allocator.TakeSlotKeeps` | src/trees/superficial_tree.rs:127-143 | handing out a slot keeps every index below the counter occupied, queued or handed out |
| `Allocator.NoSlotLeaks` | src/trees/superficial_tree.rs:29-143 | over any run of operations, from the empty allocator or one rebuilt from any stored tree, every index below the counter is occupied, queued, or handed out and not yet written |
| `Settlement.Prover.ExecuteRequest` | src/requests/problem_request.rs:21-50 | the handler takes a slot that held nothing, writes exactly the request hash there, records exactly that update, leaves every other leaf and update alone, and outputs the slot as state index |
| `Settlement.Prover.FinalizeBatch` | src/settlment/finalize_batch.rs:8-82 | the old root is the empty one, and the new root the Merkle root of all leaves whenever the recorded updates agree with them; the witness is that of one batch run on the empty tree |
| `Settlement.RecordedUpdatesAreTheLeaves` | src/settlment/finalize_batch.rs:14-21 | over any run of requests and finalizations the recorded update map is exactly the leaves, absent entries being zero |
| `Settlement.LeavesAreRequests` | src/requests/problem_request.rs:26-28 | over any run every leaf holds the hash of the last request that was given it, or 0 |
| `Settlement.LeavesAreHashes` | src/requests/problem_request.rs:26-28 | after any run of requests with non-zero hashes the leaves are the request hashes in order, the state indices are 0, 1, 2, ..., and the recorded updates are the same |
| `Settlement.IndicesAreBounded` | src/requests/problem_request.rs:26-44 | a run of n requests uses only indices below n, so 2^16 requests fit the tree |
| `Settlement.DistinctIffNonzero` | src/requests/problem_request.rs:26-44 | the state indices of a run are pairwise distinct exactly when no request hash but possibly the last is zero |
| `Settlement.SettledRoots` | src/settlment/finalize_batch.rs:53-82 | after any run of at most 2^depth requests and if the hash does not collide, the witness leads from the empty root to leaf 0 and from the new root to the recorded hash at every updated index; 0 is the previous value the prover expects (prover/transactions/utils.cairo:6-17) |
| `Settlement.SettledHashes` | src/settlment/finalize_batch.rs:53-82 | with non-zero request hashes the new root is the Merkle root of the request hashes, and the witness shows 0 before and that request's hash after at every request's index |
| `Inverse.ExtendedGcd` | crates/starknet-rs/starknet-crypto/src/fe_utils.rs:46-54 | the loop computes the gcd and the cofactor of the recursive algorithm |
| `Inverse.GcdDivides` | crates/starknet-rs/starknet-crypto/src/fe_utils.rs:50-54 | the result divides both operands |
| `Inverse.GcdBezout` | crates/starknet-rs/starknet-crypto/src/fe_utils.rs:50-54 | the result is congruent to the cofactor times the operand |
| `Inverse.CofactorBound` | crates/starknet-rs/starknet-crypto/src/fe_utils.rs:55-59 | the cofactor is at most the modulus in absolute value, so one addition makes it canonical |
| `Inverse.InverseIsInverse` | crates/starknet-rs/starknet-crypto/src/fe_utils.rs:46-67 | for operands prime to the modulus the result lies strictly between 0 and the modulus and is the inverse |
| `Inverse.GcdWithPrime` | crates/starknet-rs/starknet-crypto/src/fe_utils.rs:52-54 | modulo a prime the call panics exactly for multiples of the modulus |
| `Inverse.ModInv` | crates/starknet-rs/starknet-crypto/src/fe_utils.rs:46-67 | a returned value is the inverse and in range |
| `Inverse.ModInverse` | crates/starknet-rs/starknet-crypto/src/fe_utils.rs:46-67 | the imperative version computes it |
| `Curve.AffinePoint.DoubleAssign` | crates/starknet-rs/starknet-curve/src/ec_point.rs:41-56 | updates the fields to the tangent formula |
| `Curve.AffinePoint.AddAssign` | crates/starknet-rs/starknet-curve/src/ec_point.rs:80-113 | updates the fields to the affine sum in all branches |
| `Curve.AffinePoint.SubAssign` | crates/starknet-rs/starknet-curve/src/ec_point.rs:125-133 | adds the mirrored point |
| `Curve.ProjectivePoint.DoubleAssign` | crates/starknet-rs/starknet-curve/src/ec_point.rs:171-191 | updates the fields to the projective double |
| `Curve.ProjectivePoint.AddAssignAffine` | crates/starknet-rs/starknet-curve/src/ec_point.rs:200-242 | updates the fields to the mixed sum in all branches |
| `Curve.ProjectivePoint.AddAssign` | crates/starknet-rs/starknet-curve/src/ec_point.rs:244-282 | updates the fields to the projective sum, doubling on equal x |
| `Curve.DoubleRepresents` | crates/starknet-rs/starknet-curve/src/ec_point.rs:171-191 | the double of a representative represents the affine double |
| `Curve.ChordRepresents` | crates/starknet-rs/starknet-curve/src/ec_point.rs:225-240 | the chord branch of both additions represents the affine chord sum |
| `Curve.AddMixedRepresents` | crates/starknet-rs/starknet-curve/src/ec_point.rs:200-242 | adding an affine point represents the affine sum, exceptional cases included |
| `Curve.AddProjectiveRepresents` | crates/starknet-rs/starknet-curve/src/ec_point.rs:244-282 | adding a projective point represents the affine sum exactly when the points are not opposite; on equal x it always represents the double |
| `Curve.ToAffineIs` | crates/starknet-rs/starknet-curve/src/ec_point.rs:59-67 | converting back gives the represented point |
| `CurveGroup.AddIsDefined` | crates/starknet-rs/starknet-curve/src/ec_point.rs:80-113 | no addition of points of the curve reaches a panicking inversion |
| `CurveGroup.SameX` | crates/starknet-rs/starknet-curve/src/ec_point.rs:96-104 | two multiples share x exactly when they are equal or opposite |
| `CurveGroup.MulProjective` | crates/starknet-rs/starknet-curve/src/ec_point.rs:284-299 | the loop computes double-and-add from the most significant bit |
| `CurveGroup.ProjMulReaches` | crates/starknet-rs/starknet-curve/src/ec_point.rs:284-299 | for every bit string the projective loop represents the multiple that a recursion on residues predicts: add one, but double where adding one gives the order |
| `CurveGroup.ProjMulIff` | crates/starknet-rs/starknet-curve/src/ec_point.rs:284-299 | for every bit string the projective loop computes the multiple exactly when that residue is the scalar modulo the order |
| `CurveGroup.ReachedIs` | crates/starknet-rs/starknet-curve/src/ec_point.rs:256-261 | below twice the order the predicted residue is the scalar modulo the order, but n-2 for the order itself |
| `CurveGroup.ProjMulIs` | crates/starknet-rs/starknet-curve/src/ec_point.rs:284-299 | below twice the group order, for every multiple of the generator but the identity, the projective loop computes the multiple exactly when the scalar is not the order |
| `CurveGroup.ProjMulAtOrder` | crates/starknet-rs/starknet-curve/src/ec_point.rs:256-261 | at the group order the last addition doubles, and the result is n-2 times the point and not at infinity |
| `CurveGroup.MulAffine` | crates/starknet-rs/starknet-curve/src/ec_point.rs:135-150 | the affine loop never panics and computes the multiple, for every scalar |
| `CurveGroup.AffineMulIs` | crates/starknet-rs/starknet-curve/src/ec_point.rs:135-150 | affine double-and-add is right for every scalar |
| `CurveGroup.MulByBitsIs` | crates/starknet-rs/starknet-crypto/src/ecdsa.rs:208-213 | below twice the order, which covers every field element, the product is the multiple exactly when the scalar is no multiple of the order; zero comes back as (0, 0) without the infinity flag, the order as n-2 times the point |
| `CurveGroup.BitsValue` | crates/starknet-rs/starknet-ff/src/lib.rs:239-248 | the little-endian bits stand for the number |
| `FieldBits.WordsToBitsLe` | crates/starknet-rs/starknet-ff/src/lib.rs:239-248 | the word-by-word loops fill all 256 bits with the number's little-endian bits |
| `Ecdsa.FromXIs` | crates/starknet-rs/starknet-curve/src/ec_point.rs:24-31 | recovering a point from the x of a multiple gives that multiple or its opposite |
| `Ecdsa.FromXIff` | crates/starknet-rs/starknet-curve/src/ec_point.rs:24-31 | a point is found for a field element exactly when it is x of some multiple of the generator |
| `Ecdsa.OppositeParity` | crates/starknet-rs/starknet-crypto/src/ecdsa.rs:191-194 | y and p-y have opposite parity when 2y is not zero |
| `Ecdsa.PublicKeyIs` | crates/starknet-rs/starknet-crypto/src/ecdsa.rs:77-79 | the public key of every field element d: x of d times the generator, except 0 for d = 0 and the key of 2 for the group order |
| `Ecdsa.SignIs` | crates/starknet-rs/starknet-crypto/src/ecdsa.rs:88-118 | for every key, message and nonce that are field elements: the message error exactly for messages at or above the bound; a panic exactly when the message is below the bound, the nonce is the group order and x of twice the generator is usable as r; a signature exactly when the message, r and s are in range and the nonce is no multiple of the order; and the signature satisfies the signing equation |
| `EcdsaVerify.SignThenVerify` | crates/starknet-rs/starknet-crypto/src/ecdsa.rs:88-162 | for every field element as nonce and as key that is no multiple of the order, and every message below the bound, verify on the x-only key of a signature answers true, except: it reports s as invalid exactly when its inverse reaches the bound, and answers false exactly for message zero when r^3 is not r + beta |
| `EcdsaVerify.VerifyUnderKey` | crates/starknet-rs/starknet-crypto/src/ecdsa.rs:129-162 | a signature on a non-zero message made with any d passes under the key of any j exactly when d = j, d = -j, or 2z + r d is r j or -r j modulo n |
| `EcdsaVerify.OrderKeyVerifies` | crates/starknet-rs/starknet-crypto/src/ecdsa.rs:77-118 | signatures made with the group order as private key pass under its public key exactly when r = z or r + z = n |
| `EcdsaVerify.VerifyIs` | crates/starknet-rs/starknet-crypto/src/ecdsa.rs:129-162 | for every message, r and s in range and the x-only key of every multiple d: an error exactly when the inverse of s reaches the bound; for a non-zero message true exactly when some nonce k has r as its x and s k = z + r d or s k = z - r d modulo n; for message zero a panic when the multiple (r / s) d has x = 0, else true exactly when r x^2 = x + beta |
| `EcdsaVerify.VerifyOutcome` | crates/starknet-rs/starknet-crypto/src/ecdsa.rs:129-162 | for every public key that is a field element and every message, r and s whatever: which error is reported when, in the order message, r, s, key, inverse of s; when the call panics; and true exactly when message, r and s are in range, the inverse of s is below the bound and the key is x of a d for which a nonce explains the signature (for message zero: for which r x^2 = x + beta, x not 0 being x of (r / s) d) |
| `EcdsaVerify.KeyRejectedIff` | crates/starknet-rs/starknet-crypto/src/ecdsa.rs:145-148 | for every public key and r, s, message in range, the key is reported invalid exactly when it is x of no point |
| `EcdsaRecover.RecoverIs` | crates/starknet-rs/starknet-crypto/src/ecdsa.rs:172-205 | for every non-zero message and r, s, v in range: recover fails exactly when r is x of no point; panics exactly when the nonce k with that x and parity has s k = z, unless r is 1; and otherwise returns x of the e with r e = s k - z |
| `EcdsaRecover.RecoverOutcome` | crates/starknet-rs/starknet-crypto/src/ecdsa.rs:172-205 | for every message, r, s and v whatever: which error is reported when, in the order message, r, s, v, and r again when it is x of no point; and for non-zero messages exactly when the call panics and which x it returns |
| `EcdsaRecover.KeyAtUnique` | crates/starknet-rs/starknet-crypto/src/ecdsa.rs:191-194 | r, v and s determine that nonce and that key |
| `EcdsaRecover.LostIdentityMultiple` | crates/starknet-rs/starknet-crypto/src/ecdsa.rs:199-204 | multiplying an identity whose flag was dropped panics in the last conversion for every scalar but 1, where it gives x = 0 |
| `EcdsaRecover.RecoverZero` | crates/starknet-rs/starknet-crypto/src/ecdsa.rs:172-205 | for message zero, x being that of s times the nonce point: the key of 2e when x is 0, the key e when x^3 = x + beta, and otherwise a multiple of a point off the curve |
| `EcdsaRecover.AcceptedRecovers` | crates/starknet-rs/starknet-crypto/src/ecdsa.rs:172-205 | for every signature on a non-zero message that verify accepts under a key, one of the two parities makes recover return that key |
| `EcdsaVerify.CompareMultiples` | crates/starknet-rs/starknet-crypto/src/ecdsa.rs:161-161 | comparing two multiples with r answers whether x of their sum or of their difference is r, without a panic |
| `EcdsaVerify.OriginChord` | crates/starknet-rs/starknet-crypto/src/ecdsa.rs:152-161 | adding a point to the (0, 0) that a zero multiple comes back as gives x coordinate r exactly when r x^2 = x + beta |
| `EcdsaRecover.SignThenRecover` | crates/starknet-rs/starknet-crypto/src/ecdsa.rs:172-205 | from every signature on a non-zero message, made with any field elements as key and nonce, recover returns exactly the signer's x-only key, unless the key is a multiple of the order: then it panics, or returns 0 for r = 1 |
| `EcdsaRecover.SignZeroThenRecover` | crates/starknet-rs/starknet-crypto/src/ecdsa.rs:172-205 | from a signature on message zero recover returns the signer's key when x of (r d) G has x^3 = x + beta, the key of 2d when that x is 0, and otherwise multiplies a point off the curve |
| `ToyCurve.ToyIsValid` | crates/starknet-rs/starknet-curve/src/ec_point.rs:24-31 | the curve hypothesis holds of y^2 = x^3 + x + 1 modulo 7 with order 5 |
| `ToyCurve.MessageZeroCanFail` | crates/starknet-rs/starknet-crypto/src/ecdsa.rs:129-162 | a valid signature on message zero that verify rejects |
| `ToyCurve.MessageZeroRecoversAnother` | crates/starknet-rs/starknet-crypto/src/ecdsa.rs:172-205 | a valid signature on message zero from which recover returns another key |
| `Poseidon.CompressRoundkeysPartial` | crates/starknet-rs/starknet-crypto-codegen/src/poseidon/mod.rs:57-94 | the loops push, for each partial round, the last cell of the keys owed so far, and then the whole owed state |
| `Poseidon.CompressRoundkeys` | crates/starknet-rs/starknet-crypto-codegen/src/poseidon/mod.rs:38-55 | the table is the first full keys, the compressed middle and the last full keys |
| `Poseidon.Mix` | crates/starknet-rs/starknet-crypto/src/poseidon_hash.rs:120-125 | updates the three cells to the linear layer |
| `Poseidon.MixIsLinear` | crates/starknet-rs/starknet-crypto/src/poseidon_hash.rs:120-125 | its rows are (3,1,1), (1,-1,1) and (1,1,-2) |
| `Poseidon.RoundComp` | crates/starknet-rs/starknet-crypto/src/poseidon_hash.rs:128-141 | one round on the state array: in a full round all three cells plus their constants are cubed, in a partial round only the last cell plus its constant, and the cubes are mixed by (3,1,1), (1,-1,1), (1,1,-2), each cell reduced |
| `Poseidon.RoundIs` | crates/starknet-rs/starknet-crypto/src/poseidon_hash.rs:133-140 | the rounds of the plain permutation in plain arithmetic: (3x^3 + y^3 + w^3, x^3 - y^3 + w^3, x^3 + y^3 - 2w^3) modulo p of the three sums, or with only w cubed |
| `Poseidon.CompRoundIs` | crates/starknet-rs/starknet-crypto/src/poseidon_hash.rs:128-141 | the same of the rounds that run on the table |
| `Poseidon.PoseidonPermuteComp` | crates/starknet-rs/starknet-crypto/src/poseidon_hash.rs:95-115 | the loops run all rounds with the table index in range throughout |
| `Poseidon.MixAdds` | crates/starknet-rs/starknet-crypto-codegen/src/poseidon/mod.rs:77-80 | the linear layer commutes with adding keys |
| `Poseidon.PartialRoundStep` | crates/starknet-rs/starknet-crypto/src/poseidon_hash.rs:105-108 | across a partial round the plain state stays the running state plus what is owed |
| `Poseidon.CompressionPreservesPermutation` | crates/starknet-rs/starknet-crypto-codegen/src/poseidon/mod.rs:38-94 | for every state, round counts and key table, the permutation on the generated table equals the plain permutation with all keys, and the table is long enough for every index used |
| `PoseidonLaws.PermutationIs` | crates/starknet-rs/starknet-crypto/src/poseidon_hash.rs:95-115 | the permutation on the generated table ends where any run in plain arithmetic over all the uncompressed keys ends: full rounds, partial rounds, full rounds |
| `PoseidonLaws.RunExists` | crates/starknet-rs/starknet-crypto/src/poseidon_hash.rs:95-115 | every state has such a run |
| `PoseidonLaws.CubeInjective` | crates/starknet-rs/starknet-crypto/src/poseidon_hash.rs:133-135 | modulo a prime that is not 1 modulo 3 cubing loses nothing |
| `PoseidonLaws.MixInjective` | crates/starknet-rs/starknet-crypto/src/poseidon_hash.rs:120-125 | modulo an odd prime the linear layer loses nothing |
| `PoseidonLaws.PermutationInjective` | crates/starknet-rs/starknet-crypto/src/poseidon_hash.rs:95-115 | modulo an odd prime that is not 1 modulo 3, for all keys and round counts, the permutation on the generated table takes different states to different states |
| `Poseidon.PoseidonHasher.Update` | crates/starknet-rs/starknet-crypto/src/poseidon_hash.rs:25-36 | absorbs one more element: the hasher stands for the list so far |
| `Poseidon.PoseidonHasher.Finalize` | crates/starknet-rs/starknet-crypto/src/poseidon_hash.rs:39-53 | returns the padded hash of all elements absorbed |
| `Poseidon.PoseidonHashMany` | crates/starknet-rs/starknet-crypto/src/poseidon_hash.rs:75-92 | returns the same hash of the whole list, for odd, even and empty lists |
| `Poseidon.HashIsPlainSponge` | crates/starknet-rs/starknet-crypto/src/poseidon_hash.rs:75-92 | absorbing with the generated table equals absorbing with the plain permutation |
| `PoseidonLaws.HashIs` | crates/starknet-rs/starknet-crypto/src/poseidon_hash.rs:75-92 | the hash of a list with the generated table is the first cell after absorbing the list, a one, and a zero if needed, pair by pair into the first two cells, each time followed by the plain permutation, from the zero state |
| `Pedersen.PushChunk` | crates/starknet-rs/starknet-crypto-codegen/src/pedersen.rs:49-57 | the inner loop writes the multiples 1 to 2^w - 1 of the chunk's unit |
| `Pedersen.PushPoints` | crates/starknet-rs/starknet-crypto-codegen/src/pedersen.rs:28-68 | the loops write the whole window table of the base point |
| `Pedersen.TableLength` | crates/starknet-rs/starknet-crypto-codegen/src/pedersen.rs:35-39 | the table has exactly the declared number of points |
| `Pedersen.TableEntry` | crates/starknet-rs/starknet-crypto-codegen/src/pedersen.rs:46-64 | entry v of chunk i is v 2^(w i) times the base point |
| `Pedersen.BoolsToUsizeLe` | crates/starknet-rs/starknet-crypto/src/pedersen_hash.rs:47-55 | the number the bits stand for |
| `Pedersen.AddPoints` | crates/starknet-rs/starknet-crypto/src/pedersen_hash.rs:20-30 | every lookup is in range, and the accumulator moves by the value of all the bits times the base point |
| `Pedersen.AddPointsIs` | crates/starknet-rs/starknet-crypto/src/pedersen_hash.rs:20-30 | chunk by chunk, from any chunk on: lookups in range and the value of the remaining bits added |
| `Pedersen.SlicedBits` | crates/starknet-rs/starknet-crypto/src/pedersen_hash.rs:34-37 | the two slices of a number below 2^(low+high) are its remainder and quotient by 2^low: no bit is lost |
| `Pedersen.PedersenHash` | crates/starknet-rs/starknet-crypto/src/pedersen_hash.rs:14-44 | with generated tables the hash is the x coordinate of shift + x_low P0 + x_high P1 + y_low P2 + y_high P3, and, when that sum is the identity, the x coordinate of the table entry added last |
| `Pedersen.HashMultipleIs` | crates/starknet-rs/starknet-crypto/src/pedersen_hash.rs:32-37 | the multiple so named is the shift plus the four products modulo the order |
| `Positional.DigitsHorner` | crates/starknet-rs/starknet-ff/src/lib.rs:239-256 | a number below b^g is what its g digits stand for |
| `Positional.WordDigit` | crates/starknet-rs/starknet-ff/src/lib.rs:506-508 | a digit cut out of a word by shift and mask is that digit of the whole number |
| `FieldText.FromDecStr` | crates/starknet-rs/starknet-ff/src/lib.rs:144-175 | fails with InvalidCharacter exactly when a non-digit is met before 256 bits overflow, accepts exactly the digit strings with value below the modulus, and is out of range otherwise |
| `FieldText.AcceptedIff` | crates/starknet-rs/starknet-ff/src/lib.rs:144-175 | a string yields x exactly when it is all digits, its value is below the modulus and x is that value |
| `FieldText.DecErrors` | crates/starknet-rs/starknet-ff/src/lib.rs:144-175 | an invalid character is reported exactly when a byte other than 0 to 9 is met after digits only whose value is below 2^256; every other text that is not accepted is out of range |
| `FieldText.DecValueIs` | crates/starknet-rs/starknet-ff/src/lib.rs:149-170 | a digit more makes ten times the value plus the digit; the empty text is 0 |
| `FieldText.Display` | crates/starknet-rs/starknet-ff/src/lib.rs:456-490 | writes the decimal text, and the index into the 80-byte buffer never underflows |
| `FieldText.DecTextIs` | crates/starknet-rs/starknet-ff/src/lib.rs:473-487 | the text is all digits, stands for the number and has no leading zero unless it is 0 |
| `FieldText.CanonicalText` | crates/starknet-rs/starknet-ff/src/lib.rs:456-490 | it is the only such text: printing the value of a canonical digit string gives the string back |
| `FieldText.DecRoundTrip` | crates/starknet-rs/starknet-ff/src/lib.rs:144-175 | parsing the printed text of an element gives the element |
| `FieldHex.FromByteSlice` | crates/starknet-rs/starknet-ff/src/lib.rs:300-311 | the bit-spreading loops read the big-endian number, accepted exactly when below the modulus |
| `FieldHex.BytesRoundTrip` | crates/starknet-rs/starknet-ff/src/lib.rs:212-256 | reading the 32 bytes written for a number gives the number |
| `FieldHex.LowerHex` | crates/starknet-rs/starknet-ff/src/lib.rs:492-520 | the latch loop over words and nibbles writes the shortest text of at least the width, with or without 0x |
| `FieldHex.ShownIsShortest` | crates/starknet-rs/starknet-ff/src/lib.rs:503-516 | leading zeros are shown only to reach the width |
| `FieldHex.ShownKeeps` | crates/starknet-rs/starknet-ff/src/lib.rs:503-516 | what is shown has the same value and at least the width |
| `FieldHex.TextIsLower` | crates/starknet-rs/starknet-ff/src/lib.rs:511-513 | what is written has no upper-case digit |
| `FieldHex.FromHexBe` | crates/starknet-rs/starknet-ff/src/lib.rs:177-205 | strips every leading 0x, then: too long is out of range, a non-hexadecimal byte is invalid, and the value is accepted exactly when below the modulus |
| `FieldHex.HexOutcome` | crates/starknet-rs/starknet-ff/src/lib.rs:177-205 | for any number of leading 0x before a rest without one: more than 64 bytes are out of range; else a byte other than 0-9, A-F, a-f is an invalid character; else the value is accepted exactly when below the modulus |
| `FieldHex.SplitText` | crates/starknet-rs/starknet-ff/src/lib.rs:178-178 | every text is of that form |
| `FieldHex.DigitTable` | crates/starknet-rs/starknet-ff/src/lib.rs:185-193 | the value of each digit in either case, and that there are no others |
| `FieldHex.HexAppend` | crates/starknet-rs/starknet-ff/src/lib.rs:185-193 | a digit more makes sixteen times the value plus the digit; the empty text is 0 |
| `FieldHex.CaseDoesNotMatter` | crates/starknet-rs/starknet-ff/src/lib.rs:177-205 | making the digits lower case changes no outcome, for every text |
| `FieldHex.HexRoundTrip` | crates/starknet-rs/starknet-ff/src/lib.rs:177-205 | parsing the written text gives the element, for every width and with or without the prefix |
| `FieldHex.AnyCaseRoundTrip` | crates/starknet-rs/starknet-ff/src/lib.rs:177-205 | any upper- or mixed-case spelling of the written text gives the element back |
| `Calldata.RawCalldata` | crates/starknet-rs/starknet-accounts/src/account/execution.rs:174-193 | the two-vector loops write the call array and then the concatenated arguments |
| `Calldata.DecodeEncoded` | crates/starknet-rs/starknet-accounts/src/account/execution.rs:174-193 | the calls can be read back from the calldata by offsets and lengths |
| `Calldata.EncodedLayout` | crates/starknet-rs/starknet-accounts/src/account/execution.rs:174-193 | where everything stands: the number of calls; per call target, selector, number of arguments before its own, number of its own; the number of all arguments; then the arguments |
| `Calldata.EncodedNothing` | crates/starknet-rs/starknet-accounts/src/account/execution.rs:174-193 | no calls encode to two zeros |
| `Calldata.ComputeHashOnElements` | crates/starknet-rs/starknet-core/src/crypto.rs:27-36 | the loop folds the elements and hashes the length last |
| `Calldata.HashOnIs` | crates/starknet-rs/starknet-core/src/crypto.rs:27-36 | from 0, each element is absorbed in order and the length last |
| `Calldata.HashOnInjective` | crates/starknet-rs/starknet-core/src/crypto.rs:27-36 | lists of any lengths with equal hashes are equal, if the pairwise hash does not collide on the pairs used |
| `Calldata.TransactionHashBinds` | crates/starknet-rs/starknet-accounts/src/account/execution.rs:195-206 | equal transaction hashes have equal calls, maximum fee, nonce, chain id and address, under the same hypothesis |
| `Calldata.TransactionHashIs` | crates/starknet-rs/starknet-accounts/src/account/execution.rs:195-206 | from 0 the hash absorbs prefix, 1, address, 0, the calldata's hash, maximum fee, chain id, nonce, and then 8 |
| `Calldata.ComputeTransactionHash` | crates/starknet-rs/starknet-accounts/src/account/execution.rs:195-206 | building the list with the calldata method and the hashing method gives that value |
| `Registry.TensorRoyale.constructor` | solidity_contracts/contracts/TensorRoyale.sol:19-22 | starts with no key and no payment |
| `Registry.TensorRoyale.RegisterRequest` | solidity_contracts/contracts/TensorRoyale.sol:27-53 | succeeds exactly for a key in range whose transfer, if any, does not revert; then stores the key and overwrites the payment, else changes nothing |
| `Registry.TensorRoyale.TransitionState` | solidity_contracts/contracts/TensorRoyale.sol:55-76 | consumes all triples or none |
| `Registry.AcceptedIff` | solidity_contracts/contracts/TensorRoyale.sol:55-76 | an output is accepted exactly when it is whole triples, each equal to the key stored under its id once the earlier triples are gone; the other keys remain |
| `Registry.OneTriple` | solidity_contracts/contracts/TensorRoyale.sol:56-74 | one triple is accepted exactly when the key stored under its first number has it as id, the second as public key and the third as commitment, an empty slot reading as zeros; its id is then free |
| `Registry.StarkBoundIs` | solidity_contracts/contracts/TensorRoyale.sol:33-33 | the bound on public keys is 2^251 + 17 * 2^192 + 1 |
| `Registry.OutputAcceptedIff` | solidity_contracts/contracts/TensorRoyale.sol:55-76 | without id zero: exactly when every triple is registered and no id comes twice |
| `Registry.RunIsJustified` | solidity_contracts/contracts/TensorRoyale.sol:27-76 | over every run the stored keys are the latest unconsumed registrations, and every consumed triple was one at its time |
| `Registry.NeverMoreConsumed` | solidity_contracts/contracts/TensorRoyale.sol:27-76 | over every run a non-zero id is consumed at most as often as it was registered |
| `Registry.ConsumedWasRegistered` | solidity_contracts/contracts/TensorRoyale.sol:27-76 | over every run whatever is consumed under a non-zero id had been registered before, with a public key in range |
| `Registry.ZeroIdNeedsNoRegistration` | solidity_contracts/contracts/TensorRoyale.sol:61-72 | the all-zero triple passes on the empty registry, even twice: an empty slot reads as that key |

## Left out

- HTTP server, JSON, files, `from_disk` and bincode storage, clocks: input and output only. Of the request hash only its value enters the model.
- The data, submission and verification request handlers: they make the same state transition as the problem handler. That a depth-3 `SuperficialTree` is created at start changes nothing, as its depth is never read.
- Trees with `shift` other than 0: settlement always uses 0, and leaf padding writes a literal zero.
- The `ZERO_HASHES` table is its defining equation, for levels without end (the source stops at 64); witness keys are numbers where the source uses their decimal strings; hashing panics on numbers at or above the field modulus are not modelled.
- Each mutex region is one atomic step, and `rayon::join` any interleaving of such steps; the request handlers and finalization hold all their locks throughout and are single steps.
- Machine integers: indices, counters and lengths do not overflow 64 bits; the u32 shifts by the window width in the Pedersen generator are exact numbers, so widths of 32 and more, which overflow, are described as if they did not.
- Concrete constants (curve parameters, round keys, Pedersen points): any values meeting the stated hypotheses. Montgomery form and field inversion of the foreign field library appear as arithmetic modulo p.
- `CurveGroup.ValidCurve`, that is primality of p and n, the group law and a complete square root, and `Ecdsa.ValidScheme`, which bounds p, n and the element bound, are hypotheses; `ToyCurve.ToyIsValid` shows they can be met.
- RFC 6979 nonces and the retry loop of `ecdsa_sign`: a foreign generator, with no bound on the retries.
- The 32-byte buffers in `mod_inverse` and `bigint_mul_mod_floor`: results are below n, hence below p, and fit.
- AcceptedRecovers: states recovery for non-zero messages only; for message zero `VerifyIs` and `RecoverZero` give both outcomes, and an accepted r need not be x of a point, so that there may be nothing to recover from.
- SignThenRecover: states recovery for non-zero messages only; message zero is `SignZeroThenRecover`, which in its last case says only that a point off the curve is multiplied, `ToyCurve.MessageZeroRecoversAnother` being one such failure.
- RecoverZero: its last case does not say which multiple of the point off the curve comes out, as that point belongs to another curve, about whose group nothing is assumed.
- MulByBitsIs: scalars of twice the order and more, which are no field elements; `ProjMulIff` covers them for the loop itself.
- Ecdsa sign, verify and recover, and `from_x`, are functions with no loop or state, as in the source.
- Poseidon on one or two elements, and `poseidon_hash_single`: the same permutation on fixed padding.
- `UpperHex`, `Debug`, serde and big-decimal conversions: the same digits, or foreign formats. Formatter padding around the digits is not part of the model.
- `raw_calldata` lengths as field elements: a 64-bit length is below the modulus, so it is itself.
- RegisterRequest: the token transfer is a foreign call, of which only reverting or not is kept; re-entry during it is not modelled.
- Cairo programs, request hash layouts, account factories, providers, compression and class hashes: not part of this model.
