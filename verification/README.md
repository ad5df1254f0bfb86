# Settled, verified

Settled is an append-only audit log. Entries are numbered, hashed and kept in the Merkle tree
of RFC 6962; the server signs tree heads and hands out inclusion and consistency proofs, which
clients check on their own. This project models its three hard parts and proves what they are
for: the Merkle algebra and its proofs, the stored structures that must agree with the log, and
the server as a machine whose steps interleave.

`dafny verify dfyconfig.toml` checks everything.

## How it is modelled

**Hashes.** A hash is an opaque value, and the leaf and node hash functions
are arbitrary functions (`Hashing.Hasher`). Nothing is assumed of them. That collisions exist is
certain on 32 bytes and so says nothing; every soundness theorem therefore names a function that
computes a *break* from the data at hand: two different pairs with one node hash
(`NodeCollision`), or, where trees of different sizes meet, a leaf hash that is also a node hash
(`LeafIsNode`). "Up to a break" below means: the conclusion holds, or that function returns a
break and the break is real.

**Bottom-up and top-down.** Proofs are generated by splitting at the largest power of two below
the size, and checked level by level from the leaf. `Merkle.Lift` pairs up one level, keeping a
lone last node, and `MthLift` says that it keeps the root. `Inclusion.Replay` and
`Consistency.Rebuild` are what the two verifiers compute, proved equal to them. The inclusion
loop of the Rust SDK (sdks/rust/src/verifier.rs:35-68) is the core's, statement for statement,
so `Inclusion.VerifyInclusion` stands for both.

**Storage.** A column family is the list of its records in key order, a write batch is atomic,
and whether the database accepts a batch is an input (`written`), because the counter is
advanced before the write. Clocks, signatures and keys are inputs too.

**The server.** `Server.Step` has the blocks under the append mutex, the three phases of
`sign_and_store` (snapshot, look at the latest head, store), and a crash with reopen. Any number
of signers overlap. `Service` holds the same operations as imperative code on objects, each
proved to take exactly its step. A proof RPC reads heads, log and heads again at different
times, so `Rpc` takes it over three or four states of one run.

## Where the code departs from what is promised

1. *A success of InclusionProof or ConsistencyProof need not verify.* The log is read before the
   heads are looked up. If the requested size is larger than the log at that moment and its head
   is stored before the lookup, the response carries a proof from too few leaves
   (`Rpc.RaceDoesNotVerify`, for both calls). After a failed write, which leaves a gap in the
   numbers, the same happens without any race (`Rpc.GapDoesNotVerify`, for both calls).
   `Rpc.InclusionRpcExact` and `Rpc.ConsistencyRpcExact` give the exact condition, over all
   interleavings: the response verifies if all numbers below the size were in the log when it
   was read, and otherwise verifies nothing, up to a break. Without failed writes that holds
   whenever the size is left to the server or its head was stored before the read
   (`Rpc.InclusionRpcVerifies`, `Rpc.ConsistencyRpcVerifies`).
2. *A watch stream can lose an entry.* Broadcasts happen outside the mutex; if two come in the
   opposite order of their numbers, the later entry suppresses the earlier one
   (`Watch.OutOfOrderLoses`). `Watch.NothingLost` says exactly when nothing is lost.
3. *A watch stream can start before `from_seq`, and for 0 with an entry that is already stored*,
   even when broadcasts come in order (`WatchInOrder.EarlierIsDelivered`, `PendingIsDelivered`,
   `StoredIsDelivered`). `WatchInOrder.WatchKeepsPromise` gives the condition that can be checked
   when the stream is opened, and shows that it is exact, failed writes included: for 0, nothing
   is waiting to be broadcast; for another number, the log has reached it, or nothing is waiting
   and the counter has reached it, so that no later append takes a smaller number.
   `WatchInOrder.WatchStartsAtFrom` says which single runs are right in the other states.
4. *Rebuilding the node table can panic.* After a failed write a number is missing, and the loops
   look up nodes that were never computed: one failed append and one successful one are enough
   (`NodeStore.RebuildPanics`). The old table is deleted by then. `NodeGaps.EmitSucceeds` and
   `NodeGaps.ClosedIsComplete` give the exact condition.
5. *The UI's inclusion check is weaker than the core's in two ways.* It checks neither the length
   of the proof (`Inclusion.UiAcceptsExtraElement`) nor that the index is below the tree size
   (`Inclusion.UiAcceptsIndexOutOfRange`). `Inclusion.CoreIsUiPlusLength` says that these two are
   all the difference. What is left is membership without position: whatever index, size and
   length it is given, a leaf that it accepts is in the tree, up to a break
   (`Inclusion.UiShowsMembership`).
6. *The Rust SDK overflows on new sizes above 2^63*, where its doubling loop cannot end
   (`Sdk.VerifyConsistency` says exactly when); the core verifier does not.
7. *Entries under a key do not come newest to oldest*, as the interface says
   (proto/settled.v1.proto:206), but oldest first (`Pagination.NewestComesLast`).
   `Pagination.PageIsDescending` gives the exact condition: a page is in the promised order
   exactly when it can hold no more than one entry or there is no more than one to return.

## Model

| member | source | states |
|---|---|---|
| Powers.SplitIsLargestPower | crates/settled-core/src/merkle.rs:4-7 | the split point is a power of two below n, and no greater one is below n |
| Powers.KIsSplit | crates/settled-core/src/proof.rs:17-19 | the leading-zeros form gives that split point for every n > 1 that fits the word |
| Powers.SplitStable | crates/settled-core/src/proof.rs:17-19 | a prefix that reaches past the split point of a tree splits at the same place |
| Merkle.MthLift | crates/settled-core/src/merkle.rs:11-22 | pairing up one level, with a lone last node moved up, keeps the recursive root |
| Merkle.LevelIsMth | crates/settled-core/src/merkle.rs:11-22 | node i of level h is the root of the aligned block of 2^h leaves |
| Merkle.RootUpIsMth | crates/settled-core/src/merkle.rs:11-22 | folding levels until one node is left gives the recursive root |
| Frontier.SlotIsSubtree | crates/settled-core/src/merkle.rs:29-35 | every occupied slot of the frontier is the root of its aligned complete subtree |
| Frontier.SlotsAreBits | crates/settled-core/src/merkle.rs:29-35 | the frontier has as many slots as the size has bits |
| Frontier.AbsorbRepresents | crates/settled-core/src/merkle.rs:49-69 | carrying a leaf through the set bits of the size yields the frontier of the longer list |
| Frontier.FoldIsRoot | crates/settled-core/src/merkle.rs:72-87 | folding the frontier over the set bits gives the root of all leaves |
| Frontier.MerkleTree.Climb | crates/settled-core/src/merkle.rs:51-57 | the carry loop never indexes past the frontier nor shifts by 64, below 2^64 leaves |
| Frontier.MerkleTree.Append | crates/settled-core/src/merkle.rs:49-69 | the leaf is added at the end, its index is returned, and the frontier stays the frontier of the leaves |
| Frontier.MerkleTree.Root | crates/settled-core/src/merkle.rs:72-87 | the root is the recursive root of all leaves appended so far, and absent for none |
| Inclusion.PathFromLeaf | crates/settled-core/src/proof.rs:38-53 | the top-down path is the leaf's sibling followed by the path of its parent one level up |
| Inclusion.PathHasPathLen | crates/settled-core/src/proof.rs:38-53 | a path has one element per level at which the leaf has a sibling |
| Inclusion.PathLenBound | crates/settled-core/src/proof.rs:27-53 | a path has at most ceil(log2 n) elements |
| Inclusion.PathReplays | crates/settled-core/src/proof.rs:27-91 | completeness: the generated path leads from its leaf to the root, for every tree and index |
| Inclusion.ReplayNeedsPathLen | crates/settled-core/src/proof.rs:69-90 | a proof leads anywhere if and only if it has exactly the path's length |
| Inclusion.ReplaySound | crates/settled-core/src/proof.rs:58-91 | soundness: whatever leads to the root is the leaf at that index with its path, or a node collision is extracted, and only then |
| Inclusion.VerifyInclusion | crates/settled-core/src/proof.rs:58-91 | the shift loop accepts exactly what replays to the root, and rejects indices out of range |
| Inclusion.UiFoldIsReplay | apps/ui/src/client/lib/verify.ts:58-85 | on proofs of the right length the UI loop, which does not skip levels, ends with the same hash as the core loop |
| Inclusion.CoreIsUiPlusLength | apps/ui/src/client/lib/verify.ts:58-91 | the core accepts exactly what the UI accepts and has an index in range and the right length |
| Inclusion.UiAcceptsExtraElement | apps/ui/src/client/lib/verify.ts:58-91 | a proof one element too long that the UI accepts and the core does not |
| Inclusion.UiAcceptsIndexOutOfRange | apps/ui/src/client/lib/verify.ts:58-91 | leaves that the UI accepts at indices that the tree does not have |
| Inclusion.UiVerifyInclusion | apps/ui/src/client/lib/verify.ts:52-95 | from the entry's data: the verdict is that of the fold, the core's on proofs of the right length, and the recorded steps trace every hash from leaf to computed root |
| Inclusion.UiShowsMembership | apps/ui/src/client/lib/verify.ts:58-91 | with any index, size and length, a leaf that the UI accepts against a root is one of the tree's leaves, up to a break |
| Consistency.SubproofRebuilds | crates/settled-core/src/proof.rs:113-199 | rebuilding from a generated proof and any tail gives both roots and leaves exactly the tail |
| Consistency.ProofAccepted | crates/settled-core/src/proof.rs:99-167 | completeness: the generated proof is accepted between the roots of every prefix and its tree |
| Consistency.SubproofHasSubLen | crates/settled-core/src/proof.rs:113-132 | the length of a generated proof depends on the two sizes only |
| Consistency.SubLenBound | crates/settled-core/src/proof.rs:113-132 | a consistency proof has at most ceil(log2 n) + 1 elements |
| Consistency.RebuildSound | crates/settled-core/src/proof.rs:171-199 | a rebuild that gives the root of L used the generated proof and the prefix root, or a collision is extracted |
| Consistency.ConsistencySound | crates/settled-core/src/proof.rs:137-199 | an accepted old root is the root of the first m leaves and the proof the generated one, up to a collision |
| Consistency.RootBindsLeaves | crates/settled-core/src/merkle.rs:11-22 | lists of equal length with one root are equal, up to a collision |
| Consistency.NoFork | crates/settled-core/src/proof.rs:137-199 | no proof of any length is accepted from the root of a list that is not a prefix, up to a collision |
| Consistency.Cursor.Next | crates/settled-core/src/proof.rs:151 | the shared iterator hands out the elements of the proof in order |
| Consistency.VerifySubproof | crates/settled-core/src/proof.rs:171-199 | the recursion over the shared iterator rebuilds both roots and leaves the rest of the proof |
| Consistency.VerifyConsistency | crates/settled-core/src/proof.rs:137-167 | the verdict, for all sizes, proofs and roots, including equal, zero and swapped sizes |
| Chain.ChainSafe | crates/settled-core/src/proof.rs:137-199 | in any chain of consistent heads that ends in the head of L, every head is the head of a prefix of L, up to a collision |
| Chain.ChainLeaf | crates/settled-core/src/proof.rs:58-199 | any leaf accepted under any head of the chain is the leaf of L at that index, up to a collision |
| Truncation.SizesCollide | crates/settled-core/src/merkle.rs:11-22 | trees of different sizes with one root give a break |
| Truncation.TruncatedPathRejected | crates/settled-core/src/proof.rs:27-91 | a path generated from too few leaves verifies no leaf against the root, up to a break |
| Truncation.TruncatedProofRejected | crates/settled-core/src/proof.rs:99-199 | a consistency proof generated from too few leaves is not accepted, up to a break |
| Sdk.SplitByDoubling | sdks/rust/src/verifier.rs:24-30 | the doubling loop finds the same split point up to 2^63, and overflows exactly above |
| Sdk.VerifySubproof | sdks/rust/src/verifier.rs:108-132 | the SDK's recursion rebuilds the same roots as the core's, and overflows exactly when it splits a size above 2^63 |
| Sdk.VerifyConsistency | sdks/rust/src/verifier.rs:73-106 | on all 64-bit sizes the SDK's verdict is the core's, but for an overflow exactly when 0 < old < new and new > 2^63 |
| NodeTable.CompletedExactly | crates/settled-storage/src/tree_store.rs:79-94 | a leaf completes exactly the nodes by which each level has grown |
| NodeTable.NodesExactly | crates/settled-storage/src/tree_store.rs:75-97 | a node is emitted if and only if it is node i of level h of the leaves |
| NodeTable.NodesAreSubtrees | crates/settled-storage/src/tree_store.rs:75-97 | that is: (i+1)*2^h <= n, with the root of that aligned block |
| NodeTable.NodesDistinct | crates/settled-storage/src/tree_store.rs:75-97 | no node is emitted twice |
| NodeTable.NodesCount | crates/settled-storage/src/tree_store.rs:75-97 | 2n nodes less the number of one bits of n are emitted |
| NodeTable.NodesPrefix | crates/settled-storage/src/tree_store.rs:75-97 | the nodes of a prefix of the log come first among those of the log |
| NodeLoop.DenseEmit | crates/settled-storage/src/tree_store.rs:75-97 | on fewer than 2^63 leaves numbered from 0 without gaps the loops never miss their cache and emit exactly those nodes |
| NodeGaps.EmitSucceeds | crates/settled-storage/src/tree_store.rs:85-93 | on any leaves the loops find every cache entry if and only if each number comes after the left halves of the blocks that it ends |
| NodeGaps.ClosedIsComplete | crates/settled-storage/src/tree_store.rs:85-93 | for ascending numbers that is: nothing is missing from any aligned block that a number ends |
| NodeGaps.GapPanics | crates/settled-storage/src/tree_store.rs:87-88 | once the log has reached a number 2^h - 1, one missing number below it makes the loops panic |
| NodeGaps.EmitExactly | crates/settled-storage/src/tree_store.rs:75-97 | with or without gaps, a node is emitted if and only if a number ends its block, with the root of the block's leaves |
| NodeGaps.EmittedBlocksAreStored | crates/settled-storage/src/tree_store.rs:75-97 | nothing is missing from an emitted block, and its k-th leaf is the leaf of that number |
| NodeStore.EmitParents | crates/settled-storage/src/tree_store.rs:83-93 | the inner loop climbs as specified, a missing cache entry included |
| NodeStore.ComputeNodes | crates/settled-storage/src/tree_store.rs:75-97 | succeeds exactly on those numbers, returns what is emitted, and without gaps the nodes of the tree |
| NodeStore.NumberedLog | crates/settled-storage/src/tree_store.rs:62-66 | the leaves read from a log are ascending, and without gaps are numbered from 0 |
| NodeStore.NodesOfLog | crates/settled-storage/src/tree_store.rs:62-66 | for any log the nodes are computed exactly when its blocks are complete, and for a log without gaps they are those of its tree |
| NodeStore.RebuildPanics | crates/settled-storage/src/tree_store.rs:62-66 | a failed append and a successful one leave a log on which the rebuild panics |
| NodeTable.TableExactly | crates/settled-storage/src/tree_store.rs:17-39 | the stored table has a hash at (h, i) if and only if that block is complete, and it is the block's root |
| NodeTable.TableOfPrefix | crates/settled-storage/src/tree_store.rs:43-68 | a table left behind by a crash is short but never wrong |
| NodeTable.TableExtends | crates/settled-storage/src/tree_store.rs:17-26 | writing the new nodes on top of a prefix's table gives the table of the log |
| NodeStore.TreeStore.WriteBatch | crates/settled-storage/src/tree_store.rs:17-26 | the nodes are put into the table in order |
| NodeStore.TreeStore.RebuildFromLog | crates/settled-storage/src/tree_store.rs:43-68 | from any prior contents: succeeds exactly when the log's blocks are complete and then holds what is emitted, for a log without gaps the table of its tree; where the code panics, the table is left empty |
| Storage.LastWithIsGreatest | crates/settled-storage/src/log_store.rs:108-119 | the last entry with a key has the greatest number under it, and is absent exactly when there is none |
| Storage.IndexAlwaysAgrees | crates/settled-storage/src/log_store.rs:18-119 | after any mix of appends, batches, failed writes and reopens, the index maps each key to its last entry and holds no other key |
| Storage.WrittenRunsAreGapFree | crates/settled-storage/src/log_store.rs:18-90 | while every write succeeds, entries are numbered by position |
| Storage.BatchIsOneByOne | crates/settled-storage/src/log_store.rs:54-90 | a batch leaves the store of its entries appended one by one, but for timestamps, duplicate keys included |
| Storage.Collect | crates/settled-storage/src/log_store.rs:66-86 | the loop puts and returns each entry under its number, in order |
| Storage.LogStore.Open | crates/settled-storage/src/db.rs:64-78 | the next number is the least above all stored ones |
| Storage.LogStore.Append | crates/settled-storage/src/log_store.rs:18-49 | the log ends with one more entry, with the given key, data and timestamp and the returned number; or only the number is lost |
| Storage.LogStore.AppendBatch | crates/settled-storage/src/log_store.rs:54-90 | the log ends with all entries in order, with their keys and data, one timestamp and the returned numbers; or only the numbers are lost |
| Storage.LogStore.GetSeqByKey | crates/settled-storage/src/log_store.rs:108-119 | the index lookup finds the last entry of the log with the key |
| Pagination.PageSplits | crates/settled-storage/src/log_store.rs:124-199 | a page and the scan from its cursor make up the scan, even if the log has grown in between |
| Pagination.PagesAddUp | crates/settled-server/src/service.rs:336-353 | following cursors over a growing log collects exactly the filtered log, in order, each entry once, for every limit |
| Pagination.WalkEnds | crates/settled-storage/src/log_store.rs:163-199 | on a fixed log the walk ends, with the whole scan |
| Pagination.SelectMembers | crates/settled-storage/src/log_store.rs:124-199 | a scan yields wanted entries of the log in ascending order |
| Pagination.RangeScanExactly | crates/settled-storage/src/log_store.rs:163-199 | a scan of a range yields an entry if and only if it is in the log with a number from start on and below end, 0 being no bound |
| Pagination.SeqRangePaged | crates/settled-storage/src/log_store.rs:163-199 | at most limit entries in order, exactly those of the range up to the cursor, and a cursor exactly when the page is full and the range goes on |
| Pagination.KeyScanExactly | crates/settled-storage/src/log_store.rs:124-158 | a scan by key yields an entry if and only if it is in the log from start on under exactly that key |
| Pagination.EntriesByKey | crates/settled-storage/src/log_store.rs:124-158 | at most limit entries in order, exactly those under the key up to the cursor, and a cursor exactly when the page is full |
| Pagination.PageIsDescending | proto/settled.v1.proto:206-209 | a page is newest first, as the interface says, if and only if it can hold or there is at most one entry |
| Pagination.NewestComesLast | proto/settled.v1.proto:206-209 | two entries under one key that come back oldest first |
| Pagination.SeqRange | crates/settled-storage/src/log_store.rs:202-224 | all entries in [start, end), none for end 0 |
| Server.NextKeepsInv | crates/settled-server/src/service.rs:84-162 | every step keeps the invariant, only extends log and tree, and neither loses a head nor changes its root |
| Server.ServerSafe | crates/settled-server/src/sth_task.rs:36-74 | over all runs: the tree has the log's leaves, every stored head is the head of a prefix, roots never change, and the latest size never decreases |
| Server.BatchLeaves | crates/settled-server/src/service.rs:151-162 | a batch adds to the log the leaves that the tree is fed, in the same order |
| Server.DurableRunsAreGapFree | crates/settled-server/src/service.rs:84-162 | while every write succeeds, an entry's number is its leaf index |
| Server.CrashRecovers | crates/settled-server/src/state.rs:42-51 | a crash keeps log, index and heads, and the counter comes back as the least number above all stored ones |
| Server.SnapshotTakesAll | crates/settled-server/src/sth_task.rs:37-45 | a snapshot is the size and root of the whole tree, and none of an empty one |
| Server.SignerGivesUp | crates/settled-server/src/sth_task.rs:47-52 | a signer gives up exactly when the latest head is of its own size |
| Server.StoreHeadStores | crates/settled-server/src/sth_task.rs:54-74 | what is stored is the snapshot with its timestamp, signature, key and version, and no other head changes |
| Server.HeadsAreSigned | crates/settled-server/src/sth_task.rs:54-74 | every head stored in a run has the timestamp, signature, key and version of a step that stored it |
| Service.HeadStore.Write | crates/settled-storage/src/head_store.rs:15-24 | the head is stored under its size |
| Service.HeadStore.Latest | crates/settled-storage/src/head_store.rs:26-37 | the head with the greatest size, absent exactly when none is stored |
| Service.AppState.GetSth | crates/settled-server/src/service.rs:415-451 | the stored record, whole, of the size asked for, or for 0 of the greatest stored size; it is the head of that many leaves of the tree; an error exactly when none is stored |
| Service.AppState.Append | crates/settled-server/src/service.rs:67-93 | the limiter's verdict and its new level; unless refused exactly the append step, failures included, and a refusal takes no number |
| Service.AppState.BatchAppend | crates/settled-server/src/service.rs:114-162 | exactly the batch step unless the limiter refuses all of it; 1 to 1000 entries that are granted and written end the log in order; empty and larger batches change nothing, the limiter included |
| Service.AppState.FeedTree | crates/settled-server/src/service.rs:158-160 | the loop appends the batch's leaves to the tree in order |
| Service.AppState.SignAndStore | crates/settled-server/src/sth_task.rs:36-74 | run without interruption, it is the signer's three steps |
| Service.AppState.Build | crates/settled-server/src/state.rs:44-51 | startup takes exactly the crash step: counter recovered, tree rebuilt from the log |
| Rpc.InclusionRpcAnswers | crates/settled-server/src/service.rs:453-515 | the answer in every case: which error with which values, and the size, index and stored head of a success; size 0 is the greatest size with a head |
| Rpc.ConsistencyRpcAnswers | crates/settled-server/src/service.rs:517-600 | the answer in every case, with both stored heads of a success |
| Rpc.BelowComplete | crates/settled-storage/src/log_store.rs:202-224 | a read of the numbers below n finds at most n entries, and n exactly when none is missing |
| Rpc.InclusionRpcExact | crates/settled-server/src/service.rs:453-515 | every success over every interleaving is about the size asked for and carries its stored head; it verifies the stored entry if the read was complete, and nothing otherwise, up to a break |
| Rpc.ConsistencyRpcExact | crates/settled-server/src/service.rs:517-600 | every success over every interleaving is about the sizes asked for and carries their stored heads; it is accepted if the read was complete, and not otherwise, up to a break |
| Rpc.CompleteWhenSigned | crates/settled-server/src/service.rs:485-506 | without failed writes a read is complete exactly when the log has n entries, so whenever a head of size n is stored |
| Rpc.InclusionRpcVerifies | crates/settled-server/src/service.rs:453-515 | without failed writes, for the default or a stored size: success for exactly the numbers below it, and it verifies |
| Rpc.ConsistencyRpcVerifies | crates/settled-server/src/service.rs:517-600 | without failed writes, for the default or a stored size: success for exactly the older heads, and it is accepted |
| Rpc.RaceDoesNotVerify | crates/settled-server/src/service.rs:485-600 | successes of both calls that do not verify because the head was stored after the log was read |
| Rpc.GapDoesNotVerify | crates/settled-storage/src/log_store.rs:19 | successes of both calls that do not verify because a failed write used up a number |
| Watch.NextKeepsInv | crates/settled-server/src/service.rs:246-329 | every step keeps: delivered entries are what the replay read, then the records among what was received |
| Watch.WatchAscends | crates/settled-server/src/service.rs:246-329 | in every interleaving the numbers on a stream strictly increase, across the end of the replay too |
| Watch.WatchDeliversLog | crates/settled-server/src/service.rs:246-329 | everything that a stream delivers is an entry of the log |
| Watch.NothingLost | crates/settled-server/src/service.rs:302-315 | a live stream has everything replayed and received exactly when the broadcasts not covered by the replay came in order |
| WatchInOrder.WatchGapFree | crates/settled-server/src/service.rs:246-329 | with broadcasts in commit order a stream is one stretch of the log, up to what it has received |
| WatchInOrder.WatchStartsAtFrom | crates/settled-server/src/service.rs:260-315 | run by run, such a stream delivers exactly the entries from from_seq on if and only if the replay found one, or the next broadcast is the first of them, or it is empty |
| WatchInOrder.WatchKeepsPromise | proto/settled.v1.proto:126-130 | a stream delivers what the interface promises, for 0 and for other numbers, in all runs with broadcasts in order, if and only if a condition on the log, the counter, what is waiting and from_seq holds when it is opened |
| WatchInOrder.ReadyDelivers | crates/settled-server/src/service.rs:246-329 | under that condition what every such run has delivered is the beginning of what is promised |
| WatchDrain.ReplayDeliversAll | crates/settled-server/src/service.rs:262-300 | progress: by its own steps a stream opened from a number on delivers all stored entries from there on, in order |
| WatchDrain.CatchesUp | crates/settled-server/src/service.rs:260-315 | from any state, a stream that has not ended and is at most 1024 items behind finishes its replay and receives all that was broadcast |
| WatchDrain.WatchDelivers | proto/settled.v1.proto:126-130 | after any run with broadcasts in order, a stream opened in a ready state goes on to deliver all that is promised, but for entries still waiting to be broadcast |
| WatchInOrder.StoredIsDelivered | crates/settled-server/src/service.rs:98-106 | for 0, an entry stored before the subscription and broadcast after it is delivered |
| WatchInOrder.PendingIsDelivered | crates/settled-server/src/service.rs:302-315 | such an entry is delivered also when it is below from_seq |
| WatchInOrder.EarlierIsDelivered | crates/settled-server/src/service.rs:302-315 | on any log, and after any failed writes, an entry appended below from_seq is delivered |
| WatchServer.StepIsSteps | crates/settled-server/src/service.rs:84-106 | every step of the server is, to a stream, the commits of its entries or the loss of their numbers |
| WatchServer.EventsAgree | crates/settled-server/src/service.rs:84-329 | in every interleaving of server and stream the stream reads the server's log and counter |
| WatchServer.ServerWatchAscends | crates/settled-server/src/service.rs:84-329 | a stream of any running server delivers entries of its log, in ascending order |
| Watch.LagEnds | crates/settled-server/src/service.rs:314-322 | a live stream more than 1024 items behind ends at its next receive and delivers nothing more |
| Watch.HangupEnds | crates/settled-server/src/service.rs:311-313 | a client that hangs up gets nothing more |
| WatchLoops.ReplayLoop | crates/settled-server/src/service.rs:262-300 | the replay loop sends the walk over the pages and remembers the last number |
| WatchLoops.LiveLoop | crates/settled-server/src/service.rs:302-315 | the live loop sends the records among the items it receives, in ascending order |
| Watch.OutOfOrderLoses | crates/settled-server/src/service.rs:100-106 | two broadcasts in the opposite order: both entries received, the first never delivered |
| RateLimit.AlwaysWithinCapacity | crates/settled-server/src/rate_limit.rs:22-33 | tokens stay between 0 and the capacity in every run, whatever the clock does |
| RateLimit.TokensConserved | crates/settled-server/src/rate_limit.rs:22-33 | what was there and the time that passed, times the rate, is what was granted, what is left and what was spilled |
| RateLimit.SpillsWhenFull | crates/settled-server/src/rate_limit.rs:25 | tokens are spilled only when the bucket is full |
| RateLimit.GrantsExactly | crates/settled-server/src/rate_limit.rs:24-32 | a request is granted if and only if it is within the capacity and what was left plus the time since, times the rate, is enough |
| RateLimit.WindowBound | crates/settled-server/src/rate_limit.rs:11-65 | in any window of any run at most capacity plus rate times its length is granted |
| RateLimit.RefusalSpendsNothing | crates/settled-server/src/rate_limit.rs:50-65 | after a refusal every later request fares as if it had not been made |
| RateLimit.OversizedRefused | crates/settled-server/src/rate_limit.rs:52-65 | more than the capacity is never granted |
| RateLimit.GrantedInTime | crates/settled-server/src/rate_limit.rs:22-65 | a request within the capacity is granted after waiting long enough |
| RateLimit.Bucket.TryConsume | crates/settled-server/src/rate_limit.rs:22-33 | serves a request for one token |
| RateLimit.Bucket.TryConsumeN | crates/settled-server/src/rate_limit.rs:52-65 | serves a request for n tokens, all or none |

## Left out

- SHA-256 and Ed25519, and the content of a signature: hash functions are arbitrary functions, a signature is an opaque field.
- Which key a head is signed with, key rotation, the key store and its seeding at startup: `sign`, `public_key` and `key_version` are read under separate locks.
- The order of timestamps: they come from the wall clock and nothing enforces it.
- RocksDB, byte encodings of keys, protobuf, read errors and corrupt records: column families are ordered lists or maps of records. Only failed log writes are modelled, because they leave gaps.
- gRPC and HTTP plumbing, metrics, configuration, defaults and caps of page limits: thin wrappers.
- Inclusion.UiVerifyInclusion: proof elements are hashes, not hex strings, and the text of the reason for a failure is not modelled.
- `get`, `get_latest`, `LogStore::latest`, `HeadStore::range`: plain reads that would only add easy members.
- The Go, Python, Java, TypeScript and .NET verifiers, and signature checks in the SDKs: copies of the Rust algorithm, or cryptography.
- The iterative consistency pseudo-code in docs/wire-format.md section 4.2: the code is recursive, and the model follows the code.
- The witness node that the design documents describe is not part of this model.
- Frontier.MerkleTree.Append: fewer than 2^64 leaves, the range of the 64-bit size; likewise the sizes in Consistency.VerifyConsistency.
- NodeStore.ComputeNodes: the number 2^64 - 1, on which `j + 1` would overflow, is not excluded; the scan of the log never returns it.
- RateLimit.Bucket.TryConsumeN: reals for floating-point numbers, so no rounding.
- Service.AppState.SignAndStore: one uninterrupted execution; its interleavings are those of the three steps in `Server`.
- WatchLoops.ReplayLoop: the two loops of a stream are imperative, the interleaving of their steps with commits and broadcasts is the state machine of `Watch`. A slow client's back-pressure shows only as steps not taken.
