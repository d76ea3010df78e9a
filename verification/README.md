# A verified model of the CDK node's trees, sync protocol, batch codec and certificate sender

This project models the parts of the CDK node whose correctness spans several operations, and proves what they
promise for every input and every run.

- **Merkle trees** (`Merkle`, `NodeTable`, `AppendOnlyTree`, `AppendOnlyLimits`, `UpdatableTree`, `L1InfoTree`). One recursive
  specification, the root of a zero-padded binary tree, is what the persisted append-only tree with its in-memory
  cache, the persisted updatable tree, the incremental L1 info tree and the full rebuild are all proved equal to.
  The hash function is a parameter. The L1 info tree needs nothing of it; the node table, which is addressed by
  hash, needs that no two nodes it ever stores, and no empty subtree, share a hash (`NodeTable.Clean`).
- **Chain sync** (`ChainSync`, `SyncSteps`, `SyncRuns`, `ReorgDetector`, `Downloader`). Downloader, driver, processor and reorg detector as a
  state machine over a chain that may be replaced above its finalised block. A block hash fixes the chain up to it.
- **Batch V2 codec** (`Rlp`, `BatchV2`, `BatchGrammar`). Printer, both parsers, RLP and the signature's V, with 64-bit lengths.
- **Bridge syncer, certificate sender and epoch clock** (`BridgeSync`, `BridgeVerdicts`, `AggSender`,
  `CertificateTurns`, `BridgeRounds`, `EpochNotifier`). `BridgeRounds` runs syncer and sender together.
- **L1 info processor, verified batches and the bridge index search** (`L1InfoProcessor`, `L1InfoVerdicts`,
  `VerifyBatches`, `BridgeSearch`). `L1InfoVerdicts` and `BridgeVerdicts` judge a block by the rows alone, and prove that
  the processors, with their trees, caches and rollbacks, answer exactly that.

Objects that the program updates in place are classes here, with methods proved against functions of their old
state; the theorems over whole runs are about those functions. `dafny verify dfyconfig.toml` checks everything.

## What the code does not do

Where the code is narrower than its intent the model follows the code, and a lemma says exactly when it is right.

- A rolled-back block leaves the append-only tree's cache changed. It is harmless, for every tree, block and next leaf,
  exactly when the first index is 0 or the number of leaves does not exceed the largest power of two dividing it; beyond
  that a tree of ones records a wrong root for every next leaf that is not zero (`AppendOnlyLimits.RollbackHarmlessIff`,
  `AppendOnlyLimits.UnsafeRollback`).
- After a reorg the stale last index lets one wrong leaf index through (`AppendOnlyTree.IndexAcceptedIff`,
  `AppendOnlyLimits.StaleIndexAccepted`).
- Bridge events carry no position, so two bridges of a block write two roots at one (block, position), and the query for
  the last root may answer either. A rebuild of the cache is right for every answer exactly when every other root is
  strictly before the newest; otherwise it may stop at an older leaf and refuse the next one
  (`AppendOnlyLimits.RebuildRightIff`, `AppendOnlyLimits.TiedRebuildRefuses`).
- A root hash is a primary key, so a write that takes the updatable tree back to an earlier state is refused; a rollup
  whose exit root returns to a former value stops the processor (`UpdatableTree.RefusedIff`,
  `VerifyBatches.ReturnToFormerExitRootFails`, `VerifyBatches.ThereAndBackFails`).
- `ComputeMerkleProof` converts a length to 32 bits, which wraps for 2^32 - 1 and 2^32 leaves (`L1InfoTree.WrappedProofFoldsIff`,
  `L1InfoTree.WrappedProofFails`), and so a tree started from 2^32 - 1 leaves adds the next one wrongly
  (`L1InfoTree.LongestPrefixAddsRightIff`, `L1InfoTree.LongestPrefixFails`).
- After a certificate in error the next one takes its previous exit root from the failed one, and with a collision-free
  hash that root is then always wrong (`AggSender.PreviousRootRightIff`, `AggSender.WrongPreviousRoot`).
- Zero values stand for missing ones: a zero exit root restarts the heights, and a failed certificate with a zero id is
  kept beside its resend (`AggSender.NextHeightRightIff`, `AggSender.ResendReplacesIff`,
  `AggSender.ZeroIdKeepsBoth`).
- `DecodeTxRLP` slices out of range on lengths whose end wraps (`BatchV2.OutOfRangeIff`, `BatchV2.WrappedSlice`);
  `DecodeTxs` reports no error on a cut-short long header (`BatchV2.SilentlyEmptyIff`, `BatchV2.CutShortByte`);
  a dynamic-fee transaction is read back with its fields shifted (`BatchV2.DynamicFeeShifts`); the block number is not encoded (`BatchV2.BatchRoundTrip`).
- The first epoch is never notified when an epoch is one block long (`EpochNotifier.EveryEpochOnce`).
- The index search sees only the first leaf of each block and stops at any leaf with exactly the deposit
  (`BridgeSearch.FirstIsFoundIff`, `BridgeSearch.TwoLeavesInABlock`, `BridgeSearch.SameExitRootTwice`).
- A restart forgets that the L1 info processor was halted (`L1InfoProcessor.ReleasedIff`).
- A syncer that an inconsistency has halted reads a zero block from the channel of its cancelled downloader and has it
  tracked. The next pass finds a mismatch at block 0, so that every row goes and the sync starts over at block 1,
  although no reorg has happened (`SyncRuns.ZeroBlockStartsOver`).
- A block put in by hand so that the sync starts after it goes with a reorg at or below it, and the sync then starts at
  block 1 (`SyncRuns.FloorGivenUpIff`). The bridge syncer puts in its initial block itself, so that logs in that block
  are not synced.

## Model

| member | source | states |
|---|---|---|
| `Merkle.CalculateRoot` | tree/tree.go:259-272 | the loop over the proof is the climb from the leaf past the siblings |
| `Merkle.GenerateZeroHashes` | tree/tree.go:139-155 | entry h is the root of the empty tree of height h |
| `Merkle.ClimbInsert` | tree/updatabletree.go:38-55 | climbing past the siblings of leaf i with a new value gives the node of the tree with that leaf replaced |
| `Merkle.ClimbToRoot` | tree/tree.go:259-272 | from a leaf, its siblings lead to the root of the whole tree |
| `Merkle.ClimbBinds` | tree/tree.go:259-272 | with a collision-free hash no other leaf and no other proof reach the same root |
| `Merkle.RootBinds` | tree/tree.go:29-40 | with a collision-free hash the root determines every leaf below 2^height |
| `L1InfoTree.BuildIntermediate` | l1infotree/tree.go:61-74 | hashing a level of even length in pairs gives the level above |
| `L1InfoTree.BuildL1InfoRoot` | l1infotree/tree.go:77-98 | succeeds exactly on lists that fit (and height at least 1) and gives the zero-padded root |
| `L1InfoTree.ComputeMerkleProof` | l1infotree/tree.go:101-142 | the siblings of the leaf in the zero-padded tree and its root; fails exactly on lists that do not fit |
| `L1InfoTree.ProofFolds` | l1infotree/tree.go:101-142 | for every index below 2^height, past the end included, folding the built proof gives the rebuilt root |
| `L1InfoTree.WrappedProofFoldsIff` | l1infotree/tree.go:101-142 | where the 32-bit length wraps, the proof of i folds to the root exactly when the leaf next to i is zero |
| `L1InfoTree.WrappedProofFails` | l1infotree/tree.go:101-142 | 2^32 - 1 ones: the proof of leaf 0 does not fold to the root |
| `L1InfoTree.AddedTracks` | l1infotree/tree.go:145-176 | one added leaf takes root, count and kept siblings from those of a list to those of the list with that leaf |
| `L1InfoTree.IncrementalIsRebuild` | l1infotree/tree.go:145-201 | starting from any prefix and adding the rest gives the root and count of the full rebuild of the whole list |
| `L1InfoTree.LongestPrefixAddsRightIff` | l1infotree/tree.go:180-201 | started from 2^32 - 1 leaves, the next root is right exactly when the last of them is zero |
| `L1InfoTree.LongestPrefixFails` | l1infotree/tree.go:180-201 | started from 2^32 - 1 ones, the root after any next leaf is wrong |
| `L1InfoTree.Tree.Create` | l1infotree/tree.go:21-38 | fails exactly on lists that do not fit; otherwise holds the initial state for the list |
| `L1InfoTree.Tree.AddLeaf` | l1infotree/tree.go:145-176 | refuses any index but the count and then changes nothing; otherwise takes the specified step |
| `L1InfoTree.Tree.Rise` | l1infotree/tree.go:152-171 | the loop climbs with the kept siblings and keeps the first left child on the path |
| `NodeTable.StoreNodes` | tree/tree.go:157-171 | the table after inserting the nodes, skipping hashes already in it |
| `NodeTable.GetSiblings` | tree/tree.go:53-108 | the walk down from a root collects the siblings, empty subtrees below a missing node |
| `NodeTable.GetLeaf` | tree/tree.go:232-247 | the walk down from a root finds the leaf, or nothing when a node is missing |
| `NodeTable.GetLastRoot` | tree/tree.go:185-198 | a row that no other row is after, any of those that tie, or nothing on an empty table |
| `NodeTable.LastIsNewestIff` | tree/tree.go:185-198 | the query is certain to return the row written last exactly when every other row is strictly before it |
| `NodeTable.DeleteCuts` | tree/tree.go:250-256 | on a root table in block order a reorg cuts off a suffix, exactly the rows from that block on |
| `BlockRows.KeepCuts` | bridgesync/processor.go:250-257 | on any table in block order the delete by block number cuts off exactly the rows from that block on |
| `NodeTable.SiblingsRead` | tree/tree.go:53-108 | from a stored tree the walk returns that tree's siblings, also where it falls back to empty subtrees |
| `NodeTable.LookupReads` | tree/tree.go:232-247 | from a stored tree the walk finds every leaf of it and never another value |
| `NodeTable.WrittenHolds` | tree/tree.go:157-175 | writing a leaf's path and root keeps every earlier stored tree readable and adds the new one |
| `NodeTable.ReorgHolds` | tree/tree.go:250-256 | deleting roots keeps the surviving ones readable although no node is deleted |
| `NodeTable.StoredRootsRead` | tree/tree.go:53-121 | on any stored root, in any later state, every proof leads to it and every leaf look-up returns its leaf |
| `AppendOnlyTree.RebuildIsExact` | tree/appendonlytree.go:81-122 | walking the last root rebuilds, level by level, the cache that adding leaf by leaf would hold |
| `AppendOnlyTree.AddLeafGood` | tree/appendonlytree.go:31-79 | a leaf is accepted unless its root is already stored; the new root is the specification root of all leaves |
| `AppendOnlyTree.IndexAcceptedIff` | tree/appendonlytree.go:32-43 | the index check passes exactly the next index and the one after a stale last index |
| `AppendOnlyTree.AnswerForced` | tree/appendonlytree.go:32-43 | when the last root is certain, or no rebuild is needed, every answer of the query adds the leaf alike |
| `AppendOnlyTree.StepGood` | tree/appendonlytree.go:31-122 | commit, failed commit, rollback, reorg and restart each keep the tables those of the surviving leaves and the cache usable, positions repeated or not |
| `AppendOnlyTree.RunGood` | tree/appendonlytree.go:31-122 | so does every run of them |
| `AppendOnlyTree.FeedGood` | tree/appendonlytree.go:31-79 | a new tree fed the surviving leaves is in a good state for them |
| `AppendOnlyTree.GoodStatesAgree` | tree/tree.go:53-256 | two good states for the same leaves have the same root table, proofs and look-ups |
| `AppendOnlyTree.GoodStatesRead` | tree/tree.go:53-121 | in a good state every proof folds to the stored root of leaf k and every look-up of i up to k returns leaf i |
| `AppendOnlyTree.GoodStatesAdd` | tree/appendonlytree.go:31-79 | they treat the next leaf alike: same verdict, same root table, same memory |
| `AppendOnlyTree.RunIsFreshTree` | tree/appendonlytree.go:31-43 | after any run, orphan nodes and stale cache notwithstanding, the tree reads like a fresh one fed the surviving leaves and treats the next leaf like it |
| `AppendOnlyTree.RollbackSafeIff` | tree/appendonlytree.go:47-78 | leaves i..j share the kept nodes of i exactly when j is below i plus the lowest set bit of i |
| `AppendOnlyLimits.RollbackHarmlessIff` | db/tx.go:52-60 | for every tree, rolled-back block of n leaves from i and next leaf, the recorded root is right exactly when i is 0 or n is at most that lowest bit |
| `AppendOnlyLimits.AddAllCache` | tree/appendonlytree.go:47-63 | the cache after a block's leaves, accepted or refused, is that of the leaves tried one after the other |
| `AppendOnlyLimits.UnsafeIsWrong` | tree/appendonlytree.go:77-77 | beyond the bound, with a collision-free hash, the kept cache of concrete leaves gives a wrong root for every next leaf |
| `AppendOnlyLimits.UnsafeRollback` | tree/appendonlytree.go:77-77 | the tree itself, after the rollback, accepts every next leaf that is not zero and records a wrong root for it |
| `AppendOnlyLimits.SafeRollback` | tree/appendonlytree.go:77-77 | within the bound every tree records the right root, whatever the block and the next leaf |
| `AppendOnlyLimits.NonzeroAccepted` | tree/appendonlytree.go:31-79 | with a collision-free hash a leaf that is not zero is never refused |
| `AppendOnlyLimits.RebuildRightIff` | tree/appendonlytree.go:81-122 | a rebuild leaves the exact cache and index for every answer of the query exactly when every other root is strictly before the newest |
| `AppendOnlyLimits.TiedRebuildRefuses` | bridgesync/processor.go:289-295 | two bridges of one block, then a restart: a legal answer rebuilds up to leaf 0, and leaf 2 is refused |
| `AppendOnlyLimits.StaleIndexAccepted` | tree/appendonlytree.go:32-43 | n leaves committed and reorged away: index n is then accepted although no leaf is left |
| `AppendOnlyTree.Tree.Append` | tree/appendonlytree.go:31-79 | on any tables the method does what the specified step does, accepted or not, for an answer that the query may give |
| `AppendOnlyTree.Tree.BuildCache` | tree/appendonlytree.go:81-122 | likewise for initCache |
| `AppendOnlyTree.Tree.Rise` | tree/appendonlytree.go:45-63 | the loop over the levels gives the root, the nodes and the renewed cache |
| `AppendOnlyTree.Tree.DeleteRoots` | tree/tree.go:250-256 | a reorg deletes the roots from that block on and leaves nodes and memory |
| `UpdatableTree.UpsertIsSpec` | tree/updatabletree.go:26-68 | the new root is the specification root of the old leaves with this one replaced; refused exactly when that root is stored |
| `UpdatableTree.LastRootReads` | tree/tree.go:232-247 | a look-up under the last root reads what the writes left at that index |
| `UpdatableTree.OtherLeavesStay` | tree/updatabletree.go:26-68 | after an accepted write the look-up of its index gives the new leaf, and the look-up of any other index what it gave before |
| `UpdatableTree.ReturnRefused` | tree/updatabletree.go:56-63 | a write back to an earlier state is refused |
| `UpdatableTree.RefusedIff` | tree/updatabletree.go:56-63 | with a collision-free hash exactly those writes are refused |
| `UpdatableTree.RunIsSpec` | tree/updatabletree.go:26-68 | after any run of writes and reorgs the last root is the specification root of the surviving leaves |
| `UpdatableTree.OrderIrrelevant` | tree/updatabletree.go:26-68 | runs that leave the same leaves behind, in any order, have the same last root |
| `UpdatableTree.Tree.UpsertLeaf` | tree/updatabletree.go:26-68 | on any tables the method does what the specified write does, from a root that the query may answer |
| `VerifyBatches.ProcessGood` | l1infotreesync/processor_verifybatches.go:14-51 | each rollup's leaf is its last non-zero exit root and the event is stored with the new root; refused exactly when it brings a new exit root and the tree's new root repeats an earlier one |
| `VerifyBatches.SkippedIsRight` | l1infotreesync/processor_verifybatches.go:53-71 | a skipped event would not have changed the leaves |
| `VerifyBatches.SkippedIff` | l1infotreesync/processor_verifybatches.go:15-34 | an event is skipped exactly when it has no exit root or the last one of its rollup |
| `VerifyBatches.LeafOfRollup` | l1infotreesync/processor_verifybatches.go:37-43 | the leaf below each rollup id is the last non-zero exit root found by walking the events for that id |
| `VerifyBatches.ReorgGood` | l1infotreesync/processor.go:249-260 | a reorg takes the tree back to the exit roots of the blocks that are left |
| `VerifyBatches.GoodPromise` | l1infotreesync/processor_verifybatches.go:14-71 | the last root is the root of the tree whose leaf below each rollup id is its last non-zero exit root, and each can be read back |
| `VerifyBatches.ReturnToFormerExitRootFails` | l1infotreesync/processor_verifybatches.go:37-43 | an exit root that goes to another value and back is refused the second time |
| `VerifyBatches.ThereAndBackFails` | l1infotreesync/processor_verifybatches.go:37-43 | from empty tables, with a collision-free hash, exit roots a, b and a again: the first two are taken, the third is refused |
| `VerifyBatches.AnswersForced` | l1infotreesync/processor_verifybatches.go:53-71 | with the last root certain, both queries for it can only lead to the specified step |
| `VerifyBatches.RunGood` | l1infotreesync/processor_verifybatches.go:14-71 | every run of blocks, all or none of each, and reorgs keeps that state |
| `VerifyBatches.RunPromise` | l1infotreesync/processor_verifybatches.go:14-71 | after every such run the same holds for the surviving events |
| `VerifyBatches.Verifier.ProcessVerifyBatches` | l1infotreesync/processor_verifybatches.go:14-51 | on any tables the method does what the step does to tree and rows, and fails exactly when it does, for answers that the two queries may give |
| `VerifyBatches.Verifier.IsNewValueForRollupExitTree` | l1infotreesync/processor_verifybatches.go:53-71 | on any tables, reads the rollup's leaf under a root that the query may answer and compares |
| `ChainSync.ChunkLinked` | sync/evmdownloader.go:84-114 | a chunk carries on from the block before it, ends at its last block and hides no matching log |
| `SyncSteps.TrackInv` | sync/evmdriver.go:111-133 | tracking a block before processing it keeps the invariant |
| `SyncSteps.ProcessInv` | sync/evmdriver.go:134-165 | processing the block in hand keeps it |
| `SyncSteps.ScanInv` | reorgdetector/reorgdetector.go:110-188 | a detection pass keeps it: what it untracks is final and on the chain |
| `SyncSteps.HandleReorgInv` | sync/evmdriver.go:167-187 | handling a reorg and restarting the download after the last processed block keeps it |
| `SyncSteps.StepInv` | sync/evmdriver.go:68-187 | every step keeps the invariant: rows linked without gaps, each tracked or final, downloads carrying on from them |
| `SyncRuns.RunInv` | sync/evmdriver.go:68-187 | so does every run |
| `ChainSync.OnChainIsExact` | sync/evmdownloader.go:74-116 | linked blocks that are on a chain hold its matching logs up to the last of them, each once and in order |
| `SyncRuns.CleanPassIsExact` | reorgdetector/reorgdetector.go:140-168 | after a pass that finds nothing the processor is exact for the chain |
| `SyncRuns.PassIsExact` | reorgdetector/reorgdetector.go:140-181 | whatever a pass finds, the blocks tracked up to it, less those from the mismatch on, are exact for the chain |
| `SyncRuns.HandledReorgIsExact` | sync/evmdriver.go:167-187 | what survives a handled reorg of what was tracked when the pass read the list is exact for the chain it read, whatever happened in between |
| `SyncRuns.ReorgPassIsExact` | reorgdetector/reorgdetector.go:170-181 | a reorg that is found and handled next, after the block in hand if there is one, leaves the processor exact for the chain |
| `ChainSync.PassIs` | reorgdetector/reorgdetector.go:140-184 | a pass stops at the first header that is not on the chain, fails or reports it, and untracks exactly the finalised ones before it |
| `SyncRuns.HandledKeepsIff` | sync/evmdriver.go:167-187 | a handled reorg keeps exactly the rows below it, downloads on behind them, and releases the processor exactly when something went |
| `SyncRuns.RemovedIff` | reorgdetector/reorgdetector.go:170-181 | the removal untracks exactly what the pass had listed from the mismatch on |
| `SyncRuns.CleanPassUntracks` | reorgdetector/reorgdetector.go:152-168 | a pass that finds nothing untracks exactly the finalised blocks |
| `SyncRuns.RepairedIsClean` | reorgdetector/reorgdetector.go:170-181 | after a reorg is found, handled and removed, the next pass over the same chain finds nothing |
| `SyncRuns.CatchesUp` | sync/evmdriver.go:97-187 | after a pass that finds nothing, one chunk downloaded and processed makes the processor exact up to the chunk's end |
| `SyncRuns.ReorgIsRepaired` | reorgdetector/reorgdetector.go:170-181 | both together: a reorg that is found is repaired, up to any block of the new chain |
| `SyncRuns.FailureStops` | sync/evmdriver.go:146-151 | after a block that fails nothing is downloaded or processed and no row changes before a reorg is handled |
| `SyncRuns.EveryRunIsExactAfterAPass` | sync/evmdriver.go:68-187 | over every run, from any starting block and whatever lies before it: exact from there on after a clean pass; exact up to the mismatch when one is found, with or without a block in hand; and exact for the chain the pass read when the reorg is handled, however long after |
| `SyncRuns.FloorGivenUpIff` | bridgesync/bridgesync.go:124-131 | the block put in by hand goes exactly when a handled reorg starts at or below it |
| `SyncRuns.ZeroBlockStartsOver` | sync/evmdriver.go:100-102 | a halted syncer that reads the zero block of a closed channel loses every row at the next pass, starts over at block 1 and is released if it had any row |
| `SyncRuns.TornChunkLosesALog` | sync/evmdownloader.go:97-113 | a chunk read from two chains can lose a log that no pass will notice |
| `ReorgDetector.HeadersList.Add` | reorgdetector/types.go:61-66 | the header replaces the one of its number and no other |
| `ReorgDetector.HeadersList.Get` | reorgdetector/types.go:83-92 | the header of a number, if tracked |
| `ReorgDetector.HeadersList.GetSorted` | reorgdetector/types.go:95-109 | every tracked header once, in ascending order |
| `ReorgDetector.HeadersList.RemoveRange` | reorgdetector/types.go:112-118 | exactly the headers of the range are gone |
| `ReorgDetector.HeadersList.Detect` | reorgdetector/reorgdetector.go:140-184 | the loop stops at the lowest mismatch and untracks exactly the matching final headers before it |
| `Downloader.GetLogs` | sync/evmdownloader.go:254-263 | the logs with a wanted topic, in order, each once |
| `ChainSync.MatchingJoins` | sync/evmdownloader.go:254-263 | logs are taken one by one, in order, exactly those with a wanted topic |
| `Downloader.GroupedRange` | sync/evmdownloader.go:185-222 | grouping the filtered logs of a range gives its blocks with matching logs |
| `Downloader.GetEventsByBlockRange` | sync/evmdownloader.go:178-226 | the blocks of the range that have matching logs, with all of them in order |
| `Downloader.DownloadTurn` | sync/evmdownloader.go:84-114 | one turn sends the chunk that the protocol specifies, to the chunk's full size or the last block, and moves on behind it |
| `Rlp.ReadHead` | state/encoding_batch_v2.go:353-383 | a size header of Appendix B of the Ethereum Yellow Paper is read back as kind, header length and size |
| `Rlp.StringRoundTrip` | state/helper.go:61-64 | an encoded byte string is read back, and what follows it is left |
| `Rlp.ListRoundTrip` | state/helper.go:61-64 | a list of byte strings comes back from its encoding |
| `Rlp.ListCanonical` | state/helper.go:156-167 | the strict decoder accepts nothing but encodings |
| `BatchV2.SignatureSurvives` | state/helper.go:205-208 | V survives the map to 27 or 28 and back, before and after EIP-155 |
| `BatchV2.FieldsRoundTrip` | state/transaction.go:35-88 | the printed fields and signature of a signed legacy transaction give it back |
| `BatchV2.DynamicFeeShifts` | state/helper.go:43-48 | a dynamic-fee transaction is accepted and read with its fields shifted by one |
| `BatchV2.ListHeaderLength` | state/encoding_batch_v2.go:353-383 | the length computed from a header is that of the encoder's header and payload |
| `BatchV2.TxRoundTrip` | state/encoding_batch_v2.go:302-348 | wherever a prepared transaction stands it is read back, and the position is right behind it |
| `BatchV2.OutOfRangeIff` | state/encoding_batch_v2.go:308-319 | a slice is out of range exactly when the end wraps to within the data although the length does not |
| `BatchV2.WrappedSlice` | state/encoding_batch_v2.go:308-319 | a header of 2^64 - 10 declared bytes followed by any sixty bytes does it |
| `BatchV2.Encoder.AddBlockHeader` | state/encoding_batch_v2.go:188-193 | appends the nine bytes of the header |
| `BatchV2.Encoder.AddTransactions` | state/encoding_batch_v2.go:161-180 | appends the transactions in order |
| `BatchV2.EncodeBatchV2` | state/encoding_batch_v2.go:126-143 | refuses exactly the empty batch; otherwise headers and transactions in order |
| `BatchV2.EncodedBeforehand` | state/encoding_batch_v2.go:196-208 | a batch with transactions encoded beforehand decodes to the batch of those transactions |
| `BatchV2.DecodeBatchV2` | state/encoding_batch_v2.go:211-256 | the loop is the specified parser, error by error |
| `BatchGrammar.TxAcceptedIff` | state/encoding_batch_v2.go:302-348 | DecodeTxRLP accepts exactly where the encoding of a list of six strings or more stands with 66 bytes behind it |
| `BatchGrammar.TxReadIs` | state/encoding_batch_v2.go:302-348 | and then gives the transaction with those fields and that signature, and the position behind it |
| `BatchGrammar.SignatureRead` | state/transaction.go:35-88 | with six fields V is the signature's byte, with more it is 35 + 2 * chain id + parity |
| `BatchGrammar.BatchIs` | state/encoding_batch_v2.go:211-256 | DecodeBatchV2 for every input: the pieces put together, or which error at the first position without one |
| `BatchGrammar.BatchAcceptedIff` | state/encoding_batch_v2.go:211-256 | accepted are exactly the empty data and what starts with a header and is nothing but headers and transactions |
| `BatchV2.TxsRead` | state/encoding_batch_v2.go:232-250 | after a run of encoded transactions the parser goes on behind them with all of them in the current block |
| `BatchV2.BlocksRead` | state/encoding_batch_v2.go:211-256 | the same for a run of encoded blocks |
| `BatchV2.BatchRoundTrip` | state/encoding_batch_v2.go:126-256 | decoding an encoded batch of signed legacy transactions gives it back, block numbers aside, and reads every byte |
| `BatchV2.ReadTurn` | state/helper.go:84-181 | with 64-bit wrap-around no slice is out of range or reversed, and the position grows by at least 66 |
| `BatchV2.DecodeTxs` | state/helper.go:75-184 | for every input and fork the loop is the specified parser; from Dragonfruit on there are as many percentages as transactions |
| `BatchGrammar.TxsAcceptedIff` | state/helper.go:75-184 | transactions come out exactly of data that is nothing but transactions; other data is refused unless it leads to a header cut short |
| `BatchV2.DecodeForcedBatchV2` | state/encoding_batch_v2.go:260-281 | pairs transactions and percentages; the sanity check never fires; fails exactly when DecodeTxs does |
| `BatchV2.TurnsAgree` | state/helper.go:84-181 | on a header that is complete and does not wrap both parsers read the same |
| `BatchV2.ParsersAgree` | state/helper.go:75-184 | on such data DecodeTxs at ETROG and repeated DecodeTxRLP succeed together, with the same transactions and percentages |
| `BatchV2.SilentlyEmptyIff` | state/helper.go:98-101 | data that is not empty gives no error and no transactions exactly when complete transactions lead to a long header that is cut short |
| `BatchV2.CutShortByte` | state/helper.go:98-101 | the single byte 0xF8 does it |
| `AggSender.GetBridgeExits` | aggsender/aggsender.go:330-348 | one exit for each bridge, in order, each field that of the bridge |
| `AggSender.Storage.GetCertificatesByStatus` | aggsender/db/aggsender_db_storage.go:62-88 | the rows with one of the statuses, by height; without statuses every row |
| `AggSender.Storage.GetCertificateByHeight` | aggsender/db/aggsender_db_storage.go:96-105 | the first row of a height, if any |
| `AggSender.Storage.GetLastSentCertificate` | aggsender/db/aggsender_db_storage.go:108-116 | the highest row, or the zero value on an empty table |
| `AggSender.Storage.SaveLastSentCertificate` | aggsender/db/aggsender_db_storage.go:119-156 | replaces a row of that height unless its id is zero; all or nothing, refused when the id is taken |
| `AggSender.Storage.UpdateCertificateStatus` | aggsender/db/aggsender_db_storage.go:195-219 | only the status of the rows with that id changes |
| `AggSender.AggSender.CheckPendingCertificatesStatus` | aggsender/aggsender.go:491-534 | the loop does the specified poll, early returns included |
| `AggSender.AggSender.SendCertificate` | aggsender/aggsender.go:113-214 | the table after a send, a skip, a refusal or a failed save |
| `AggSender.AggSender.OnEpoch` | aggsender/aggsender.go:94-104 | sends only when the poll found nothing pending |
| `CertificateTurns.PollIs` | aggsender/aggsender.go:491-534 | a poll learns the status of an unsettled top exactly when it is answered and can be stored, and reports pending exactly when that is not a final one |
| `CertificateTurns.PublishedHas` | bridgesync/processor.go:191-206 | the range query returns exactly the bridges of the range |
| `CertificateTurns.StoredIff` | aggsender/aggsender.go:113-214 | with nothing pending a certificate is stored exactly when bridges are due and the answer allows it, and every field of it |
| `CertificateTurns.EpochIs` | aggsender/aggsender.go:94-214 | the table after any epoch, exactly |
| `CertificateTurns.DueIff` | aggsender/aggsender.go:143-159 | bridges are due exactly when one lies beyond the settled certificates |
| `CertificateTurns.EpochCatchesUp` | aggsender/aggsender.go:94-214 | in every run an epoch that finds nothing pending, bridges due and an answer that allows it leaves every bridge of the syncer certified once and in order |
| `AggSender.PendingIsTop` | aggsender/aggsender.go:536-545 | at most one certificate is unsettled, and it is the top one |
| `AggSender.PollGood` | aggsender/aggsender.go:491-534 | polling changes nothing but the status of an unsettled top; when it finds nothing pending, nothing is |
| `AggSender.SendIs` | aggsender/aggsender.go:113-214 | a stored certificate goes on top of the settled ones, or in place of a failed one, and starts right after them |
| `AggSender.StepInv` | aggsender/aggsender.go:113-253 | each epoch keeps heights 0..k, contiguous ranges from block 1, all below the top settled, exit roots chained when built on a settled one |
| `AggSender.RunInv` | aggsender/aggsender.go:113-253 | so does every run from the empty table, whatever L2 history does |
| `AggSender.RunKeeps` | aggsender/db/aggsender_db_storage.go:119-156 | a settled certificate never changes again |
| `AggSender.PublishedIsSlice` | bridgesync/processor.go:191-206 | the block range query returns the bridges of the range in their order |
| `AggSender.StepCovers` | aggsender/aggsender.go:256-293 | each epoch keeps every certificate equal to the bridges of its range and the exit root after them |
| `AggSender.EveryBridgeOnce` | aggsender/aggsender.go:113-214 | over every run, while history up to the top stands, the certificates hold every bridge of blocks 1..ToBlock once and in order, and the top ends in the exit root after them |
| `AggSender.PreviousRootRightIff` | aggsender/aggsender.go:235-253 | the previous exit root is that before the first block exactly when the last certificate is not in error |
| `AggSender.WrongPreviousRoot` | aggsender/aggsender.go:235-253 | from the empty table, one bridge in block 1, sent, in error and sent again: stored with the failed root as the previous one |
| `AggSender.NextHeightRightIff` | aggsender/aggsender.go:246-250 | the next height is right exactly unless a stored certificate ended in a zero root |
| `AggSender.ResendReplacesIff` | aggsender/db/aggsender_db_storage.go:137-147 | a resend replaces the failed certificate exactly when its id is not zero |
| `AggSender.ZeroIdKeepsBoth` | aggsender/db/aggsender_db_storage.go:137-147 | the same with id zero: two certificates of one height |
| `BridgeSync.BridgeProcessor.ProcessBlock` | bridgesync/processor.go:267-314 | the whole new state, the tree's memory included; a block that fails changes no table |
| `BridgeSync.BridgeProcessor.Reorg` | bridgesync/processor.go:237-263 | the tables without the blocks from there on, or as they were |
| `BridgeSync.CutInv` | bridgesync/processor.go:250-257 | a reorg keeps exactly the rows of the blocks below it, with deposit counts 0..n-1 in block order and every bridge and claim in a stored block |
| `BridgeSync.StepOnTree` | bridgesync/processor.go:289-295 | every step of the processor is, for the tree inside it and its memory, a step of the append-only tree |
| `BridgeSync.StepKeeps` | bridgesync/processor.go:237-314 | each step keeps the tables in order, and the leaves that survive in the tree are the rows of the bridge table |
| `BridgeSync.RunKeeps` | bridgesync/processor.go:237-314 | so does every run, which is an admissible run of the tree |
| `BridgeSync.ViewIsInStep` | aggsender/aggsender.go:256-293 | after every run the certificate sender reads deposit counts 0..n-1 in block order, and with deposit i the specification root of deposits 0..i |
| `BridgeVerdicts.EveryAnswerIsTheVerdict` | bridgesync/processor.go:267-314 | after every run a block in order is stored exactly when no event repeats a position, a claim or an exit root; the rows are then the old ones and the block's |
| `BridgeRounds.RoundsSteady` | aggsender/aggsender.go:113-214 | syncer and sender in turns, no reorg at or below the top certificate: what each epoch reads is in step and agrees with the last one up to that block, which is still stored |
| `BridgeRounds.DepositsCertifiedOnce` | aggsender/aggsender.go:113-214 | from events to certificates: after any such rounds the certificates hold each stored bridge of blocks 1..ToBlock once and in order, and the top one ends in the specification root of their exit tree |
| `EpochNotifier.EpochIff` | aggsender/epoch_notifier_per_block.go:189-204 | the epoch of a block is the one whose first block and end enclose it |
| `EpochNotifier.PastIff` | aggsender/epoch_notifier_per_block.go:168-184 | the capped threshold in whole numbers |
| `EpochNotifier.StepRight` | aggsender/epoch_notifier_per_block.go:134-160 | a step publishes exactly when it sees the first new-highest block past the threshold of its epoch, with 1 to N blocks pending |
| `EpochNotifier.Start` | aggsender/epoch_notifier_per_block.go:109-127 | the same for every sequence of notifications, in any order and with repeats |
| `EpochNotifier.EpochsIncrease` | aggsender/epoch_notifier_per_block.go:134-160 | published epochs strictly increase |
| `EpochNotifier.EveryEpochOnce` | aggsender/epoch_notifier_per_block.go:109-187 | with all blocks in order every finished epoch is published exactly once, save the first when an epoch is one block |
| `L1InfoProcessor.L1InfoTreeProcessor.ProcessBlock` | l1infotreesync/processor.go:279-397 | the whole new state; a failed block changes no table; an inconsistent one halts |
| `L1InfoProcessor.L1InfoTreeProcessor.Reorg` | l1infotreesync/processor.go:235-275 | the tables without the blocks from there on; released exactly when a block was deleted |
| `L1InfoProcessor.InsertedInPlaceIff` | l1infotreesync/processor.go:399-407 | positions stay in (block, position) order exactly when a new leaf comes after all others |
| `L1InfoProcessor.AcceptedInv` | l1infotreesync/processor.go:279-397 | a block in order keeps positions 0..n-1, one root for each and all rows in stored blocks; refused, it changes no table |
| `L1InfoProcessor.AcceptedMatched` | l1infotreesync/processor.go:346-368 | each UpdateL1InfoTreeV2 of an accepted block matched the stored root and the number of leaves at that point |
| `L1InfoProcessor.CutInv` | l1infotreesync/processor.go:249-260 | a reorg keeps the invariant and exactly the blocks below it |
| `L1InfoProcessor.CutNothing` | l1infotreesync/processor.go:249-272 | a reorg that deletes no block deletes no row |
| `L1InfoProcessor.RunInv` | l1infotreesync/processor.go:235-397 | the invariant over every run of blocks, reorgs and restarts |
| `L1InfoProcessor.HaltedStays` | l1infotreesync/processor.go:280-283 | a halted processor stays exactly as it is until a reorg deletes a block or it is restarted |
| `L1InfoProcessor.ReleasedIff` | l1infotreesync/processor.go:269-272 | exactly those two release it |
| `L1InfoVerdicts.HaltsIff` | l1infotreesync/processor.go:346-368 | a block halts the processor exactly when, after events that succeed, a check fails on a tree that is not empty |
| `L1InfoVerdicts.RowsAreUpdates` | l1infotreesync/processor.go:314-329 | over every run the stored rows are, field by field and with their hashes, those of the updates that survive |
| `L1InfoVerdicts.RunJudged` | l1infotreesync/processor.go:279-397 | over every run a block is accepted, refused or halts by the verdict on the rows alone: nothing repeated, and every check right about count and specification root |
| `L1InfoVerdicts.EveryAnswerIsTheVerdict` | l1infotreesync/processor.go:279-397 | the same from a new processor |
| `L1InfoProcessor.StepOnTree` | l1infotreesync/processor.go:336-342 | every step of the processor is, for the tree inside it and its memory, a step of the append-only tree |
| `L1InfoProcessor.StepWellFed` | l1infotreesync/processor.go:301-345 | a block in order hands the tree its leaves in order, and a rebuild finds the last root for certain |
| `L1InfoProcessor.RootsAreRight` | l1infotreesync/processor.go:314-345 | over every run with no collision and no rollback beyond the bound, the root stored with leaf i is the specification root of rows 0..i |
| `L1InfoProcessor.AcceptedChecksAreRight` | l1infotreesync/processor.go:346-368 | every accepted UpdateL1InfoTreeV2 carried the number and the specification root of exactly the leaves stored up to it |
| `L1InfoProcessor.StepOnExits` | l1infotreesync/processor.go:369-377 | an accepted block is, for the rollup exit tree, its verified batches in order; a refused one is nothing |
| `L1InfoProcessor.ExitRootsAreRight` | l1infotreesync/processor.go:235-397 | over every run of blocks in order the rollup exit tree's last root is that of the tree whose leaf below each rollup id is its last non-zero exit root in the surviving blocks |
| `BridgeSearch.GetFirstL1InfoTreeIndexForL1Bridge` | rpc/bridge.go:260-307 | the loop is the specified search, and it ends |
| `BridgeSearch.SearchFinds` | rpc/bridge.go:260-307 | a covering leaf is found exactly when there is one; it has exactly the deposit, or is the first covering head of a block, or is last |
| `BridgeSearch.FoundCovers` | rpc/bridge.go:260-307 | whatever the rows and the known roots, a leaf that is returned has a known root and covers the deposit |
| `BridgeSearch.LookStops` | rpc/bridge.go:285-304 | when a block sees a leaf with exactly the deposit, the loop ends at the first midpoint that does |
| `BridgeSearch.AdjacentBlocks` | rpc/bridge.go:285-287 | the midpoint is rounded down: of two adjacent blocks the lower one is probed first |
| `BridgeSearch.FirstIsFoundIff` | rpc/bridge.go:279-306 | the exact condition for every deposit, repeated or not: the first such midpoint is not beyond the leaf's block; else the leaf is first in its block or last of all |
| `BridgeSearch.FirstIsFound` | rpc/bridge.go:279-306 | with one leaf per block and strictly rising deposits the first covering leaf is found |
| `BridgeSearch.TwoLeavesInABlock` | l1infotreesync/processor.go:440-449 | two leaves in a block: the first covering one is missed |
| `BridgeSearch.SameExitRootTwice` | rpc/bridge.go:297-300 | a repeated exit root: a later leaf is returned |

## Left out

- aggregator, prover and sequencesender: they rest on queries, services and a transaction builder that are not in this model.
- SQL, migrations and the reorg detector's own database: tables are sequences and maps here, with the keys that can refuse a row; deletes by block cascade. The database delete with a fixed bound in reorgdetector/reorgdetector_db.go is not modelled.
- Keccak, ECDSA and ABI packing: abstract functions; a collision-free hash is a hypothesis wherever it is needed.
- Goroutines and channels of the driver: modelled as steps in any order; one subscriber; retry loops and cancelled contexts only as steps that do not happen. Locks are not modelled.
- SyncRuns.EveryRunIsExactAfterAPass: assumes that one chunk and one detection pass each read one snapshot of the chain, that a pass lists and prunes atomically, and that no block is tracked between ReorgProcessed and removeRange. A restart of the program, which may put the starting block in again, is not one of its steps.
- SyncRuns.HandledReorgIsExact: speaks of the blocks tracked when the pass read the list; blocks tracked while the driver was being notified are checked by the next pass.
- AppendOnlyTree.RunIsFreshTree: its runs keep blocks and leaf indexes in order, rollbacks within the bound of AppendOnlyTree.RollbackSafeIff and the last root certain where a rebuild needs it; what happens outside is in AppendOnlyLimits.
- L1InfoProcessor.RunInv: its blocks come above all stored ones with logs in order, as the sync driver sends them, and the tree has fewer than 2^32 - 1 leaves.
- L1InfoProcessor.AcceptedChecksAreRight: assumes that no hashes of tree nodes collide and that no rollback goes beyond the tree's bound.
- L1InfoProcessor.ExitRootsAreRight: the positions of a block's verified batches rise, its blocks come as in L1InfoProcessor.RunInv, and no hashes of tree nodes collide.
- L1InfoVerdicts.RunJudged: its runs are those of L1InfoProcessor.AcceptedChecksAreRight, the next block included.
- BridgeVerdicts.EveryAnswerIsTheVerdict: its runs are those of BridgeSync.ViewIsInStep, the next block included.
- AggSender.EveryBridgeOnce: the syncer's answers within one epoch come from one state of it, whose deposit counts and exit roots are in step, and ids and exit roots are not zero. BridgeRounds.DepositsCertifiedOnce derives the first from the syncer's steps.
- BridgeSync.ViewIsInStep: blocks come in order with deposits numbered one after the other, at most 2^32 of them; as for AppendOnlyTree.RunIsFreshTree, no hashes of tree nodes collide, rollbacks stay within the bound and a rebuild finds the last root for certain. Events of a type that is not a bridge event, and columns of the claim table other than its key, are not modelled.
- BridgeRounds.DepositsCertifiedOnce: on top of that, no reorg reaches the top certificate, each epoch reads one state of the syncer, and ids and exit roots are not zero.
- AggSender.PublishedIsSlice: the range query of the bridge syncer has no ORDER BY; the model returns rows in table order, which is the order of the deposits, and the order of the exits and the last deposit count rest on that.
- AggSender.AggSender.SendCertificate: claims, imported exits, signing and the certificate's metadata are not modelled; where one of them fails the certificate is not sent, like any other refusal.
- EpochNotifier.PastIff: percentages are exact rationals; the program compares floating-point quotients. Block numbers do not overflow 64 bits.
- BridgeSearch.SearchFinds: block numbers start at 1; at block 0 the upper limit would wrap.
- BatchV2.BatchRoundTrip: R and S fit 32 bytes and V is 27, 28 or at least 35, as in signed legacy transactions; the hexadecimal detour of the printer is not modelled.
- BatchV2.DecodeBatchV2: which of several errors of one kind is reported is not told apart.
- The flag hasUsedZeroHashes that getSiblings returns, the look-ups by index and by hash, and the queries for first and latest leaves: only easy members.
- The global index codec, conversions in common and merkletree, config, RPC plumbing, claim sponsor, oracle and block polling.
