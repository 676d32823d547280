# Verified model of the Ola node's state, mempool and proof bookkeeping

This project models the parts of the Ola L2 node that decide what its state is, and proves what
they promise:

- the batched sparse Merkle tree: the merge iterator, the level-by-level calculation, the node
  store with its leaf enumeration, the tree object with its witness chain, and whole runs of
  blocks, stops and restarts;
- the updating loop of the tree, with any number of batches between two saves;
- the mempool: nonce queues per account, the ordered index over their heads, the stash, rollback
  and garbage collection;
- the deduplication of storage writes, with its undo log;
- the derivation of state from the storage logs in Postgres: the compaction of a batch's logs into
  tree operations, the sequencer's local copy, and the cache of storage values;
- the commitment of an L1 batch, the text form of contract values, and the two job tables of the
  provers.

Files whose code changes objects step by step are modelled by classes and methods with loops, each
proved against a specification function or predicate; what the specification promises is proved in
lemmas beside it. `MergeJoin`, `Patch`, `Storage`, `Tree`, `Mempool`, `Deduplicator`,
`RocksdbStorage`, `ValuesCache`, `ProofGeneration` and `FriProverJobs` hold the methods;
`SparseTree`, `BatchSpec`, `LeafEnumeration`, `TreeState`, `UnsavedBlocks`, `MempoolSpec`,
`DedupSpec` and `StorageHistory` hold the specifications; modules ending in `Run`, with
`TreeHistory`, `TreeBatches`, `TreeOrder` and `TreeUpdater`, hold the statements over whole runs.

How the model is set up:

- The compression function of the tree, the hash of storage keys and the hash of commitments are
  arbitrary functions. Nothing assumes that they are injective, which no function into 32 bytes
  is. Where a statement depends on hashes, it asks for no collision between the values it is about.
- The depth of the tree is a parameter from 1 to 256; the program uses 256, where every key is in
  the tree (`TreeTypes.EveryKeyInTree`). A field element is its raw 64-bit word.
- Parallel loops take their items one by one in any order. A locked section, an SQL statement and a
  RocksDB write batch are one step each.
- A query that orders rows and takes the first is a loop over the rows that keeps the best one, or
  a choice of it.
- A panic or a failed assertion is an error result, or is proved not to happen. The `EmptyPatch`
  errors of the batch calculation, the `expect`s of `next_transaction` and the assertion of the
  cache updater are of the second kind.
- Numbers that the program keeps in 32 or 64 bits are unbounded here, with a precondition that they
  fit, except where the width shows: key arithmetic, byte encodings, the truncated length in a
  commitment and the truncated `U32` value in the printer are modelled with their width.

- Specification functions are pinned from outside: lemmas whose names end in `InFull`, `Places`, `Row`
  or `Text`, and the contracts of the methods, say in plain operators and literals what an operation
  does to every part of its state, where every byte stands, and in which order things come.

Eight findings about the code have an input that shows them and an exact condition:

- Batches processed before one save. The updater saves once per `max_l1_batches_per_iter` batches
  (20 by default, config/src/database.rs:69; 50 in config/configuration/merkle_tree/base.yaml:4),
  and every batch is computed from what is saved. Roots and database are right exactly under the
  conditions of `TreeUpdater.RootOfRange` and `TreeUpdater.SavedRange`, the lists of a batch under
  that of `LeafEnumeration.SecondBlockNumbering`; `TreeRun.SecondBlockWrongRoot` and
  `TreeRun.UnsavedBlockReusesIndex` are inputs that fail. One batch per save is always right
  (`TreeUpdater.OneByOneKeeps`).
- A rollback of a transaction that is not the last one taken (`MempoolSpec.RollbackKeepsInv`,
  `MempoolSpec.RollbackOfEarlierTxDangles`).
- A rollback after garbage collection dropped the account (`MempoolRun.RollbackFindsAccount`,
  `MempoolRun.TakenThenPurged`).
- Write logs of one slot with different types: the counters stay right exactly under the condition
  of `DedupSpec.CountsStep`, and go below zero exactly under that of `DedupSpec.UnderflowsExactly`
  (`DedupSpec.MismatchUnderflows`).
- Values that do not come back from their text (`AbiText.RoundTrip`, `AbiText.ParsePrintParse`,
  `AbiText.LostValues`).
- The layer bits of a witness row, which read the key from the other end than the tree does
  (`Witness.LayerBitsDescribePath`, `Witness.LayerBitMissesPath`).
- A cache update scheduled for a miniblock that is not sealed, which `schedule_values_update` does
  not check (`ValuesCacheRun.StepKeepsInv`, `ValuesCacheRun.EarlyCommandBreaks`). Its one caller
  passes sealed miniblocks (ola_core/src/api_server/execution_sandbox/apply.rs:29-31).
- Predecessors of the merge iterator for a key on both sides (`MergeShared.PredecessorsRight`,
  `MergeJoin.SharedKeyLosesPredecessor`, `MergeJoin.SharedKeyGetsEqual`). Its one caller merges
  distinct operation indices (merkle_tree/src/patch.rs:191-197).

In the other direction, the serialized write lists are injective without the bound of 2^32 entries
that their length field suggests (`Commitment.SerializedInjective`); the bound matters only for one
list being a prefix of another (`Commitment.SerializedPrefix`, `Commitment.LengthIsTruncated`).

## Model

| member | source | states |
|---|---|---|
| MergeJoin.MergeJoinWithMaxPredecessor.Next | merkle_tree/src/iter_ext/merge_join_with_max_predecessor.rs:126-182 | on any inputs one call yields the first of the items that still come out and leaves the others; it yields nothing only when both sides are through |
| MergeJoin.Join.RunItems | merkle_tree/src/iter_ext/merge_join_with_max_predecessor.rs:126-182 | whatever the inputs are, every item of both comes out exactly once |
| MergeJoin.Join.RunOrdered | merkle_tree/src/iter_ext/merge_join_with_max_predecessor.rs:126-182 | on increasing inputs, with common keys or without, the items come out in key order |
| MergeJoin.Join.RunIsJoined | merkle_tree/src/iter_ext/merge_join_with_max_predecessor.rs:54-182 | on increasing inputs without a common key, what the iterator does step by step is the specified merge |
| MergeJoin.Collect | merkle_tree/src/iter_ext/merge_join_with_max_predecessor.rs:39-182 | collecting the iterator over any inputs gives the whole run, which has every item once; in key order if both inputs increase; and is the specified merge if they have no key in common |
| MergeShared.PredecessorsRight | merkle_tree/src/iter_ext/merge_join_with_max_predecessor.rs:54-182 | on any two increasing inputs, with a mapping that tells keys apart, all items come out with the largest smaller item of the other side exactly if, at every common key, the side read last before it had just come in turn, goes on after the key, and does so before the other side |
| MergeJoin.SharedKeyLosesPredecessor | merkle_tree/src/iter_ext/merge_join_with_max_predecessor.rs:54-113 | with a key on both sides an item can come out without the smaller item of the other side |
| MergeJoin.SharedKeyGetsEqual | merkle_tree/src/iter_ext/merge_join_with_max_predecessor.rs:54-113 | or with the equal item as its predecessor |
| MergeJoin.JoinedItems | merkle_tree/src/iter_ext/merge_join_with_max_predecessor.rs:126-182 | the output holds every item of both inputs exactly once |
| MergeJoin.JoinedIncreasing | merkle_tree/src/iter_ext/merge_join_with_max_predecessor.rs:126-182 | the keys of the output increase |
| MergeJoin.JoinedPredecessors | merkle_tree/src/iter_ext/merge_join_with_max_predecessor.rs:54-113 | every item is paired with the mapped largest smaller item of the other side, or with none if there is none |
| MergeIndexed.MergeGoesThrough | merkle_tree/src/patch.rs:191-197 | merging two lists of updates with distinct operation indices gives the operations of both in order, each with its predecessor on the other side |
| PatchMerge.PredecessorIsSibling | merkle_tree/src/patch.rs:199-224 | the predecessor's last node, or the stored uncle when there is none, is the sibling's hash just before the operation |
| PatchMerge.MergeChildren | merkle_tree/src/patch.rs:173-197 | merging the updates of two children gives the operations of the parent in order, each with what is needed to find its sibling's hash |
| PatchStep.CompressIsStep | merkle_tree/src/patch.rs:27-48 | hashing a node with its sibling as they are after and before an operation gives the parent after and before it |
| PatchStep.OwnNodeBefore | merkle_tree/src/patch.rs:226-269 | the second map yields the node's own hash just before the operation, from the previous operation on the node or from the stored path |
| PatchStep.CompressOp | merkle_tree/src/patch.rs:203-309 | one operation moves up one level: its update, the second map and the trace log are those the sequential trees prescribe, and no error branch is taken |
| PatchRegroup.SortMembers | merkle_tree/src/patch.rs:317-341 | sorting by operation index keeps the updates and orders them |
| PatchRegroup.RegroupLevel | merkle_tree/src/patch.rs:317-341 | popping uncles, regrouping by parent and sorting turns the second map of a finished level into that of the next |
| Patch.ProcessNode | merkle_tree/src/patch.rs:199-313 | all operations below one node, in any order, give the node's updates for the next level |
| Patch.ProcessLevel | merkle_tree/src/patch.rs:134-341 | one round takes both maps from a level to the next and adds one trace row for every operation |
| Patch.Calculate | merkle_tree/src/patch.rs:121-351 | for any batch, entry l of patch[i] is the node at height l on the path of key i in the tree after operations 0..i applied one by one, and the trace holds one row per operation and level |
| SparseTree.NodeUntouched | merkle_tree/src/patch.rs:114-120 | setting a leaf leaves every node off its path as it was |
| SparseTree.NodeSameLeaves | merkle_tree/src/patch.rs:114-120 | a node is determined by the leaf values below it |
| SparseTree.Batch.SiblingUntouched | merkle_tree/src/patch.rs:199-224 | an operation does not change the siblings on its own path |
| SparseTree.LeafValue | types/src/merkle_tree.rs:64-66 | a leaf that is not there is four zeros |
| SparseTree.TreeOfFour | merkle_tree/src/patch.rs:27-48 | a tree of depth 2 in full: even children go left, pairs of leaves are hashed with the leaf tag and everything above with the branch tag, and absent leaves are four zeros |
| BatchSpec.LatestWins | merkle_tree/src/patch.rs:191-197 | a node before an operation is what the latest earlier operation through it left |
| BatchSpec.UntouchedNode | merkle_tree/src/patch.rs:218-224 | a node no operation passes through is the stored one throughout the batch |
| TreeTypes.U256OfKey | types/src/merkle_tree.rs:143-160 | a tree key comes back from its 256-bit integer, which is below 2^256 |
| TreeTypes.KeyOfU256 | types/src/merkle_tree.rs:143-160 | every 256-bit integer comes back from its tree key |
| TreeTypes.KeyBytesRoundTrip | types/src/merkle_tree.rs:187-222 | a tree key comes back from its 32 bytes |
| TreeTypes.BytesKeyRoundTrip | types/src/merkle_tree.rs:187-222 | every 32 bytes come back from their tree key |
| TreeTypes.KeyAsBytes | types/src/merkle_tree.rs:143-222 | the integer the tree reads a key as is that of its 32 bytes with the first byte on top |
| TreeTypes.EveryKeyInTree | merkle_tree/src/utils.rs:19-34 | at depth 256 every key is an index of the tree |
| TreeTypes.ShrDivides | merkle_tree/src/utils.rs:19-34 | going up n levels divides an index by 2^n |
| Bytes.DecodeEncode | utils/src/convert.rs:217-227 | a number below 256^n comes back from its n big-endian bytes |
| Bytes.EncodeInjective | utils/src/convert.rs:217-227 | numbers of n bytes with the same big- or little-endian bytes are equal |
| Bytes.BytePlaces | utils/src/convert.rs:217-227 | which base-256 digit of a number stands at which place, in either byte order |
| TreeConfig.EmptyNodes | merkle_tree/src/tree_config.rs:85-102 | in the empty tree all nodes of a level have the same hash |
| TreeConfig.CalcDefaultHashes | merkle_tree/src/tree_config.rs:85-102 | from the root to the leaf: each default hash is the hash of the next one with itself, with the leaf tag at the last step, the last one is four zeros, and all are those of the empty tree |
| TreeConfig.New | merkle_tree/src/tree_config.rs:33-65 | each default node is the branch over two default nodes of the next level, the last one is the leaf of four zeros, and the default root is the root of the empty tree |
| LeafEnumeration.AfterBijective | merkle_tree/src/storage.rs:145-253 | leaf indices stay a bijection between the numbered keys and 1..next-1 |
| LeafEnumeration.BijectiveCount | merkle_tree/src/storage.rs:145-253 | so many keys are numbered as indices have been handed out |
| LeafEnumeration.AfterKeys | merkle_tree/src/storage.rs:145-253 | numbered are the keys numbered before and the keys written, and no index changes |
| LeafEnumeration.WriteLandsOnce | merkle_tree/src/storage.rs:184-236 | every write lands in exactly one of the two lists, in the initial one exactly if its key was never written, with the next free or its own index; reads land in neither |
| LeafEnumeration.FirstNumbers | merkle_tree/src/storage.rs:149-236 | numbers start at 1, a second write of a key does not get another, and a key only read is reported as 0 |
| LeafEnumeration.InitialWritesConsecutive | merkle_tree/src/storage.rs:184-236 | the initial writes of a batch carry consecutive indices |
| LeafEnumeration.SecondBlockNumbering | merkle_tree/src/storage.rs:149-182 | lists and index range of a block processed while another is unsaved are right exactly if the other one wrote no key for the first time |
| Storage.Storage.ProcessLeafIndices | merkle_tree/src/storage.rs:145-253 | from the database alone the loop computes both lists, the reported indices (0 for keys without one) and the index range of the specified enumeration, which starts at 1 in an empty database, and writes the new indices over those that earlier blocks left in the patch |
| Storage.StoredIndexPlaces | utils/src/convert.rs:217-227 | leaf indices and their counter are stored in eight bytes, most significant first |
| Storage.Storage.PreSave | merkle_tree/src/storage.rs:94-106 | the pending patch gets the changed nodes and keeps everything else |
| Storage.Storage.Save | merkle_tree/src/storage.rs:108-143 | an empty patch is an error and changes nothing; otherwise patch and block number become durable together |
| Storage.Storage.FetchMetadata | merkle_tree/src/storage.rs:256-280 | the root found, or the default one where none is stored, is the root of the tree the database holds, and the number is the one last saved |
| TreePrepare.PathIsPathHashes | merkle_tree/src/tree.rs:444-514 | the hashes read along a path are the nodes of the current tree on that path or beside it |
| TreePrepare.PrepareMap | merkle_tree/src/tree.rs:386-442 | the prepared map is the one the batch calculation starts from |
| TreeState.LastOperationWins | merkle_tree/src/tree.rs:279-384 | after a batch the leaf of a key holds the value of the last operation on it |
| TreeApply.EntryFields | merkle_tree/src/tree.rs:543-575 | entry l of a patch carries key and hash of the path node at height l; its children, in order, are the path node and the sibling below |
| TreeApply.ApplyPatch | merkle_tree/src/tree.rs:524-612 | the written branches are the last hashes of all touched nodes, and every operation's report has its intermediate root and Merkle path |
| TreeApply.ReportInFull | merkle_tree/src/tree.rs:577-612 | every field of a report: root after the operation, write flags, key, leaf index; for a write the new and the previous value, for a read four zeros and the value read |
| TreeApply.ReportIsMerkleProof | merkle_tree/src/tree.rs:543-612 | the Merkle path of a report folds the new leaf to the root after the operation and the old leaf to the root before it |
| TreeApply.FirstWriteMeaning | merkle_tree/src/tree.rs:577-612 | a report says first write exactly for writes of keys without an index before the block |
| TreeBlock.GroupTraces | merkle_tree/src/tree.rs:317-332 | the pushed trace rows are sorted by operation, each operation's rows in the order of levels |
| TreeBlock.ComputeBlock | merkle_tree/src/tree.rs:279-384 | preparing, calculating and applying a block gives the branches, reports and traces of the block |
| TreeBlock.PendingHoldsNodes | merkle_tree/src/tree.rs:524-612 | with the branches of a block in the patch, every node is as the last unsaved block that touches it computed it, or as saved |
| Witness.TraceIsAccess | merkle_tree/src/tree.rs:122-215 | the rows made from the trace of an operation form a valid access from the root before it to the root after it, from its old leaf to its new one |
| Witness.ComposeWitness | merkle_tree/src/tree.rs:122-215 | one vector holds the rows of all operations; each operation's rows form such an access, with the layer bits and the accumulator of its key, starting at the root where the one before ends; the Poseidon list has both outputs of every row, and the program hash part is empty |
| Witness.RowsInFull | merkle_tree/src/tree.rs:140-212 | row r of operation i: its access number i + 1, layer r + 1, key, write flag and the roots around the operation; at the first layer its hashes are the roots, at the last one its inputs are the leaves; its hash and then its previous hash stand at their place in the list of hashes |
| Witness.LayerBitsDescribePath | merkle_tree/src/tree.rs:160-176 | the layer bits are the sides of the key's path exactly if the 32 bytes of the key read the same from both ends |
| Witness.LayerBitMissesPath | types/src/storage/mod.rs:55-57 | a key whose path comes from the right at the leaf while its bit says left |
| Witness.LayerBitOfBytes | merkle_tree/src/tree.rs:160-176 | the layer bit is that bit of the number whose lowest byte is the first byte of the key |
| Witness.AddrAccIsWord | merkle_tree/src/tree.rs:174-202 | at the last layer of each word the accumulator is the number whose lowest byte is the first of eight bytes of the key, modulo the order of the field, the last eight bytes first |
| Witness.AccessIsMerkleProof | merkle_tree/src/tree.rs:140-212 | in any valid access the new leaf folds up the siblings to the new root and the old leaf to the old root |
| Witness.AccessIsSound | merkle_tree/src/tree.rs:140-212 | without a collision on its rows, a valid access from the root of a tree shows that tree's leaf, and its new root is the root with that leaf replaced |
| Tree.AccountTree.constructor | merkle_tree/src/tree.rs:63-74 | a tree opened on a database stands for the state the database holds, its root and block number included |
| Tree.AccountTree.ApplyUpdatesBatch | merkle_tree/src/tree.rs:279-384 | one block, after any number of unsaved ones: reports, lists, index range and root are those of its operations applied to the saved state in order, and the patch holds every node and number as the last block that writes it left it |
| Tree.AccountTree.ProcessBlock | merkle_tree/src/tree.rs:217-277 | the metadata and the storage trace belong to the saved state with the block applied; a block without operations stops the program |
| Tree.AccountTree.Save | merkle_tree/src/tree.rs:614-616 | after any number of blocks the database holds the patch and the block number; if the save keeps the tree, the object goes on from the state after all blocks |
| Tree.OneBlockKept | merkle_tree/src/storage.rs:108-143 | a save after every block always does |
| Tree.SavedBlocksHold | merkle_tree/src/storage.rs:108-143 | after one save for several blocks the database holds the state after all of them exactly if the last block sets again every leaf the others changed and numbers first, in the same order, the keys the others numbered |
| Tree.Reopen | merkle_tree/src/tree.rs:63-74 | stopping and opening the database again gives the last saved state |
| TreeRun.RunTree | merkle_tree/src/tree.rs:217-384 | in any sequence of saved blocks, lost blocks and restarts, every node, stored or default, is the recursive hash of the committed leaves; root, leaf indices and block count are those of the committed blocks |
| TreeRun.IndicesOverRuns | merkle_tree/src/storage.rs:145-253 | in every reachable state indices are a bijection with the keys ever written in a committed block, and no later operation changes one |
| UnsavedBlocks.SecondBlockRoot | merkle_tree/src/storage.rs:67-82 | a second block before the save gets the right root exactly if it sets every leaf again that the first one changed |
| UnsavedBlocks.SavedNodesRight | merkle_tree/src/storage.rs:94-143 | the nodes saved for several blocks are those of the tree after all of them exactly if the last block sets every leaf again that the others changed |
| UnsavedBlocks.SavedNumberingRight | merkle_tree/src/storage.rs:145-253 | the leaf indices saved for several blocks are those of all of them exactly if the keys the others number are the first ones the last block numbers |
| TreeRun.SecondBlockWrongRoot | merkle_tree/src/storage.rs:67-82 | two blocks that set one leaf each: the root of the second one misses the first |
| TreeRun.UnsavedBlockReusesIndex | merkle_tree/src/storage.rs:149-182 | two blocks before one save hand out the same index twice, and the save keeps both |
| MempoolSpec.InsertKeepsInv | mempool/src/mempool_store.rs:119-157 | inserting a transaction, new, old or replacing one, keeps the index equal to the set of ready heads with their times, the nonces at or above the account nonce, and the size equal to the sum of lengths |
| MempoolSpec.InsertInFull | mempool/src/mempool_store.rs:119-157 | a new account starts at its initial nonce or at 0; a transaction below the nonce changes nothing else, any other takes its place; the one that leaves next gets the pointer with its time, the one it replaces loses it; the size counts new transactions; other accounts stay |
| MempoolSpec.LastInsertedStays | mempool/src/mempool_store.rs:81-117 | of several transactions in a list with the same account and nonce the last one stays |
| MempoolSpec.InsertAllConcat | mempool/src/mempool_store.rs:81-117 | a list is inserted from front to back |
| MempoolSpec.TakeAnyKeepsCore | mempool/src/mempool_store.rs:38-79 | whichever pointer of the index is found, the accounts of greater pointers go to the stash, neither `expect` on an account fails, the size covers what is subtracted, and accounts, index and size stay consistent |
| MempoolSpec.NothingIsSkipped | mempool/src/mempool_store.rs:40-57 | the pointer found is the greatest, so nothing lies above it and the stash loop never runs |
| MempoolSpec.TakeKeepsInv | mempool/src/mempool_store.rs:38-79 | taking the next transaction keeps the invariant in every valid state, the empty stash included |
| MempoolSpec.TakeInFull | mempool/src/mempool_store.rs:38-79 | the head leaves, the nonce goes up by one, the pointer moves to the transaction with the new nonce if there is one, the size goes down by one |
| MempoolSpec.GcKeepsInv | mempool/src/mempool_store.rs:185-208 | garbage collection keeps the invariant |
| MempoolSpec.GcInFull | mempool/src/mempool_store.rs:185-208 | below the capacity nothing changes; otherwise exactly the accounts without their next transaction leave, and everything else stays |
| MempoolSpec.RollbackKeepsInv | mempool/src/mempool_store.rs:159-176 | a rollback keeps the invariant exactly if it is of the last transaction taken, or of an earlier one of an account without a ready head, or of one not yet taken whose follower was not received at the time of the head |
| MempoolSpec.RollbackOfEarlierTxDangles | mempool/src/mempool_store.rs:159-176 | rolling back the first of two taken transactions leaves a dangling pointer |
| MempoolSpec.RollbackInFull | mempool/src/mempool_store.rs:159-176 | the nonce goes back to the smaller one, and exactly the pointer with the time of the following transaction leaves the index |
| MempoolSpec.TakeRollbackInsert | mempool/src/mempool_store.rs:38-176 | taking a transaction, rolling it back and inserting it again restores accounts, index and size exactly |
| MempoolRun.RunsStayValid | mempool/src/mempool_store.rs:38-208 | every state of every run whose rollbacks are allowed satisfies the invariant; nothing is ever stashed |
| MempoolRun.TakesEarliestHead | mempool/src/types.rs:85-93 | the transaction taken is the ready head received first, on equal times that of the largest account |
| MempoolRun.NothingReadyNothingTaken | mempool/src/mempool_store.rs:38-79 | nothing is taken exactly if no account has its next nonce |
| MempoolRun.NoncesComeInOrder | mempool/src/types.rs:65-76 | without rollback or purge of an account its transactions come out with consecutive nonces over the whole run |
| MempoolRun.AccountStep | mempool/src/mempool_store.rs:38-208 | after a step an account is there exactly if the step inserts for it, or it was there and is not purged |
| MempoolRun.RollbackFindsAccount | mempool/src/mempool_store.rs:159-176 | a rollback of a taken transaction finds its account exactly if every purge of it since then was followed by an insert for it |
| MempoolRun.TakenThenPurged | mempool/src/mempool_store.rs:159-208 | with the capacity reached, garbage collection drops the account whose only transaction was just taken |
| Mempool.AccountTransactions.Insert | mempool/src/types.rs:22-40 | the object changes and answers as the specification of an insert says |
| Mempool.AccountTransactions.Reset | mempool/src/types.rs:50-59 | the nonce goes back to the smaller one, and the answer is the score of the following transaction |
| Mempool.AccountTransactions.Next | mempool/src/types.rs:65-76 | the head is removed, the nonce advances, and the answer is the score of the new head |
| Mempool.MempoolStore.InsertL2Transaction | mempool/src/mempool_store.rs:119-157 | the store after an insert is the specified one and valid: a new account starts at its initial nonce or 0, and a transaction at or above the nonce is stored, at the nonce with its pointer in the index |
| Mempool.MempoolStore.Insert | mempool/src/mempool_store.rs:81-117 | a list of transactions is inserted in order |
| Mempool.MempoolStore.HasNext | mempool/src/mempool_store.rs:33-36 | there is a next transaction exactly if some account has its next nonce |
| Mempool.MempoolStore.StashAll | mempool/src/mempool_store.rs:44-57 | the loop moves the accounts of all pointers passed over to the stash, in order, and counts their transactions |
| Mempool.MempoolStore.TakePointer | mempool/src/mempool_store.rs:38-79 | with any pointer of the index as the one found, the store becomes the specified one, stash included, without a failed look-up or subtraction |
| Mempool.MempoolStore.NextTransaction | mempool/src/mempool_store.rs:38-79 | the head of the greatest pointer is taken, or nothing from an empty index; the store stays valid and nothing is stashed |
| Mempool.MempoolStore.Rollback | mempool/src/mempool_store.rs:159-176 | an allowed rollback changes the store as specified |
| Mempool.MempoolStore.Gc | mempool/src/mempool_store.rs:185-208 | at or above the capacity the accounts without a pointer are dropped and reported, otherwise nothing changes |
| Mempool.MempoolStore.GetMempoolInfo | mempool/src/mempool_store.rs:178-183 | the stash is handed out, the purged accounts are those garbage collection drops |
| DedupSpec.UndoIsExact | types/src/storage_writes_deduplicator.rs:111-127 | undoing the updates of any logs on any state gives back keys and counters, whatever the types of the logs |
| DedupSpec.DoLogsMeans | types/src/storage_writes_deduplicator.rs:57-109 | recorded values are the first reads of all logs seen, and modified are the keys whose last effective value differs from the recorded one |
| DedupSpec.LogInFull | types/src/storage_writes_deduplicator.rs:57-109 | a write counts as a change if the written value is not the first one read, a rollback if its read value is not; the counter of the log's own type follows by one; reads change nothing |
| DedupSpec.RollbackUndoesWrite | types/src/storage_writes_deduplicator.rs:73-105 | a write followed by its rollback leaves the modified keys as they were exactly if the write read the current value, and then the counters as well |
| DedupSpec.RevertedCall | types/src/storage_writes_deduplicator.rs:73-105 | any list of writes that each read the current value, followed by their rollbacks in reverse order, only records first values |
| DedupSpec.RolledBackWrite | types/src/storage_writes_deduplicator.rs:49-109 | one write, counted under its type; with its rollback, counted as nothing; as a read, ignored |
| DedupSpec.UndoneMeans | types/src/storage_writes_deduplicator.rs:39-47 | the same holds after logs that were tried out and undone |
| DedupSpec.ModifiedAreChanged | types/src/storage_writes_deduplicator.rs:57-109 | if first reads show the storage, modified are exactly the keys whose storage value the kept logs change |
| DedupSpec.CountsStep | types/src/storage_writes_deduplicator.rs:75-105 | a log keeps the counters equal to the numbers of modified keys of each type exactly if it does not take a key out under another type than it was put in with |
| DedupSpec.UnderflowsExactly | types/src/storage_writes_deduplicator.rs:75-105 | from right counters a log takes one below zero exactly if it takes a key out under the other type and no modified key has that type |
| DedupSpec.MismatchUnderflows | types/src/storage_writes_deduplicator.rs:75-105 | two logs of one slot with different types do so |
| DedupSpec.CountersTogether | types/src/storage_writes_deduplicator.rs:75-105 | whatever the types of the logs, the two counters together are the number of modified keys |
| DedupSpec.UniformLogsCount | types/src/storage_writes_deduplicator.rs:75-105 | with one type per key the counters are the numbers of modified keys of either type |
| DedupSpec.DecrementIsSafe | types/src/storage_writes_deduplicator.rs:88-97 | then no decrement underflows |
| Deduplicator.StorageWritesDeduplicator.ProcessStorageLogs | types/src/storage_writes_deduplicator.rs:57-109 | the loop computes the specified state and undo log, reads are skipped |
| Deduplicator.StorageWritesDeduplicator.Rollback | types/src/storage_writes_deduplicator.rs:111-127 | rolling back the updates of logs restores keys and counters and keeps the recorded values |
| Deduplicator.StorageWritesDeduplicator.Apply | types/src/storage_writes_deduplicator.rs:35-37 | applying logs gives the specified state, and the object keeps its meaning |
| Deduplicator.StorageWritesDeduplicator.ApplyAndRollback | types/src/storage_writes_deduplicator.rs:39-47 | the answer is the metrics `apply` would leave; keys and counters stay as they were |
| Deduplicator.ApplyOnEmptyState | types/src/storage_writes_deduplicator.rs:49-55 | the metrics are those of the logs on an empty state |
| DedupSpec.TryThenApply | types/src/storage_writes_deduplicator.rs:35-47 | for every state and all logs, trying them out and then applying them gives the same full state as applying them at once |
| StorageHistory.InsertStorageLogs | dal/src/storage_logs_dal.rs:26-67 | the rows of a miniblock are appended in the order of transactions and logs, numbered through, and the table stays ordered |
| StorageHistory.LastValueIsReplay | dal/src/storage_logs_dal.rs:160-187 | the latest row of a hashed key holds what replaying the rows leaves in the slot |
| StorageHistory.BetweenSplits | dal/src/storage_logs_dal.rs:73-82 | in an ordered log a range of miniblocks comes apart into adjacent ranges |
| StorageHistory.Postgres.RangeIsMinMax | dal/src/blocks_dal.rs:258-276 | the miniblock range of a batch is the smallest and the largest miniblock of it, and missing exactly if it has none |
| StorageHistory.Postgres.BatchStep | dal/src/storage_logs_dal.rs:69-94 | the state after a batch is the state before it with the touched slots put over it |
| StorageHistory.Postgres.NeverWritten | dal/src/storage_logs_dal.rs:69-94 | a slot without a row in the batches below b is not in the state before b |
| StorageHistory.Postgres.LatestRow | dal/src/storage_logs_dal.rs:69-94 | otherwise the row with the greatest miniblock and operation number in those batches says what it holds |
| StorageHistory.Postgres.TouchedIffRow | dal/src/storage_logs_dal.rs:69-94 | the touched slots of a batch are those with a row in one of its miniblocks |
| StorageHistory.Postgres.EverSetStep | state/src/rocksdb.rs:138-144 | a slot comes to be set in the first batch that changes it, which is the first that leaves it nonzero |
| StorageHistory.PastStays | dal/src/storage_logs_dal.rs:26-94 | later miniblocks and batches do not change the state that sealed batches lead to |
| LogCompaction.PreviousValue | dal/src/storage_logs_dal.rs:189-207 | the previous value looked up by hash is the slot's value before the batch, the first miniblock included |
| LogCompaction.LessIsByteOrder | types/src/storage/mod.rs:21-25 | keys are ordered as their 64 bytes are, address before key |
| LogCompaction.CompactionOfSlot | ola_core/src/metadata_calculator/helpers.rs:217-247 | a slot has a write log exactly if its value changed and a read log exactly if it did not and asks for a protective read, with the values before and after; a slot that is not there counts as zero |
| LogCompaction.IntoValues | ola_core/src/metadata_calculator/helpers.rs:249-254 | the logs come out in ascending order of the 64 bytes of their keys, address first, each once |
| LogCompaction.GetLogsForL1Batch | ola_core/src/metadata_calculator/helpers.rs:187-254 | no header gives none; a changed slot with a protective read, or a batch without miniblocks, stops the program; otherwise the result is in key order one write per changed slot and one read per unchanged slot with a protective read, each with the value before the batch |
| LogCompaction.CompactionReplays | ola_core/src/metadata_calculator/helpers.rs:187-254 | replaying the compacted logs on the state before the batch gives every slot the value that replaying all logs gives it |
| LogCompaction.FilterReplays | ola_core/src/metadata_calculator/helpers.rs:256-261 | dropping the reads does not change the result |
| TreeHistory.TreeFollowsBatch | merkle_tree/src/tree.rs:231-277 | applying the filtered logs of a batch to leaves that hold the storage before it gives leaves that hold the storage after it |
| TreeHistory.PreviousValueIsLeaf | merkle_tree/src/tree.rs:244-249 | the previous value a write carries is the leaf it replaces |
| TreeHistory.RootOfStorage | merkle_tree/src/tree.rs:105-107 | the root depends on the storage alone |
| TreeHistory.NumberingFollows | merkle_tree/src/storage.rs:145-253 | numbered are exactly the keys of slots that held a value at the end of some batch |
| TreeBatches.ResetIsSlotsReset | ola_core/src/metadata_calculator/updater.rs:87-152 | the last of several unsaved batches sets again every leaf the others changed exactly if it changes again every slot that they leave changed |
| TreeOrder.SlotsOfRange | merkle_tree/src/storage.rs:145-253 | batches saved one by one number the slots newly set in the order in which they are first set, by batch and then by key |
| TreeOrder.NumbersFirstIffKept | merkle_tree/src/storage.rs:145-253 | one save for several batches gives the same numbers exactly if the last batch changes again every slot the others set for the first time, and slots are first set in the order of their keys |
| TreeUpdater.ProcessL1Batch | ola_core/src/metadata_calculator/updater.rs:41-85 | processing one batch, with any number of unsaved ones before it, adds its changed slots in key order and gives the root of the saved storage with them alone; it stops exactly if the batch has no header or miniblock, changes no slot, or changes one with a protective read |
| TreeUpdater.ProcessMultipleBatches | ola_core/src/metadata_calculator/updater.rs:87-152 | a range of batches with one save at the end: it ends early, unsaved, at the first batch without a header; otherwise the database holds all batches as each was computed from the saved state, and that is the state after the range if the range keeps the tree |
| TreeUpdater.SavedRange | ola_core/src/metadata_calculator/updater.rs:87-152 | after such a save the database holds tree and numbering of the storage after the last batch exactly if the last batch changes again every slot the others leave changed and slots are first set in key order |
| TreeUpdater.RootOfRange | ola_core/src/metadata_calculator/updater.rs:110-125 | the root reported for an unsaved batch is that of the storage after it exactly if it changes again every slot that the unsaved ones before it leave changed |
| TreeUpdater.OneByOneKeeps | ola_core/src/metadata_calculator/updater.rs:154-175 | any number of steps of one batch keep the tree, whatever the log is |
| TreeUpdater.RootInStep | merkle_tree/src/tree.rs:105-107 | a tree in step with the storage has the root of any leaves that hold it |
| TreeUpdater.Step | ola_core/src/metadata_calculator/updater.rs:154-175 | a step takes at most so many batches, no further than the last sealed one, and none if there are none; at the first batch without a header it ends unsaved; otherwise the database holds all batches since the last save as each was computed from it, and the tree is in step with the storage if that range keeps it |
| TreeUpdater.UpdateTree | ola_core/src/metadata_calculator/updater.rs:154-235 | the loop stopped after any number of steps of any size, followed up to the first save that does not keep the tree, which with one batch per step never comes: given enough steps it ends after the last sealed batch exactly if every batch can be processed; its last range is unsaved or saved as it was computed, and the tree is in step with the storage if that range keeps it |
| RocksdbStorage.PresenceStep | state/src/rocksdb.rs:138-144 | a slot is present after a batch exactly if it was or the batch patches it, and a slot not patched keeps its value |
| RocksdbStorage.SlotsStep | state/src/rocksdb.rs:94-118 | writing the patch of a batch takes the stored slots one batch further |
| RocksdbStorage.RocksdbStorage.ProcessTransactionLogs | state/src/rocksdb.rs:138-144 | the patch gets every touched slot except zeros for absent ones, in any order of the map |
| RocksdbStorage.RocksdbStorage.Save | state/src/rocksdb.rs:94-118 | the whole patch and the number, in four bytes with the lowest first, are written at once, the patch is empty afterwards |
| RocksdbStorage.RocksdbStorage.L1BatchNumber | state/src/rocksdb.rs:120-128 | the number read back from its four little-endian bytes is the one saved, or 0 |
| RocksdbStorage.RocksdbStorage.UpdateFromPostgres | state/src/rocksdb.rs:57-92 | the loop ends at latest + 1; stopped between two saves, the database holds exactly the batches saved; the assertion fails exactly if the copy is ahead |
| RocksdbStorage.RocksdbStorage.ReadValue | state/src/rocksdb.rs:161-163 | a read gives the value that all logs of the batches below the stored number leave, and zero for a slot without a row in them |
| RocksdbStorage.RocksdbStorage.IsWriteInitial | state/src/rocksdb.rs:165-167 | a write is initial exactly if every such batch left the slot at zero |
| RocksdbStorage.RocksdbStorage.LoadFactoryDep | state/src/rocksdb.rs:169-178 | bytecode is found exactly if the pending patch or a batch below the stored number has it: the patch counts first, then the last of these batches |
| RocksdbRun.HoldsStays | state/src/rocksdb.rs:57-92 | what the copy holds stays right when the history grows |
| RocksdbRun.RunSession | state/src/rocksdb.rs:57-92 | a process in a run is never ahead of Postgres, and leaves the copy right for the next one, wherever it is stopped |
| RocksdbRun.RunSessions | state/src/rocksdb.rs:57-118 | over any number of processes and stops the copy holds the state of the batches it has reached |
| RocksdbRun.CopyAgreesWithTree | state/src/rocksdb.rs:160-167 | at the same batch the copy has exactly the numbered leaves of the tree, with the same values, so both call the same writes initial |
| ValuesCache.Unmodified | state/src/postgres.rs:75-89 | a slot without a row between two miniblocks has the same value at both |
| ValuesCache.ValueIsLatestRow | dal/src/storage_logs_dal.rs:160-187 | the value at a miniblock is that of the row with the greatest miniblock and operation number up to it, zero without one |
| ValuesCache.MovedIsCorrect | state/src/postgres.rs:61-90 | whatever is left in the cache after a move is the storage value at the new miniblock, in the clearing and in the per-key branch |
| ValuesCache.ValuesCache.Update | state/src/postgres.rs:61-90 | more than 5 miniblocks clear the cache, otherwise a slot stays, with its value, exactly if it has no row after the old miniblock up to the new one |
| ValuesCache.ValuesCache.Updater | state/src/postgres.rs:139-152 | the loop moves the cache to the largest command, never back |
| ValuesCacheRun.StepKeepsInv | state/src/postgres.rs:61-165 | every step of senders, readers, evictions, the growing log and the updater keeps the cache right exactly if it takes no command for a miniblock that is not sealed |
| ValuesCacheRun.EarlyCommandBreaks | state/src/postgres.rs:154-165 | after such a command the cache holds a wrong value as soon as a reader fills in a slot and the next miniblock writes it |
| ValuesCacheRun.RunsStayPaired | state/src/postgres.rs:61-165 | in every interleaving, with any commands, `valid_for` never decreases and the assertion under the lock holds |
| ValuesCacheRun.RunsStayCorrect | state/src/postgres.rs:61-165 | in every interleaving in which only commands for sealed miniblocks are taken the cached values are right at every moment |
| ValuesCacheRun.CommandsAreFollowed | state/src/postgres.rs:139-165 | no command is lost: with the channel empty and the updater waiting, the cache is valid for every miniblock ever asked for or a later one |
| ValuesCacheRun.ReceivedInOrder | state/src/postgres.rs:139-165 | the updater receives every command that was sent once, in the order of sending; a command that is no newer than the cache is not sent |
| ValuesCacheRun.OnlyCommandsMove | state/src/postgres.rs:139-165 | the cache is only ever valid for 0 or a miniblock that was asked for |
| Commitment.CopyFromSlice | types/src/commitment.rs:89-103 | exactly the addressed part of the buffer changes |
| Commitment.SerializeCommitments | types/src/commitment.rs:106-117 | the filled buffer is the truncated length and then the bytes of the values |
| Commitment.SerializedPlaces | types/src/commitment.rs:106-117 | the length, truncated to 32 bits, stands in the first four bytes, most significant first, and value i in its size at 4 + i times the size |
| Commitment.SerializedInjective | types/src/commitment.rs:106-117 | two serialized lists are equal exactly if the values have equal bytes one by one, for lists of any length |
| Commitment.SerializedPrefixFree | types/src/commitment.rs:106-117 | below 2^32 values no serialized list is a proper prefix of another |
| Commitment.SerializedPrefix | types/src/commitment.rs:106-117 | a serialized list begins another one exactly if that one has the same values first and then a multiple of 2^32 more |
| Commitment.InitialBytesInjective | types/src/commitment.rs:84-93 | the bytes of an initial write fix key and value, not the index |
| Commitment.RepeatedBytesInjective | types/src/commitment.rs:95-104 | the bytes of a repeated write fix index and value |
| Commitment.InitialWritePlaces | types/src/commitment.rs:84-93 | an initial write is 64 bytes: the key, least significant byte first, then the value |
| Commitment.RepeatedWritePlaces | types/src/commitment.rs:95-104 | a repeated write is 40 bytes: the leaf index, most significant byte first, then the value |
| Commitment.CommitmentPlaces | types/src/commitment.rs:129-280 | what is hashed, byte by byte: the hashes of pass-through data, meta parameters and auxiliary output; leaf index before root, bootloader before default account, initial before repeated writes |
| Commitment.CommitmentBinds | types/src/commitment.rs:129-280 | two batches with the layout of `CommitmentPlaces` have equal commitments exactly if last leaf index, root, code hashes and both write lists agree, unless the hash collides on one of the six pairs of inputs |
| Commitment.TreeWritesFit | types/src/storage/writes.rs:12-23 | the write lists of the tree have the widths the commitment needs |
| TextFormat.ParseDecimal | client/sdk/src/parser.rs:25-41 | parsing a printed number gives it back exactly if it is below the limit of the type |
| TextFormat.DecimalPlaces | client/sdk/src/parser.rs:222-236 | which decimal digit of a number stands at which place |
| TextFormat.ParsedDigits | client/sdk/src/parser.rs:25-41 | one plus sign and zeros may stand in front; without digits, or with anything else, the text is no number |
| TextFormat.HashHexRoundTrip | client/sdk/src/utils.rs:9-30 | 32 bytes come back from their hexadecimal text |
| TextFormat.HexPlaces | client/sdk/src/parser.rs:238-245 | two lower-case digits for each byte, the higher one first |
| TextFormat.HexDigits | client/sdk/src/utils.rs:9-30 | the digits read are those of either case and no others |
| TextFormat.ShortHash | client/sdk/src/utils.rs:9-30 | text of fewer digits is the same hash with zero bytes in front, with a prefix or without; more than 64 digits are no hash |
| TextFormat.LowerHexPlaces | client/sdk/src/parser.rs:282-292 | which hexadecimal digit of a number stands at which place |
| TextFormat.SplitTerminated | client/sdk/src/parser.rs:136-138 | splitting undoes the printer's loop if no part has a comma |
| TextFormat.SplitFindsMore | client/sdk/src/parser.rs:136-138 | with a comma in a part it finds more parts |
| AbiText.PrintInput | client/sdk/src/parser.rs:205-249 | the printer computes the specified text or panics where it says |
| AbiText.PrintItems | client/sdk/src/parser.rs:294-319 | the loop with its trailing comma popped computes the specified list text; without items the bracket is popped |
| AbiText.ListText | client/sdk/src/parser.rs:251-319 | a list of two: the texts of the items in brackets with a comma between them |
| AbiText.TupleText | client/sdk/src/parser.rs:321-349 | a tuple of two: the texts of its fields in braces with a comma between them |
| AbiText.FieldTexts | client/sdk/src/parser.rs:321-349 | the name in quotes, a colon, a space and the value, in quotes for strings and hashes, for hashes with `0x` |
| AbiText.ScalarText | client/sdk/src/parser.rs:222-281 | numbers are truncated to 32 bits, or printed up to the order of the field and refused above it; true and false; hashes in hexadecimal; strings as they are |
| AbiText.EmptyText | client/sdk/src/parser.rs:251-349 | without anything in it a list or a tuple is its closing bracket; lists of composite values are not printed |
| AbiText.FieldsConcat | client/sdk/src/parser.rs:282-292 | field elements follow each other in hexadecimal without a separator |
| AbiText.ParsedScalars | client/sdk/src/parser.rs:25-56 | which texts give which number, truth value or hash |
| AbiText.ParsedList | client/sdk/src/parser.rs:58-159 | two field elements in brackets parse as each of the three list types, not in another size and not in braces |
| AbiText.ParsedPair | client/sdk/src/parser.rs:161-202 | two values in braces parse as a tuple of two with the names of the type, not as one of another size |
| AbiText.RoundTrip | client/sdk/src/parser.rs:8-349 | a value comes back from its text exactly if it is no tuple and no list of field elements, its numbers are in range, its lists are not empty and of the declared size with items that come back, and its strings in lists have no comma |
| AbiText.LostValues | client/sdk/src/parser.rs:8-349 | an empty list, a truncated number, a list of another size, a string with a comma in a list, a list of field elements and a tuple do not come back |
| AbiText.AddressComesBackAsHash | client/sdk/src/parser.rs:49-51 | an address comes back as a hash of the same words |
| AbiText.ParsePrintParse | client/sdk/src/parser.rs:8-349 | printing the value of an accepted text gives a text that is accepted with the same value, exactly for the types without tuples and lists of field elements |
| ProofGeneration.ProofGenerationDal.GetNextBlockToBeProven | dal/src/proof_generation_dal.rs:26-68 | the lowest batch that is ready or taken longer ago than the timeout is handed out and marked with the time; none if there is none |
| ProofGeneration.RowsAfter | dal/src/proof_generation_dal.rs:70-140 | what inserting, skipping and saving a proof leave in every row |
| ProofGeneration.FinishedIsNotHandedOut | dal/src/proof_generation_dal.rs:26-140 | in every interleaving a batch once generated or skipped is never handed out again |
| ProofGeneration.HandOutsAreApart | dal/src/proof_generation_dal.rs:26-68 | two times a batch is handed out are more than the timeout apart |
| ProofGeneration.NoBatchIsForgotten | dal/src/proof_generation_dal.rs:26-68 | an unfinished batch that nobody took within the timeout, or a lower one, answers the next request |
| ProofGeneration.InsertedStays | dal/src/proof_generation_dal.rs:70-89 | a batch stays in the table with its first data |
| ProofGeneration.KnownIffInserted | dal/src/proof_generation_dal.rs:70-89 | in every interleaving a batch is in the table exactly if it was inserted before |
| ProofGeneration.UnknownIsAnError | dal/src/proof_generation_dal.rs:91-140 | skipping a batch or saving its proof fails exactly if it was never inserted |
| ProofGeneration.LastDecisionStands | dal/src/proof_generation_dal.rs:91-140 | a batch stays as the last skip or proof left it, with its address, whatever else happens |
| FriProverJobs.FirstOfCircuits | dal/src/fri_prover_dal.rs:300-335 | picking the first job per circuit and round, then the first of these, gives the first of all matching jobs |
| FriProverJobs.FriProverDal.InsertProverJob | dal/src/fri_prover_dal.rs:63-110 | a new job is queued without attempts under the next id, a known one is left alone, and the unique index is kept |
| FriProverJobs.FriProverDal.InsertProverJobs | dal/src/fri_prover_dal.rs:35-61 | the jobs of a round are inserted with their sequence numbers |
| FriProverJobs.RoundHasJobs | dal/src/fri_prover_dal.rs:35-110 | afterwards every circuit of the round has a job, with its place in the list as sequence number |
| FriProverJobs.RoundAddsJobs | dal/src/fri_prover_dal.rs:35-110 | every new row is the queued job of one of these circuits, with its data |
| FriProverJobs.RoundKeepsRows | dal/src/fri_prover_dal.rs:35-110 | and the rows that were there stay as they are |
| FriProverJobs.RowsAfter | dal/src/fri_prover_dal.rs:112-195 | what saving a proof or an error and marking a batch as sent leave in every row |
| FriProverJobs.FriProverDal.GetNextJob | dal/src/fri_prover_dal.rs:197-363 | of the queued jobs of the requested protocols, and circuits, the first is claimed, none only if there is none: the highest round, then the lowest batch, then the lowest id; or, by circuit, the lowest batch, then the highest round, then the lowest id; its row is in progress with one more attempt, and no other row changes |
| FriProverJobs.InsertedAgain | dal/src/fri_prover_dal.rs:35-110 | inserting the jobs of a round again adds none and queues none again |
| FriProverJobs.ClaimedAtMostOnce | dal/src/fri_prover_dal.rs:63-363 | in every interleaving each job is claimed at most once, and the attempts in its row count its claims |
| FriProverJobs.ClaimsDiffer | dal/src/fri_prover_dal.rs:197-363 | two claims never get the same job |
| FriProverJobs.KnownIffInserted | dal/src/fri_prover_dal.rs:63-110 | in every interleaving a job with a key exists exactly if one was inserted before |
| FriProverJobs.NeverRequeued | dal/src/fri_prover_dal.rs:35-363 | a job is never queued again and never loses its data |
| FriProverJobs.LastVerdictStands | dal/src/fri_prover_dal.rs:112-195 | the status of a job is the last of saved proof, error and sent that concerned it, whatever else happens |

## Left out

- `TreeOperation::Delete` and `delete_pending_patch`: the caller never produces deletions.
- Poseidon and the other hash functions are parameters; the checks of the field element constructor are not modelled.
- The byte layout of database keys: branch, leaf-index and counter keys have separate constructors, so that two kinds of keys never coincide.
- Caching of branches and the removal of duplicate reads while paths are fetched: the model reads each node from the store.
- `Witness.ComposeWitness`: a hash is its first four words; the Poseidon list of the program has all twelve outputs of each hash.
- `Storage.Storage.Save`: the patch stays in memory after a save, as in the program; that writing it again changes nothing is part of the invariant of the tree object.
- `Tree.AccountTree.ApplyUpdatesBatch`: one block per call; `process_blocks` asserts that there is exactly one.
- `Storage.Storage.ProcessLeafIndices`: one block per call for the same reason; the grouping by block is not modelled.
- `TreeUpdater.ProcessMultipleBatches`: witness files, metadata rows and the jobs created after a batch are not part of this model, nor is the loading of the next batch while one is processed; all read a log that does not change meanwhile.
- `TreeUpdater.UpdateTree`: what later batches compute from a database that a save has left without a tree; and the waiting of the program before it tries a batch without a header again.
- Metrics, health checks and logging of all components.
- `Mempool.MempoolStore.Insert`: priority operations and the id counter of the mempool are not modelled; all transactions are L2 transactions.
- `ValuesCacheRun.StepKeepsInv`: readers of the cache are not in the repository; the model lets them insert the storage value at `valid_for` at any time, and evictions are arbitrary.
- `LogCompaction.GetLogsForL1Batch`: asks that hashed keys do not collide among the keys of the log and of the protective reads; colliding keys would share one row per lookup.
- `RocksdbStorage.RocksdbStorage.Save`: asks the same of the keys in the patch.
- Reverting sealed batches, recovery from snapshots and the web3 queries over storage logs.
- `AbiText.RoundTrip`: `U256` values, whose text form is code outside the repository; text is a sequence of characters, which differs from bytes only where parsing fails anyway.
- `AbiText.PrintInput`: the same.
- `AbiText.ParsePrintParse`: the same.
- `FriProverJobs.FriProverDal.GetNextJob`: the query for the least proven batch not yet sent, and row columns that no condition reads (times, errors, worker names).
- `ProofGeneration.ProofGenerationDal.GetNextBlockToBeProven`: rows locked by another open transaction, which the query skips; every statement takes effect at one moment.
- RLP encoding of transactions, state diff records, the sequencer loop, the batch executor and the API servers: not part of this model.
