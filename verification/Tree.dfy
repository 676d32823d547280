/** The state tree object (merkle_tree/src/tree.rs): blocks change it in memory, `save` makes
    the change durable, and a new object on the same database continues from the last save. */
module Tree {
  import opened Wrappers
  import opened Bytes
  import opened TreeTypes
  import opened SparseTree
  import opened BatchSpec
  import opened TreeConfig
  import opened LeafEnumeration
  import opened Storage
  import opened Witness
  import opened TreePrepare
  import opened TreeApply
  import opened TreeState
  import opened TreeBlock
  import opened UnsavedBlocks

  datatype TreeMetadata = TreeMetadata(
    rootHash: ZkHash,
    rollupLastLeafIndex: nat,
    initialWrites: seq<InitialStorageWrite>,
    repeatedWrites: seq<RepeatedStorageWrite>,
    storageTrace: StorageUpdateTrace)

  /** The database holds this state. */
  ghost predicate HoldsState(config: Config, column: Column, stored: Option<seq<byte>>, s: State)
    requires config.Valid()
  {
    && HoldsTree(config, column, s.leaves) && HoldsIndices(column, s.numbering) && Bijective(s.numbering)
    && HoldsBlockNumber(stored, s.blocks)
  }

  lemma {:induction false} EmptyDatabase(config: Config)
    requires config.Valid()
    ensures HoldsState(config, map[], None, GENESIS)
  {
    forall level: nat, idx: nat | level <= config.depth
      ensures StoredNode(config, map[], level, idx) == Node(config.hasher, map[], config.depth - level, idx)
    {
      EmptyNodes(config.hasher, config.depth - level, idx);
    }
  }

  /** Two configurations with the same hasher and depth read a database alike. */
  lemma {:induction false} SameReading(c: Config, d: Config, column: Column, stored: Option<seq<byte>>, s: State)
    requires c.Valid() && d.Valid() && c.hasher == d.hasher && c.depth == d.depth && HoldsState(c, column, stored, s)
    ensures HoldsState(d, column, stored, s)
  {
    forall level: nat, idx: nat | level <= d.depth
      ensures StoredNode(d, column, level, idx) == Node(d.hasher, s.leaves, d.depth - level, idx)
    {
      assert StoredNode(c, column, level, idx) == StoredNode(d, column, level, idx);
    }
  }

  /** What a save of the patch of some blocks has to meet so that the database holds the state after
      all of them: the last block sets again every leaf the earlier ones changed, and first of all
      numbers the keys they numbered, in the same order. */
  ghost predicate SaveKeeps(s: State, blocks: seq<seq<KeyedOp>>) {
    blocks != [] ==>
      && ResetBy(s.leaves, Flatten(blocks[..|blocks| - 1]), blocks[|blocks| - 1])
      && NewKeys(s.numbering, Flatten(blocks[..|blocks| - 1])) <= NewKeys(s.numbering, blocks[|blocks| - 1])
  }

  /** One block per save is always kept. */
  lemma OneBlockKept(s: State, ops: seq<KeyedOp>)
    ensures SaveKeeps(s, [ops])
  {
    assert Flatten([ops][..0]) == [];
  }

  lemma {:induction false} KeptBlocksHold(config: Config, column: Column, stored: Option<seq<byte>>, s: State,
      blocks: seq<seq<KeyedOp>>)
    requires config.Valid() && HoldsBlocks(config, column, s, blocks) && Bijective(s.numbering)
    requires HoldsBlockNumber(stored, s.blocks + |blocks|) && SaveKeeps(s, blocks)
    ensures HoldsState(config, column, stored, ApplyBlocks(s, blocks))
  {
    AfterBijective(s.numbering, Flatten(blocks));
    if blocks == [] {
      NothingStaged(config, column, s);
      NoBlocks(s);
    } else {
      ResetNodesRight(config, column, s.leaves, blocks);
      SavedNumberingRight(column, s.numbering, blocks);
    }
  }

  /** The condition is exact: without it the database holds another tree or another numbering. */
  lemma {:induction false} SavedBlocksHold(config: Config, column: Column, stored: Option<seq<byte>>, s: State,
      blocks: seq<seq<KeyedOp>>)
    requires config.Valid() && HoldsBlocks(config, column, s, blocks) && Bijective(s.numbering)
    requires HoldsBlockNumber(stored, s.blocks + |blocks|)
    requires blocks != [] && blocks[|blocks| - 1] != [] && OpsInTree(config.depth, Flatten(blocks))
    requires NoCollisionBetween(config.hasher, SetLeaves(s.leaves, blocks[|blocks| - 1]),
               SetLeaves(s.leaves, Flatten(blocks)), config.depth)
    ensures HoldsState(config, column, stored, ApplyBlocks(s, blocks)) <==> SaveKeeps(s, blocks)
  {
    AfterBijective(s.numbering, Flatten(blocks));
    SavedNodesRight(config, column, s.leaves, blocks);
    SavedNumberingRight(column, s.numbering, blocks);
  }

  /** Everything a block does to the storage: it reads what is saved, and its nodes and numbers go
      over those of the blocks not saved yet. */
  method StageBlock(storage: Storage, config: Config, ops: seq<KeyedOp>, ghost s: State,
      ghost blocks: seq<seq<KeyedOp>>, ghost b: Batch)
    returns (hashTrace: seq<HashTrace>, indices: LeafIndices, reports: seq<StorageLogMetadata>)
    requires config.Valid() && OpsInTree(config.depth, ops) && b == BatchOf(config, s.leaves, ops)
    requires HoldsTree(config, storage.db.column, s.leaves) && HoldsIndices(storage.db.column, s.numbering)
    requires HoldsBlocks(config, storage.db.column + storage.putPendingPatch, s, blocks)
    requires s.numbering.next + |ops| < LIMB
    modifies storage`putPendingPatch
    ensures LeafIndexKey in storage.putPendingPatch
    ensures HoldsBlocks(config, storage.db.column + storage.putPendingPatch, s, blocks + [ops])
    ensures b.Valid() && hashTrace == Flatten(TraceGroups(b))
    ensures |reports| == |ops| && forall i :: 0 <= i < |ops| ==> IsReport(b, ops, indices, i, reports[i])
    ensures indices.initialWrites == InitialWrites(s.numbering, ops)
    ensures indices.repeatedWrites == RepeatedWrites(s.numbering, ops)
    ensures indices.previousIndex == s.numbering.next
    ensures indices.lastIndex == LeafEnumeration.After(s.numbering, ops).next
  {
    ghost var pending := storage.putPendingPatch;
    ghost var staged := Staged(s.numbering, blocks);
    StagedKeys(s.numbering, blocks);
    indices := storage.ProcessLeafIndices(ops, s.numbering, staged);
    var branches;
    hashTrace, branches, reports := ComputeBlock(config, storage.db.column, ops, indices, s.leaves, b);
    ghost var before := storage.putPendingPatch;
    storage.PreSave(branches);
    PendingHoldsNodes(config, storage.db.column, pending, before, storage.putPendingPatch, s.leaves, blocks, ops,
                      branches);
    OneMoreStaged(s.numbering, blocks, ops);
    PendingHoldsIndices(storage.db.column, before, storage.putPendingPatch, branches,
                        Staged(s.numbering, blocks + [ops]));
  }

  /** The root in the last report is the root of the leaves after the block. */
  lemma {:induction false} LastReport(config: Config, leaves: Leaves, ops: seq<KeyedOp>, indices: LeafIndices,
      report: StorageLogMetadata)
    requires config.Valid() && OpsInTree(config.depth, ops) && ops != [] && BatchOf(config, leaves, ops).Valid()
    requires IsReport(BatchOf(config, leaves, ops), ops, indices, |ops| - 1, report)
    ensures report.rootHash == Root(config.hasher, SetLeaves(leaves, ops), config.depth)
  {
    AfterIsSetLeaves(config, leaves, ops, |ops|);
    assert ops[..|ops|] == ops;
  }

  /** The root after a block is the one that the blocks so far leave. */
  lemma {:induction false} LatestRoot(config: Config, leaves: Leaves, blocks: seq<seq<KeyedOp>>, ops: seq<KeyedOp>)
    requires OpsInTree(config.depth, ops)
    ensures NodeOfBlocks(config.hasher, leaves, blocks + [ops], config.depth, 0)
         == if ops == [] then NodeOfBlocks(config.hasher, leaves, blocks, config.depth, 0)
            else Root(config.hasher, SetLeaves(leaves, ops), config.depth)
  {
    OneMoreBlock(config.hasher, leaves, blocks, ops, config.depth, 0);
    if ops != [] {
      RootTouched(config.depth, ops);
    }
  }

  class AccountTree {
    const storage: Storage
    const config: Config
    var rootHash: ZkHash
    var blockNumber: nat

    /** What the database holds, and the blocks processed since the last save. */
    ghost var saved: State
    ghost var blocks: seq<seq<KeyedOp>>

    ghost predicate Valid()
      reads this, storage, storage.db
    {
      && config.Valid()
      && HoldsState(config, storage.db.column, storage.db.blockNumber, saved)
      && HoldsBlocks(config, storage.db.column + storage.putPendingPatch, saved, blocks)
      && (blocks != [] ==> LeafIndexKey in storage.putPendingPatch)
      && rootHash == NodeOfBlocks(config.hasher, saved.leaves, blocks, config.depth, 0)
      && blockNumber == saved.blocks + |blocks| < U32_LIMIT
    }

    /** `new_with_db`: `s` is what the database holds according to the configuration `c`. */
    constructor (db: RocksDb, hasher: Hasher, depth: nat, ghost c: Config, ghost s: State)
      requires c.Valid() && c.hasher == hasher && c.depth == depth && HoldsState(c, db.column, db.blockNumber, s)
      ensures Valid() && fresh(storage) && storage.db == db && config.hasher == hasher && config.depth == depth
      ensures saved == s && blocks == []
    {
      var storage' := new Storage(db);
      var config' := TreeConfig.New(hasher, depth);
      SameReading(c, config', db.column, db.blockNumber, s);
      var stored, n := storage'.FetchMetadata(config', s.leaves, s.blocks);
      storage, config := storage', config';
      rootHash := if stored.Some? then stored.value else config'.DefaultRootHash();
      blockNumber := n;
      saved, blocks := s, [];
      new;
      assert db.column + map[] == db.column;
      NothingStaged(config, db.column, s);
    }

    /** `apply_updates_batch` for one block. */
    method ApplyUpdatesBatch(ops: seq<KeyedOp>, ghost b: Batch)
      returns (hashTrace: seq<HashTrace>, indices: LeafIndices, reports: seq<StorageLogMetadata>)
      requires Valid() && OpsInTree(config.depth, ops) && b == BatchOf(config, saved.leaves, ops)
      requires saved.numbering.next + |ops| < LIMB && blockNumber + 1 < U32_LIMIT
      modifies this, storage`putPendingPatch
      ensures Valid() && saved == old(saved) && blocks == old(blocks) + [ops]
      ensures b.Valid() && hashTrace == Flatten(TraceGroups(b))
      ensures |reports| == |ops| && forall i :: 0 <= i < |ops| ==> IsReport(b, ops, indices, i, reports[i])
      ensures indices.initialWrites == InitialWrites(saved.numbering, ops)
      ensures indices.repeatedWrites == RepeatedWrites(saved.numbering, ops)
      ensures indices.previousIndex == saved.numbering.next
      ensures indices.lastIndex == LeafEnumeration.After(saved.numbering, ops).next
      ensures rootHash
           == if ops == [] then old(rootHash) else Root(config.hasher, SetLeaves(saved.leaves, ops), config.depth)
    {
      hide StoredNode, HoldsTree, HoldsIndices, HoldsBlocks, SetLeaves, Root, IsReport, BatchOf, TraceGroups, Flatten;
      hide InitialWrites, RepeatedWrites, NodeOfBlocks;
      hashTrace, indices, reports := StageBlock(storage, config, ops, saved, blocks, b);
      LatestRoot(config, saved.leaves, blocks, ops);
      if reports != [] {
        LastReport(config, saved.leaves, ops, indices, reports[|reports| - 1]);
        rootHash := reports[|reports| - 1].rootHash;
      }
      blockNumber := blockNumber + 1;
      blocks := blocks + [ops];
    }

    /** `process_block`. A block without operations stops the program at an assertion. */
    method ProcessBlock(ops: seq<KeyedOp>) returns (r: Result<TreeMetadata, TreeError>)
      requires Valid() && OpsInTree(config.depth, ops)
      requires saved.numbering.next + |ops| < LIMB && blockNumber + 1 < U32_LIMIT
      modifies this, storage`putPendingPatch
      ensures Valid() && saved == old(saved) && blocks == old(blocks) + [ops]
      ensures r.Failure? <==> ops == []
      ensures r.Success? ==>
                && r.value.rootHash == rootHash == Root(config.hasher, SetLeaves(saved.leaves, ops), config.depth)
                && r.value.rollupLastLeafIndex == LeafEnumeration.After(saved.numbering, ops).next
                && r.value.initialWrites == InitialWrites(saved.numbering, ops)
                && r.value.repeatedWrites == RepeatedWrites(saved.numbering, ops)
      ensures r.Success? ==>
                && BatchOf(config, saved.leaves, ops).Valid()
                && IsUpdateTrace(BatchOf(config, saved.leaves, ops), ops, old(rootHash), r.value.storageTrace)
      ensures old(blocks) == [] ==> old(rootHash) == Root(config.hasher, saved.leaves, config.depth)
    {
      var preRoot := rootHash;
      ghost var b := BatchOf(config, saved.leaves, ops);
      var hashTrace, indices, reports := ApplyUpdatesBatch(ops, b);
      if reports == [] {
        return Failure(EmptyPatch);
      }
      LastReport(config, saved.leaves, ops, indices, reports[|reports| - 1]);
      var storageTrace := ComposeWitness(preRoot, hashTrace, ops, config.depth, b);
      r := Success(TreeMetadata(reports[|reports| - 1].rootHash, indices.lastIndex, indices.initialWrites,
                                indices.repeatedWrites, storageTrace));
    }

    /** `save`, after any number of blocks. The object goes on from the state after all of them if
        that is what the database now holds. */
    method Save() returns (r: Result<(), TreeError>)
      requires Valid()
      modifies this`saved, this`blocks, storage.db
      ensures old(blocks) != [] ==> r.Success?
      ensures storage.db.column + storage.putPendingPatch
           == storage.db.column == old(storage.db.column) + storage.putPendingPatch
      ensures HoldsBlocks(config, storage.db.column, old(saved), old(blocks))
      ensures HoldsBlockNumber(storage.db.blockNumber, old(saved).blocks + |old(blocks)|)
      ensures SaveKeeps(old(saved), old(blocks)) ==>
                Valid() && saved == ApplyBlocks(old(saved), old(blocks)) && blocks == []
    {
      hide HoldsTree, HoldsIndices, HoldsBlocks, SaveKeeps, Flatten, NodeOfBlocks, SetLeaves;
      ghost var column := storage.db.column;
      r := storage.Save(blockNumber);
      SavedTwice(column, storage.putPendingPatch);
      assert storage.db.column == column + storage.putPendingPatch;
      if SaveKeeps(saved, blocks) {
        KeptBlocksHold(config, storage.db.column, storage.db.blockNumber, saved, blocks);
        KeptRoot(config, saved, blocks);
        saved, blocks := ApplyBlocks(saved, blocks), [];
        NothingStaged(config, storage.db.column, saved);
      }
    }
  }

  lemma SavedTwice(column: Column, pending: Column)
    ensures column + pending + pending == column + pending
  {
  }

  lemma {:induction false} KeptRoot(config: Config, s: State, blocks: seq<seq<KeyedOp>>)
    requires SaveKeeps(s, blocks)
    ensures NodeOfBlocks(config.hasher, s.leaves, blocks, config.depth, 0)
         == NodeOfBlocks(config.hasher, ApplyBlocks(s, blocks).leaves, [], config.depth, 0)
  {
    if blocks != [] {
      NodesRight(config.hasher, s.leaves, blocks, config.depth, 0);
    }
  }

  /** Stopping at any moment and opening the database again gives the last saved state. */
  method Reopen(tree: AccountTree) returns (tree': AccountTree)
    requires tree.Valid()
    ensures fresh(tree') && fresh(tree'.storage) && tree'.Valid() && tree'.storage.db == tree.storage.db
    ensures tree'.blocks == [] && tree'.saved == tree.saved
    ensures tree'.config.hasher == tree.config.hasher && tree'.config.depth == tree.config.depth
  {
    tree' := new AccountTree(tree.storage.db, tree.config.hasher, tree.config.depth, tree.config, tree.saved);
  }
}
