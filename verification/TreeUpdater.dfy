/** The updating loop of the metadata calculator (ola_core/src/metadata_calculator/updater.rs). */
module TreeUpdater {
  import opened TreeConfig
  import opened Storage
  import opened Wrappers
  import opened Bytes
  import opened TreeTypes
  import opened SparseTree
  import opened LeafEnumeration
  import opened TreeState
  import opened UnsavedBlocks
  import opened Tree
  import opened StorageHistory
  import opened LogCompaction
  import opened TreeHistory
  import opened TreeBatches
  import opened TreeOrder

  /** The batch has no header yet, the program stops at it, or its operations. */
  datatype BatchData = Missing | Stops | Ops(ops: seq<KeyedOp>)

  lemma {:induction false} WritesAreBatch(pg: Postgres, hash: StorageKey -> H256, b: nat, writes: seq<WitnessLog>)
    requires WritesOf(pg.StateBefore(b), pg.StateBefore(b + 1), writes) && writes != []
    ensures IsBatch(pg, hash, b, OpsOf(hash, writes))
  {
  }

  /** The logs of a batch without the reads, as operations. */
  method BatchOps(pg: Postgres, hash: StorageKey -> H256, b: nat, ghost depth: nat) returns (r: BatchData)
    requires pg.Valid() && HashesFit(pg, hash, depth)
    ensures r.Missing? <==> b !in pg.headers
    ensures r.Ops? <==> Processable(pg, b)
    ensures r.Ops? ==>
              r.ops != [] && |r.ops| <= |pg.Keys()| && OpsInTree(depth, r.ops) && IsBatch(pg, hash, b, r.ops)
  {
    hide IsCompaction, WritesOf, OpsOf, FilterBlockLogs, IsBatch;
    var outcome := GetLogsForL1Batch(pg, hash, b);
    if outcome.NoHeader? {
      return Missing;
    } else if outcome.Stopped? {
      return Stops;
    }
    CompactionWrites(pg, b, outcome.logs);
    var writes := FilterBlockLogs(outcome.logs);
    WritesFitTree(pg, hash, b, writes, depth);
    EmptyIffUnchanged(pg, b, writes);
    if writes == [] {
      return Stops;
    }
    WritesAreBatch(pg, hash, b, writes);
    r := Ops(OpsOf(hash, writes));
  }

  lemma {:induction false} CompactionWrites(pg: Postgres, b: nat, logs: seq<WitnessLog>)
    requires IsCompaction(pg.StateBefore(b), pg.StateBefore(b + 1), pg.ProtectiveReads(b), logs)
    ensures WritesOf(pg.StateBefore(b), pg.StateBefore(b + 1), FilterBlockLogs(logs))
  {
    BatchLogs(pg.StateBefore(b), pg.StateBefore(b + 1), pg.ProtectiveReads(b), logs);
  }

  /** The tree was saved for the storage before batch `first`; the batches from there up to `b` are
      processed but not saved. */
  ghost predicate Under(pg: Postgres, hash: StorageKey -> H256, tree: AccountTree, first: nat, b: nat)
    reads tree, tree.storage, tree.storage.db
  {
    && tree.Valid() && Follows(pg, hash, tree.saved, first)
    && first + |tree.blocks| == b && AreBatches(pg, hash, first, tree.blocks)
  }

  /** The tree is saved and stands for the storage before batch `b`. */
  ghost predicate InStep(pg: Postgres, hash: StorageKey -> H256, tree: AccountTree, b: nat)
    reads tree, tree.storage, tree.storage.db
  {
    Under(pg, hash, tree, b, b)
  }

  lemma Room(pg: Postgres, hash: StorageKey -> H256, tree: AccountTree, first: nat, b: nat, ops: seq<KeyedOp>)
    requires Under(pg, hash, tree, first, b) && 2 * |pg.Keys()| + 1 < LIMB && |ops| <= |pg.Keys()|
    ensures tree.saved.numbering.next + |ops| < LIMB && tree.blockNumber == b
  {
    NumberingFits(pg, hash, tree.saved, first);
  }

  datatype Progress = Next(batch: nat) | Halted

  /** One batch: fetch its logs, drop the reads, update the tree. Its root is that of the saved leaves
      with this batch alone. */
  method ProcessL1Batch(pg: Postgres, hash: StorageKey -> H256, tree: AccountTree, ghost first: nat, b: nat)
    returns (r: BatchData)
    requires pg.Valid() && HashesFit(pg, hash, tree.config.depth)
    requires Under(pg, hash, tree, first, b) && b + 1 < U32_LIMIT && 2 * |pg.Keys()| + 1 < LIMB
    modifies tree, tree.storage
    ensures r.Missing? <==> b !in pg.headers
    ensures r.Ops? <==> Processable(pg, b)
    ensures r.Missing? ==> Under(pg, hash, tree, first, b)
    ensures r.Ops? <==>
              && b in pg.headers && b in pg.batchOf
              && (exists k :: Value(pg.StateBefore(b), k) != Value(pg.StateBefore(b + 1), k))
              && (b in pg.protectiveReads ==> forall k :: k in pg.protectiveReads[b] ==>
                    Value(pg.StateBefore(b), k) == Value(pg.StateBefore(b + 1), k))
    ensures r.Ops? ==>
              && Under(pg, hash, tree, first, b + 1) && IsBatch(pg, hash, b, r.ops)
              && tree.saved == old(tree.saved) && tree.blocks == old(tree.blocks) + [r.ops]
              && tree.rootHash == Root(tree.config.hasher, SetLeaves(tree.saved.leaves, r.ops), tree.config.depth)
  {
    hide Follows, AreBatches, IsBatch, Processable, HashesFit;
    ProcessableInFull(pg, b);
    r := BatchOps(pg, hash, b, tree.config.depth);
    if r.Ops? {
      Room(pg, hash, tree, first, b, r.ops);
      OneMoreBatch(pg, hash, first, tree.blocks, r.ops);
      var metadata := tree.ProcessBlock(r.ops);
    }
  }

  ghost predicate AllProcessable(pg: Postgres, from: nat, to: nat) {
    forall b: nat :: from <= b < to ==> Processable(pg, b)
  }

  lemma NextProcessable(pg: Postgres, from: nat, to: nat)
    ensures AllProcessable(pg, from, from)
    ensures AllProcessable(pg, from, to) && Processable(pg, to) ==> AllProcessable(pg, from, to + 1)
  {
  }

  // ---------------------------------------------------------------- One save for several batches

  /** One save for the batches from `first` to `last` keeps the tree: the last one changes again every
      slot that the others leave changed, and the slots set for the first time are first set in the
      order of their keys. */
  ghost predicate RangeKeeps(pg: Postgres, first: nat, last: nat) {
    SlotsReset(pg, first, last) && NumbersKept(pg, first, last)
  }

  lemma OneBatchKeeps(pg: Postgres, b: nat)
    ensures RangeKeeps(pg, b, b)
  {
  }

  lemma {:induction false} RangeIsSave(pg: Postgres, hash: StorageKey -> H256, depth: nat, s: TreeState.State,
      first: nat, last: nat, blocks: seq<seq<KeyedOp>>)
    requires pg.Valid() && HashesFit(pg, hash, depth) && Follows(pg, hash, s, first)
    requires AreBatches(pg, hash, first, blocks) && blocks != [] && first + |blocks| == last + 1
    ensures SaveKeeps(s, blocks) <==> RangeKeeps(pg, first, last)
    ensures Follows(pg, hash, ApplyBlocks(s, blocks), last + 1)
  {
    AllButLast(pg, hash, first, blocks);
    BlocksFollow(pg, hash, depth, s, first, blocks);
    hide Follows, HashesFit, AreBatches, IsBatch, ResetBy, SlotsReset, NumbersKept, Flatten;
    ResetIsSlotsReset(pg, hash, depth, s, first, last, blocks[..|blocks| - 1], blocks[|blocks| - 1]);
    NumbersFirstIffKept(pg, hash, depth, s, first, last, blocks[..|blocks| - 1], blocks[|blocks| - 1]);
  }

  /** What the database holds after one save for several batches is the tree and the numbering of the
      storage after them exactly if the range keeps the tree. */
  lemma {:induction false} SavedRange(pg: Postgres, hash: StorageKey -> H256, config: Config, column: Column,
      stored: Option<seq<byte>>, s: TreeState.State, first: nat, last: nat, blocks: seq<seq<KeyedOp>>)
    requires config.Valid() && pg.Valid() && HashesFit(pg, hash, config.depth) && Follows(pg, hash, s, first)
    requires AreBatches(pg, hash, first, blocks) && blocks != [] && first + |blocks| == last + 1
    requires HoldsBlocks(config, column, s, blocks) && Bijective(s.numbering) && HoldsBlockNumber(stored, last + 1)
    requires NoCollisionBetween(config.hasher, SetLeaves(s.leaves, blocks[|blocks| - 1]),
               SetLeaves(s.leaves, Flatten(blocks)), config.depth)
    ensures HoldsState(config, column, stored, ApplyBlocks(s, blocks)) <==> RangeKeeps(pg, first, last)
    ensures Follows(pg, hash, ApplyBlocks(s, blocks), last + 1)
  {
    hide *;
    LastBlock(pg, hash, s, first, blocks);
    ConcatInTree(pg, hash, config.depth, first, blocks);
    RangeIsSave(pg, hash, config.depth, s, first, last, blocks);
    SavedBlocksHold(config, column, stored, s, blocks);
  }

  lemma LastBlock(pg: Postgres, hash: StorageKey -> H256, s: TreeState.State, first: nat, blocks: seq<seq<KeyedOp>>)
    requires Follows(pg, hash, s, first) && AreBatches(pg, hash, first, blocks) && blocks != []
    ensures s.blocks == first && blocks[|blocks| - 1] != []
  {
    AllButLast(pg, hash, first, blocks);
  }

  lemma {:induction false} LeavesOfRange(pg: Postgres, hash: StorageKey -> H256, depth: nat, s: TreeState.State,
      first: nat, last: nat, earlier: seq<seq<KeyedOp>>, ops: seq<KeyedOp>)
    requires IsRange(pg, hash, depth, s, first, last, earlier, ops)
    ensures Mirrors(hash, SetLeaves(SetLeaves(s.leaves, Flatten(earlier)), ops), pg.StateBefore(last + 1))
  {
    hide *;
    RangeParts(pg, hash, depth, s, first, last, earlier, ops);
    BlocksFollow(pg, hash, depth, s, first, earlier);
    BatchFollows(pg, hash, depth, ApplyBlocks(s, earlier), last, ops);
    FollowingLeaves(pg, hash, s, earlier, ops, last + 1);
  }

  lemma FollowingLeaves(pg: Postgres, hash: StorageKey -> H256, s: TreeState.State, earlier: seq<seq<KeyedOp>>,
      ops: seq<KeyedOp>, b: nat)
    requires Follows(pg, hash, ApplyBlock(ApplyBlocks(s, earlier), ops), b)
    ensures Mirrors(hash, SetLeaves(SetLeaves(s.leaves, Flatten(earlier)), ops), pg.StateBefore(b))
  {
    hide Mirrors, SetLeaves;
  }

  /** The root reported for the last of several unsaved batches is that of the storage after it
      exactly if the last batch changes again every slot that the others leave changed. */
  lemma {:induction false} RootOfRange(pg: Postgres, hash: StorageKey -> H256, h: Hasher, depth: nat,
      s: TreeState.State, first: nat, last: nat, earlier: seq<seq<KeyedOp>>, ops: seq<KeyedOp>, expected: Leaves)
    requires IsRange(pg, hash, depth, s, first, last, earlier, ops)
    requires Mirrors(hash, expected, pg.StateBefore(last + 1))
    requires NoCollisionBetween(h, SetLeaves(s.leaves, ops), SetLeaves(SetLeaves(s.leaves, Flatten(earlier)), ops),
                                depth)
    ensures Root(h, SetLeaves(s.leaves, ops), depth) == Root(h, expected, depth) <==> SlotsReset(pg, first, last)
  {
    hide Follows, HashesFit, AreBatches, IsBatch, ResetBy, SlotsReset, Mirrors, Root, NoCollisionBetween, SetLeaves;
    ConcatInTree(pg, hash, depth, first, earlier);
    LeavesOfRange(pg, hash, depth, s, first, last, earlier, ops);
    RootOfStorage(h, hash, SetLeaves(SetLeaves(s.leaves, Flatten(earlier)), ops), expected, pg.StateBefore(last + 1),
                  depth);
    ResetIsSlotsReset(pg, hash, depth, s, first, last, earlier, ops);
    SecondBlockRoot(h, depth, s.leaves, Flatten(earlier), ops);
  }

  /** The database holds the blocks of these batches, each computed from `s`. */
  ghost predicate SavedTogether(pg: Postgres, hash: StorageKey -> H256, tree: AccountTree, s: TreeState.State,
      first: nat, last: nat, blocks: seq<seq<KeyedOp>>)
    reads tree, tree.storage, tree.storage.db
  {
    && AreBatches(pg, hash, first, blocks) && first + |blocks| == last + 1
    && tree.config.Valid() && HoldsBlocks(tree.config, tree.storage.db.column, s, blocks)
    && HoldsBlockNumber(tree.storage.db.blockNumber, last + 1)
  }

  /** The save at the end of a range. */
  method SaveRange(pg: Postgres, hash: StorageKey -> H256, tree: AccountTree, ghost first: nat, ghost last: nat)
    returns (ghost blocks: seq<seq<KeyedOp>>)
    requires pg.Valid() && HashesFit(pg, hash, tree.config.depth)
    requires Under(pg, hash, tree, first, last + 1) && first <= last
    modifies tree, tree.storage.db
    ensures SavedTogether(pg, hash, tree, old(tree.saved), first, last, blocks)
    ensures RangeKeeps(pg, first, last) ==> InStep(pg, hash, tree, last + 1)
  {
    hide HashesFit, AreBatches, RangeKeeps, SaveKeeps, HoldsBlocks;
    blocks := tree.blocks;
    RangeIsSave(pg, hash, tree.config.depth, tree.saved, first, last, blocks);
    NoBatches(pg, hash, last + 1);
    assert tree.saved.blocks == first;
    var saved := tree.Save();
  }

  lemma NoBatches(pg: Postgres, hash: StorageKey -> H256, first: nat)
    ensures AreBatches(pg, hash, first, [])
  {
  }

  /** `process_multiple_batches`: the batches from `first` to `last` with one save at the end. A batch
      without header ends the range early, and then nothing is saved. */
  method ProcessMultipleBatches(pg: Postgres, hash: StorageKey -> H256, tree: AccountTree, ghost from: nat, first: nat,
      last: nat)
    returns (r: Progress, ghost blocks: seq<seq<KeyedOp>>)
    requires pg.Valid() && HashesFit(pg, hash, tree.config.depth) && 2 * |pg.Keys()| + 1 < LIMB
    requires Under(pg, hash, tree, from, first) && first <= last && last + 1 < U32_LIMIT
    modifies tree, tree.storage, tree.storage.db
    ensures r.Halted? ==>
              exists b: nat ::
                first <= b <= last && AllProcessable(pg, first, b) && b in pg.headers && !Processable(pg, b)
    ensures r.Next? ==> first <= r.batch <= last + 1 && AllProcessable(pg, first, r.batch)
    ensures r.Next? && r.batch <= last ==> r.batch !in pg.headers && Under(pg, hash, tree, from, r.batch)
    ensures r.Next? && r.batch == last + 1 ==> SavedTogether(pg, hash, tree, old(tree.saved), from, last, blocks)
    ensures r.Next? && r.batch == last + 1 && RangeKeeps(pg, from, last) ==> InStep(pg, hash, tree, last + 1)
  {
    hide HashesFit, AllProcessable, Processable, AreBatches, IsBatch, Follows, RangeKeeps, HoldsBlocks,
        AccountTree.Valid;
    blocks := [];
    NextProcessable(pg, first, first);
    for b := first to last + 1
      invariant Under(pg, hash, tree, from, b) && tree.saved == old(tree.saved) && AllProcessable(pg, first, b)
    {
      var data := ProcessL1Batch(pg, hash, tree, from, b);
      if data.Missing? {
        return Next(b), blocks;
      } else if data.Stops? {
        return Halted, blocks;
      }
      NextProcessable(pg, first, b);
    }
    blocks := SaveRange(pg, hash, tree, from, last);
    r := Next(last + 1);
  }

  // ---------------------------------------------------------------- The loop

  /** The last batch of a step that starts at `next`. */
  function StepEnd(next: nat, size: nat, sealed: nat): int {
    if next + size - 1 < sealed then next + size - 1 else sealed
  }

  /** `step`: the next batches, at most `size` of them and no further than the last sealed one. `from`
      is where the tree was saved last, which is before `next` if a range ended early. */
  method Step(pg: Postgres, hash: StorageKey -> H256, tree: AccountTree, ghost from: nat, next: nat, size: nat,
      sealed: nat)
    returns (r: Progress, ghost blocks: seq<seq<KeyedOp>>)
    requires pg.Valid() && HashesFit(pg, hash, tree.config.depth) && 2 * |pg.Keys()| + 1 < LIMB
    requires Under(pg, hash, tree, from, next) && sealed + 1 < U32_LIMIT
    modifies tree, tree.storage, tree.storage.db
    ensures r.Halted? ==> exists b: nat :: next <= b <= sealed && AllProcessable(pg, next, b) && !Processable(pg, b)
    ensures r.Next? ==> next <= r.batch && AllProcessable(pg, next, r.batch)
    ensures next > StepEnd(next, size, sealed) ==> r == Next(next) && Under(pg, hash, tree, from, next)
    ensures r.Next? && r.batch <= StepEnd(next, size, sealed) ==>
              r.batch !in pg.headers && Under(pg, hash, tree, from, r.batch)
    ensures r.Next? && r.batch > StepEnd(next, size, sealed) >= next ==>
              && r.batch == StepEnd(next, size, sealed) + 1
              && SavedTogether(pg, hash, tree, old(tree.saved), from, r.batch - 1, blocks)
              && (RangeKeeps(pg, from, r.batch - 1) ==> InStep(pg, hash, tree, r.batch))
    ensures next > sealed || size == 0 ==> r == Next(next)
    ensures r.Next? && next <= sealed ==> r.batch <= next + size && r.batch <= sealed + 1
    ensures r.Next? && r.batch < next + size && r.batch <= sealed ==> r.batch !in pg.headers
  {
    hide HashesFit, AllProcessable, AreBatches, IsBatch, Follows, RangeKeeps, InStep, Under, SavedTogether;
    var last := StepEnd(next, size, sealed);
    NextProcessable(pg, next, next);
    blocks := [];
    if next > last {
      return Next(next), blocks;
    }
    r, blocks := ProcessMultipleBatches(pg, hash, tree, from, next, last);
  }

  /** The first so many steps of the loop take batches that one save keeps. */
  ghost predicate StepsKeep(pg: Postgres, next: nat, size: nat, sealed: nat, steps: nat)
    decreases steps
  {
    steps > 0 && next <= StepEnd(next, size, sealed) ==>
      && RangeKeeps(pg, next, StepEnd(next, size, sealed))
      && StepsKeep(pg, StepEnd(next, size, sealed) + 1, size, sealed, steps - 1)
  }

  lemma StepsKeepOn(pg: Postgres, next: nat, size: nat, sealed: nat, steps: nat)
    requires StepsKeep(pg, next, size, sealed, steps) && next <= sealed && size > 0
    ensures next <= StepEnd(next, size, sealed) <= sealed
    ensures steps > 0 ==> RangeKeeps(pg, next, StepEnd(next, size, sealed))
    ensures steps > 0 ==> StepsKeep(pg, StepEnd(next, size, sealed) + 1, size, sealed, steps - 1)
  {
  }

  /** Steps of one batch always do. */
  lemma {:induction false} OneByOneKeeps(pg: Postgres, next: nat, sealed: nat, steps: nat)
    ensures StepsKeep(pg, next, 1, sealed, steps)
    decreases steps
  {
    if steps > 0 && next <= sealed {
      OneBatchKeeps(pg, next);
      OneByOneKeeps(pg, next + 1, sealed, steps - 1);
    }
  }

  /** In step, the root is that of any leaves that hold the storage. */
  lemma RootInStep(pg: Postgres, hash: StorageKey -> H256, tree: AccountTree, b: nat, expected: Leaves)
    requires InStep(pg, hash, tree, b) && Mirrors(hash, expected, pg.StateBefore(b))
    ensures tree.rootHash == Root(tree.config.hasher, expected, tree.config.depth)
  {
    assert tree.blocks == [];
    RootOfStorage(tree.config.hasher, hash, tree.saved.leaves, expected, pg.StateBefore(b), tree.config.depth);
  }

  lemma ProcessableOn(pg: Postgres, from: nat, mid: nat, to: nat)
    requires AllProcessable(pg, from, mid) && AllProcessable(pg, mid, to)
    ensures AllProcessable(pg, from, to)
  {
  }

  lemma NotAllProcessable(pg: Postgres, from: nat, b: nat, to: nat)
    requires from <= b < to && !Processable(pg, b)
    ensures !AllProcessable(pg, from, to)
  {
  }

  lemma NoHeader(pg: Postgres, b: nat)
    requires b !in pg.headers
    ensures !Processable(pg, b)
  {
  }

  /** Where the loop stands before batch `b` when its last range started at `start`: the tree is saved
      for `start` with the batches since then unsaved, or they were saved together. */
  ghost predicate Stands(pg: Postgres, hash: StorageKey -> H256, tree: AccountTree, start: nat, b: nat)
    reads tree, tree.storage, tree.storage.db
  {
    Under(pg, hash, tree, start, b) || (start < b && SavedFrom(pg, hash, tree, start, b - 1))
  }

  ghost predicate SavedFrom(pg: Postgres, hash: StorageKey -> H256, tree: AccountTree, first: nat, last: nat)
    reads tree, tree.storage, tree.storage.db
  {
    exists s, blocks :: Follows(pg, hash, s, first) && SavedTogether(pg, hash, tree, s, first, last, blocks)
  }

  lemma StandsSaved(pg: Postgres, hash: StorageKey -> H256, tree: AccountTree, s: TreeState.State,
      start: nat, b: nat, blocks: seq<seq<KeyedOp>>)
    requires Follows(pg, hash, s, start) && start < b && SavedTogether(pg, hash, tree, s, start, b - 1, blocks)
    ensures Stands(pg, hash, tree, start, b)
  {
    assert SavedFrom(pg, hash, tree, start, b - 1);
  }

  lemma StandsUnder(pg: Postgres, hash: StorageKey -> H256, tree: AccountTree, start: nat, b: nat)
    requires Under(pg, hash, tree, start, b)
    ensures Stands(pg, hash, tree, start, b) && start <= b
    ensures Follows(pg, hash, tree.saved, start)
  {
  }

  /** The loop, stopped after `steps` steps of at most `size` batches. It is followed as long as every
      step but the last took batches that one save keeps, which single batches always are. It ends at
      the last sealed batch exactly if every batch can be processed and the steps suffice; where its
      last range is kept, the tree is in step with the storage. */
  method UpdateTree(pg: Postgres, hash: StorageKey -> H256, tree: AccountTree, first: nat, size: nat, sealed: nat,
      steps: nat)
    returns (r: Progress, ghost start: nat)
    requires pg.Valid() && HashesFit(pg, hash, tree.config.depth) && 2 * |pg.Keys()| + 1 < LIMB
    requires InStep(pg, hash, tree, first) && first <= sealed + 1 < U32_LIMIT && size > 0
    requires size == 1 || steps == 0 || StepsKeep(pg, first, size, sealed, steps - 1)
    modifies tree, tree.storage, tree.storage.db
    ensures r == Next(sealed + 1) ==> AllProcessable(pg, first, sealed + 1)
    ensures AllProcessable(pg, first, sealed + 1) && first + steps > sealed ==> r == Next(sealed + 1)
    ensures r.Next? ==> first <= start <= r.batch <= sealed + 1 && AllProcessable(pg, first, r.batch)
    ensures r.Next? ==> Stands(pg, hash, tree, start, r.batch)
    ensures r.Next? && (r.batch in pg.headers || r.batch > sealed)
              && (start == r.batch || RangeKeeps(pg, start, r.batch - 1)) ==>
              InStep(pg, hash, tree, r.batch)
  {
    hide *;
    if size == 1 && steps > 0 {
      OneByOneKeeps(pg, first, sealed, steps - 1);
    }
    var next, left := first, steps;
    start := first;
    NextProcessable(pg, first, first);
    StepStart(pg, hash, tree, first);
    StandsUnder(pg, hash, tree, first, first);
    while left > 0 && next <= sealed
      invariant first <= start <= next <= sealed + 1 && AllProcessable(pg, first, next) && next + left >= first + steps
      invariant Stands(pg, hash, tree, start, next)
      invariant start == next || RangeKeeps(pg, start, next - 1) ==> InStep(pg, hash, tree, next)
      invariant left > 0 ==> InStep(pg, hash, tree, next) && StepsKeep(pg, next, size, sealed, left - 1)
    {
      StepsKeepOn(pg, next, size, sealed, left - 1);
      StepStart(pg, hash, tree, next);
      StandsUnder(pg, hash, tree, next, next);
      ghost var before, blocks := tree.saved, [];
      start := next;
      r, blocks := Step(pg, hash, tree, next, next, size, sealed);
      if r.Halted? {
        ghost var b: nat :| next <= b <= sealed && AllProcessable(pg, next, b) && !Processable(pg, b);
        NotAllProcessable(pg, first, b, sealed + 1);
        return;
      }
      ProcessableOn(pg, first, next, r.batch);
      if r.batch <= StepEnd(next, size, sealed) {
        NoHeader(pg, r.batch);
        NotAllProcessable(pg, first, r.batch, sealed + 1);
        StandsUnder(pg, hash, tree, start, r.batch);
        return;
      }
      StandsSaved(pg, hash, tree, before, start, r.batch, blocks);
      next, left := r.batch, left - 1;
    }
    r := Next(next);
  }

  lemma StepStart(pg: Postgres, hash: StorageKey -> H256, tree: AccountTree, next: nat)
    requires InStep(pg, hash, tree, next)
    ensures Under(pg, hash, tree, next, next)
  {
  }
}
