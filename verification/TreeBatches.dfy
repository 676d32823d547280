/** Several batches between two saves of the tree, in terms of the storage log
    (ola_core/src/metadata_calculator/updater.rs). */
module TreeBatches {
  import opened Wrappers
  import opened TreeTypes
  import opened SparseTree
  import opened LeafEnumeration
  import opened TreePrepare
  import opened TreeState
  import opened UnsavedBlocks
  import opened Tree
  import opened StorageHistory
  import opened LogCompaction
  import opened TreeHistory

  ghost predicate Changes(pg: Postgres, b: nat, k: StorageKey) {
    Value(pg.StateBefore(b), k) != Value(pg.StateBefore(b + 1), k)
  }

  /** The operations of a batch: one for each slot that it changes, in key order, and at least one. */
  ghost predicate IsBatch(pg: Postgres, hash: StorageKey -> H256, b: nat, ops: seq<KeyedOp>) {
    && ops != []
    && exists writes :: WritesOf(pg.StateBefore(b), pg.StateBefore(b + 1), writes) && ops == OpsOf(hash, writes)
  }

  /** The blocks are the operations of the batches from `first` on. */
  ghost predicate AreBatches(pg: Postgres, hash: StorageKey -> H256, first: nat, blocks: seq<seq<KeyedOp>>) {
    forall i :: 0 <= i < |blocks| ==> IsBatch(pg, hash, first + i, blocks[i])
  }

  lemma OneMoreBatch(pg: Postgres, hash: StorageKey -> H256, first: nat, blocks: seq<seq<KeyedOp>>, ops: seq<KeyedOp>)
    requires AreBatches(pg, hash, first, blocks) && IsBatch(pg, hash, first + |blocks|, ops)
    ensures AreBatches(pg, hash, first, blocks + [ops])
  {
    hide IsBatch;
  }

  lemma AllButLast(pg: Postgres, hash: StorageKey -> H256, first: nat, blocks: seq<seq<KeyedOp>>)
    requires AreBatches(pg, hash, first, blocks) && blocks != []
    ensures AreBatches(pg, hash, first, blocks[..|blocks| - 1])
    ensures IsBatch(pg, hash, first + |blocks| - 1, blocks[|blocks| - 1])
  {
    hide IsBatch;
  }

  // ---------------------------------------------------------------- The operations of a batch

  lemma {:induction false} ChangedIsSetBy(pg: Postgres, hash: StorageKey -> H256, b: nat, ops: seq<KeyedOp>,
      k: StorageKey)
    requires IsBatch(pg, hash, b, ops) && Changes(pg, b, k)
    ensures Sets(ops, hash(k))
  {
    var writes: seq<WitnessLog> :|
      WritesOf(pg.StateBefore(b), pg.StateBefore(b + 1), writes) && ops == OpsOf(hash, writes);
    hide WritesOf, OpsOf;
    WrittenOf(pg, hash, b, writes, k);
  }

  lemma {:induction false} SetByIsChanged(pg: Postgres, hash: StorageKey -> H256, b: nat, ops: seq<KeyedOp>,
      key: TreeKey)
    returns (k: StorageKey)
    requires IsBatch(pg, hash, b, ops) && Sets(ops, key)
    ensures k in pg.Keys() && hash(k) == key && Changes(pg, b, k)
  {
    var writes: seq<WitnessLog> :|
      WritesOf(pg.StateBefore(b), pg.StateBefore(b + 1), writes) && ops == OpsOf(hash, writes);
    var j :| 0 <= j < |ops| && ops[j].0 == key;
    assert writes[j] in writes;
    k := writes[j].key;
    pg.StateKeys(b);
    pg.StateKeys(b + 1);
  }

  /** Every operation of the blocks is on a key of the log. */
  lemma {:induction false} KeyOfConcat(pg: Postgres, hash: StorageKey -> H256, first: nat, blocks: seq<seq<KeyedOp>>,
      i: nat)
    returns (k: StorageKey)
    requires AreBatches(pg, hash, first, blocks) && i < |Flatten(blocks)|
    ensures k in pg.Keys() && hash(k) == Flatten(blocks)[i].0
  {
    hide *;
    FlattenAt(blocks, i);
    var n := |blocks| - 1;
    AllButLast(pg, hash, first, blocks);
    if i < |Flatten(blocks[..n])| {
      k := KeyOfConcat(pg, hash, first, blocks[..n], i);
    } else {
      HasOperation(blocks[n], i - |Flatten(blocks[..n])|);
      k := SetByIsChanged(pg, hash, first + n, blocks[n], Flatten(blocks)[i].0);
    }
  }

  lemma HasOperation(ops: seq<KeyedOp>, j: nat)
    requires j < |ops|
    ensures Sets(ops, ops[j].0)
  {
  }

  lemma {:induction false} ConcatInTree(pg: Postgres, hash: StorageKey -> H256, depth: nat, first: nat,
      blocks: seq<seq<KeyedOp>>)
    requires HashesFit(pg, hash, depth) && AreBatches(pg, hash, first, blocks)
    ensures OpsInTree(depth, Flatten(blocks))
  {
    forall i | 0 <= i < |Flatten(blocks)| ensures InTree(depth, Flatten(blocks)[i].0) {
      var k := KeyOfConcat(pg, hash, first, blocks, i);
    }
  }

  // ---------------------------------------------------------------- The state after the batches

  lemma {:induction false} ApplyLast(s: TreeState.State, blocks: seq<seq<KeyedOp>>)
    requires blocks != []
    ensures ApplyBlocks(s, blocks) == ApplyBlock(ApplyBlocks(s, blocks[..|blocks| - 1]), blocks[|blocks| - 1])
  {
    SetLeavesConcat(s.leaves, Flatten(blocks[..|blocks| - 1]), blocks[|blocks| - 1]);
    AfterConcat(s.numbering, Flatten(blocks[..|blocks| - 1]), blocks[|blocks| - 1]);
  }

  lemma {:induction false} BatchFollows(pg: Postgres, hash: StorageKey -> H256, depth: nat, s: TreeState.State, b: nat,
      ops: seq<KeyedOp>)
    requires pg.Valid() && HashesFit(pg, hash, depth) && Follows(pg, hash, s, b) && IsBatch(pg, hash, b, ops)
    ensures Follows(pg, hash, ApplyBlock(s, ops), b + 1)
  {
    var writes: seq<WitnessLog> :|
      WritesOf(pg.StateBefore(b), pg.StateBefore(b + 1), writes) && ops == OpsOf(hash, writes);
    hide *;
    BlockFollows(pg, hash, depth, s, b, writes);
  }

  /** The state after all blocks stands for the storage after their batches. */
  lemma {:induction false} BlocksFollow(pg: Postgres, hash: StorageKey -> H256, depth: nat, s: TreeState.State,
      first: nat, blocks: seq<seq<KeyedOp>>)
    requires pg.Valid() && HashesFit(pg, hash, depth) && Follows(pg, hash, s, first)
    requires AreBatches(pg, hash, first, blocks)
    ensures Follows(pg, hash, ApplyBlocks(s, blocks), first + |blocks|)
  {
    hide *;
    if blocks == [] {
      NoBlocks(s);
    } else {
      var n := |blocks| - 1;
      AllButLast(pg, hash, first, blocks);
      BlocksFollow(pg, hash, depth, s, first, blocks[..n]);
      ApplyLast(s, blocks);
      BatchFollows(pg, hash, depth, ApplyBlocks(s, blocks[..n]), first + n, blocks[n]);
    }
  }

  /** The value of a leaf is that of its slot. */
  lemma {:induction false} FollowedValue(pg: Postgres, hash: StorageKey -> H256, depth: nat, s: TreeState.State,
      b: nat, k: StorageKey)
    requires HashesFit(pg, hash, depth) && Follows(pg, hash, s, b) && k in pg.Keys()
    ensures LeafValue(s.leaves, ToU256(hash(k))) == Value(pg.StateBefore(b), k)
  {
    pg.StateKeys(b);
    CollisionFreePart(hash, pg.Keys() + pg.ProtectiveReads(b), pg.Keys());
    hide Mirrors, NoCollision, LeafValue, ToU256, Value;
    MirroredValue(hash, s.leaves, pg.StateBefore(b), pg.Keys(), k);
  }

  lemma AppliedLeaves(s: TreeState.State, blocks: seq<seq<KeyedOp>>)
    ensures ApplyBlocks(s, blocks).leaves == SetLeaves(s.leaves, Flatten(blocks))
  {
  }

  /** What earlier batches do to a leaf is what they do to its slot. */
  lemma {:induction false} LeafOverBlocks(pg: Postgres, hash: StorageKey -> H256, depth: nat, s: TreeState.State,
      first: nat, blocks: seq<seq<KeyedOp>>, k: StorageKey)
    requires pg.Valid() && HashesFit(pg, hash, depth) && Follows(pg, hash, s, first) && k in pg.Keys()
    requires AreBatches(pg, hash, first, blocks)
    ensures LeafValue(s.leaves, ToU256(hash(k))) == Value(pg.StateBefore(first), k)
    ensures LeafValue(SetLeaves(s.leaves, Flatten(blocks)), ToU256(hash(k)))
         == Value(pg.StateBefore(first + |blocks|), k)
  {
    hide *;
    AppliedLeaves(s, blocks);
    BlocksFollow(pg, hash, depth, s, first, blocks);
    FollowedValue(pg, hash, depth, s, first, k);
    FollowedValue(pg, hash, depth, ApplyBlocks(s, blocks), first + |blocks|, k);
  }

  // ---------------------------------------------------------------- When the leaves are right

  /** Every slot that the earlier batches leave changed is changed again by the last one. */
  ghost predicate SlotsReset(pg: Postgres, first: nat, last: nat) {
    forall k :: Value(pg.StateBefore(first), k) != Value(pg.StateBefore(last), k) ==> Changes(pg, last, k)
  }

  /** After `s` come the batches from `first` up to `last`, whose operations are `ops`. */
  ghost predicate IsRange(pg: Postgres, hash: StorageKey -> H256, depth: nat, s: TreeState.State, first: nat, last: nat,
      earlier: seq<seq<KeyedOp>>, ops: seq<KeyedOp>)
  {
    && pg.Valid() && HashesFit(pg, hash, depth) && Follows(pg, hash, s, first)
    && first + |earlier| == last && AreBatches(pg, hash, first, earlier) && IsBatch(pg, hash, last, ops)
  }

  lemma RangeParts(pg: Postgres, hash: StorageKey -> H256, depth: nat, s: TreeState.State, first: nat, last: nat,
      earlier: seq<seq<KeyedOp>>, ops: seq<KeyedOp>)
    requires IsRange(pg, hash, depth, s, first, last, earlier, ops)
    ensures pg.Valid() && HashesFit(pg, hash, depth) && Follows(pg, hash, s, first)
    ensures first + |earlier| == last && AreBatches(pg, hash, first, earlier) && IsBatch(pg, hash, last, ops)
  {
  }

  lemma ResetOrUnchanged(pg: Postgres, first: nat, last: nat, k: StorageKey)
    requires SlotsReset(pg, first, last)
    ensures Changes(pg, last, k) || Value(pg.StateBefore(first), k) == Value(pg.StateBefore(last), k)
  {
    hide Changes, Value;
  }

  /** A slot that the last batch leaves alone: its leaf is as before the range. */
  lemma {:induction false} LeafLeftAlone(pg: Postgres, hash: StorageKey -> H256, depth: nat, s: TreeState.State,
      first: nat, last: nat, earlier: seq<seq<KeyedOp>>, ops: seq<KeyedOp>, k: StorageKey)
    requires IsRange(pg, hash, depth, s, first, last, earlier, ops) && k in pg.Keys()
    requires SlotsReset(pg, first, last) && !Sets(ops, hash(k))
    ensures LeafValue(SetLeaves(s.leaves, Flatten(earlier)), ToU256(hash(k))) == LeafValue(s.leaves, ToU256(hash(k)))
  {
    hide *;
    ResetOrUnchanged(pg, first, last, k);
    RangeParts(pg, hash, depth, s, first, last, earlier, ops);
    LeafOverBlocks(pg, hash, depth, s, first, earlier, k);
    if Changes(pg, last, k) {
      ChangedIsSetBy(pg, hash, last, ops, k);
    }
  }

  lemma {:induction false} SlotsResetIsReset(pg: Postgres, hash: StorageKey -> H256, depth: nat, s: TreeState.State,
      first: nat, last: nat, earlier: seq<seq<KeyedOp>>, ops: seq<KeyedOp>)
    requires IsRange(pg, hash, depth, s, first, last, earlier, ops) && SlotsReset(pg, first, last)
    ensures ResetBy(s.leaves, Flatten(earlier), ops)
  {
    hide SlotsReset, HashesFit, Follows, AreBatches, IsBatch, Sets, LeafValue, Flatten, ToU256, SetLeaves;
    forall i | 0 <= i < |Flatten(earlier)| && !Sets(ops, Flatten(earlier)[i].0)
      ensures LeafValue(SetLeaves(s.leaves, Flatten(earlier)), ToU256(Flatten(earlier)[i].0))
           == LeafValue(s.leaves, ToU256(Flatten(earlier)[i].0))
    {
      var k := KeyOfConcat(pg, hash, first, earlier, i);
      LeafLeftAlone(pg, hash, depth, s, first, last, earlier, ops, k);
    }
  }

  /** A leaf that the first operations change is set again by the second ones. */
  lemma {:induction false} ChangedLeafIsSet(leaves: Leaves, first: seq<KeyedOp>, second: seq<KeyedOp>, key: TreeKey)
    requires ResetBy(leaves, first, second)
    requires LeafValue(SetLeaves(leaves, first), ToU256(key)) != LeafValue(leaves, ToU256(key))
    ensures Sets(second, key)
  {
    SetLeafDepends(leaves, leaves, first, ToU256(key));
    var i :| 0 <= i < |first| && ToU256(first[i].0) == ToU256(key);
    KeyOfIndex(first[i].0, key);
  }

  lemma {:induction false} OnlySlotOfKey(pg: Postgres, hash: StorageKey -> H256, depth: nat, b: nat, ops: seq<KeyedOp>,
      k: StorageKey)
    requires HashesFit(pg, hash, depth) && IsBatch(pg, hash, b, ops) && k in pg.Keys() && Sets(ops, hash(k))
    ensures Changes(pg, b, k)
  {
    CollisionFreePart(hash, pg.Keys() + pg.ProtectiveReads(b), pg.Keys());
    hide *;
    var l := SetByIsChanged(pg, hash, b, ops, hash(k));
    if l != k {
      DistinctHashes(hash, pg.Keys(), k, l);
    }
  }

  lemma ChangedKey(pg: Postgres, first: nat, last: nat, k: StorageKey)
    requires Value(pg.StateBefore(first), k) != Value(pg.StateBefore(last), k)
    ensures k in pg.Keys()
  {
    pg.StateKeys(first);
    pg.StateKeys(last);
  }

  lemma {:induction false} ResetSlot(pg: Postgres, hash: StorageKey -> H256, depth: nat, s: TreeState.State,
      first: nat, last: nat, earlier: seq<seq<KeyedOp>>, ops: seq<KeyedOp>, k: StorageKey)
    requires IsRange(pg, hash, depth, s, first, last, earlier, ops) && ResetBy(s.leaves, Flatten(earlier), ops)
    requires Value(pg.StateBefore(first), k) != Value(pg.StateBefore(last), k)
    ensures Changes(pg, last, k)
  {
    hide *;
    RangeParts(pg, hash, depth, s, first, last, earlier, ops);
    ChangedKey(pg, first, last, k);
    LeafOverBlocks(pg, hash, depth, s, first, earlier, k);
    ChangedLeafIsSet(s.leaves, Flatten(earlier), ops, hash(k));
    OnlySlotOfKey(pg, hash, depth, last, ops, k);
  }

  /** What the blocks do to the leaves is what their batches do to the slots. */
  lemma {:induction false} ResetIsSlotsReset(pg: Postgres, hash: StorageKey -> H256, depth: nat, s: TreeState.State,
      first: nat, last: nat, earlier: seq<seq<KeyedOp>>, ops: seq<KeyedOp>)
    requires IsRange(pg, hash, depth, s, first, last, earlier, ops)
    ensures ResetBy(s.leaves, Flatten(earlier), ops) <==> SlotsReset(pg, first, last)
  {
    hide IsRange, ResetBy;
    if SlotsReset(pg, first, last) {
      SlotsResetIsReset(pg, hash, depth, s, first, last, earlier, ops);
    }
    if ResetBy(s.leaves, Flatten(earlier), ops) {
      forall k | Value(pg.StateBefore(first), k) != Value(pg.StateBefore(last), k) ensures Changes(pg, last, k) {
        ResetSlot(pg, hash, depth, s, first, last, earlier, ops, k);
      }
    }
  }
}
