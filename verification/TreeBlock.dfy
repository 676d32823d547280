/** One block without its effect on the tree object: everything `apply_updates_batch` computes
    from the database (merkle_tree/src/tree.rs). */
module TreeBlock {
  import opened Wrappers
  import opened TreeTypes
  import opened SparseTree
  import opened BatchSpec
  import opened TreeConfig
  import opened LeafEnumeration
  import opened Storage
  import opened PatchStep
  import opened Patch
  import opened Witness
  import opened TreePrepare
  import opened TreeApply
  import opened TreeState
  import opened UnsavedBlocks

  lemma {:induction false} AfterIsSetLeaves(config: Config, leaves: Leaves, ops: seq<KeyedOp>, n: nat)
    requires config.Valid() && OpsInTree(config.depth, ops) && n <= |ops|
    ensures BatchOf(config, leaves, ops).Valid()
    ensures BatchOf(config, leaves, ops).After(n) == SetLeaves(leaves, ops[..n])
  {
    if n > 0 {
      AfterIsSetLeaves(config, leaves, ops, n - 1);
      assert ops[..n][..n - 1] == ops[..n - 1];
    }
  }

  lemma {:induction false} TracesOfStep(log: TraceLog, t: nat, i: nat)
    requires t < |log|
    ensures TracesOf(log[..t + 1], i) == TracesOf(log[..t], i) + (if log[t].0 == i then [log[t].1] else [])
  {
    assert log[..t + 1][..t] == log[..t];
  }

  /** The fold that sorts the pushed rows by operation. */
  method GroupTraces(log: TraceLog, groupSize: nat) returns (groups: seq<seq<HashTrace>>)
    requires forall t :: 0 <= t < |log| ==> log[t].0 < groupSize
    ensures |groups| == groupSize && forall i :: 0 <= i < groupSize ==> groups[i] == TracesOf(log, i)
  {
    groups := seq(groupSize, i requires 0 <= i < groupSize => []);
    for t := 0 to |log|
      invariant |groups| == groupSize && forall i :: 0 <= i < groupSize ==> groups[i] == TracesOf(log[..t], i)
    {
      var item := log[t];
      forall i | 0 <= i < groupSize
        ensures TracesOf(log[..t + 1], i) == groups[i] + (if item.0 == i then [item.1] else [])
      {
        TracesOfStep(log, t, i);
      }
      groups := groups[item.0 := groups[item.0] + [item.1]];
    }
    assert log[..|log|] == log;
  }

  /** Prepares, calculates, sorts the trace and applies the patch. */
  method ComputeBlock(config: Config, column: Column, ops: seq<KeyedOp>, indices: LeafIndices, ghost leaves: Leaves,
      ghost b: Batch)
    returns (hashTrace: seq<HashTrace>, branches: Branches, reports: seq<StorageLogMetadata>)
    requires config.Valid() && HoldsTree(config, column, leaves) && OpsInTree(config.depth, ops)
    requires b == BatchOf(config, leaves, ops)
    requires forall i :: 0 <= i < |ops| ==> ops[i].0 in indices.leafIndices
    ensures b.Valid()
    ensures hashTrace == Flatten(TraceGroups(b))
    ensures IsBranches(b, |ops|, branches)
    ensures |reports| == |ops| && forall i :: 0 <= i < |ops| ==> IsReport(b, ops, indices, i, reports[i])
  {
    var updates := PrepareMap(config, column, ops, true, leaves);
    var preUpdates := PrepareMap(config, column, ops, false, leaves);
    var patch, log := Calculate(config.hasher, config.depth, updates, preUpdates, b);
    var groups := GroupTraces(log, |ops|);
    assert groups == TraceGroups(b);
    hashTrace := Flatten(groups);
    branches, reports := ApplyPatch(patch, ops, indices, config.depth, b);
  }

  // ---------------------------------------------------------------- The pending patch

  /** `after` is `before` with the branches put in. */
  ghost predicate WithBranches(before: Column, branches: Branches, after: Column) {
    && (forall p :: p in branches ==> NodeKey(p) in after && after[NodeKey(p)] == ToBytes(branches[p]))
    && (forall key: DbKey :: !(key.NodeKey? && key.position in branches) ==>
          (key in after <==> key in before) && (key in after ==> after[key] == before[key]))
  }

  lemma {:induction false} TouchedIffBranch(config: Config, leaves: Leaves, ops: seq<KeyedOp>, branches: Branches,
      level: nat, idx: nat)
    requires config.Valid() && BatchOf(config, leaves, ops).Valid() && level <= config.depth
    requires IsBranches(BatchOf(config, leaves, ops), |ops|, branches)
    ensures LevelIndex(level, idx) in branches <==> Touched(ops, config.depth - level, idx)
  {
    var b, p := BatchOf(config, leaves, ops), LevelIndex(level, idx);
    if p in branches {
      var i :| 0 <= i < |ops| && IsAncestor(b, i, p);
      assert Shr(ToU256(ops[i].0), config.depth - level) == idx;
    }
    if Touched(ops, config.depth - level, idx) {
      var i :| 0 <= i < |ops| && Shr(ToU256(ops[i].0), config.depth - level) == idx;
      assert IsAncestor(b, i, p);
    }
  }

  /** A stored node after the branches went into the patch. */
  lemma {:induction false} StoredWithBranches(config: Config, column: Column, pending: Column, before: Column,
      after: Column, branches: Branches, level: nat, idx: nat)
    requires config.Valid() && SameNodes(pending, before) && WithBranches(before, branches, after)
    requires level <= config.depth && NodesHave32Bytes(column + pending) && NodesHave32Bytes(column + after)
    ensures var p := LevelIndex(level, idx);
            StoredNode(config, column + after, level, idx)
            == if p in branches then branches[p] else StoredNode(config, column + pending, level, idx)
  {
    var p := LevelIndex(level, idx);
    if p in branches {
      KeyBytesRoundTrip(branches[p]);
      assert (column + after)[NodeKey(p)] == ToBytes(branches[p]);
    }
  }

  lemma {:induction false} BranchHash(config: Config, leaves: Leaves, ops: seq<KeyedOp>, branches: Branches,
      p: LevelIndex)
    requires config.Valid() && OpsInTree(config.depth, ops) && p in branches
    requires BatchOf(config, leaves, ops).Valid() && IsBranches(BatchOf(config, leaves, ops), |ops|, branches)
    ensures p.level <= config.depth
    ensures branches[p] == Node(config.hasher, SetLeaves(leaves, ops), config.depth - p.level, p.index)
  {
    hide Node, SetLeaves, OpsInTree;
    AfterIsSetLeaves(config, leaves, ops, |ops|);
    assert ops[..|ops|] == ops;
  }

  lemma {:induction false} StoredAfter(config: Config, column: Column, pending: Column, before: Column, after: Column,
      leaves: Leaves, blocks: seq<seq<KeyedOp>>, ops: seq<KeyedOp>, branches: Branches, level: nat, idx: nat)
    requires config.Valid() && HoldsNodes(config, column + pending, leaves, blocks) && OpsInTree(config.depth, ops)
    requires SameNodes(pending, before) && WithBranches(before, branches, after)
    requires BatchOf(config, leaves, ops).Valid() && IsBranches(BatchOf(config, leaves, ops), |ops|, branches)
    requires level <= config.depth && NodesHave32Bytes(column + after)
    ensures StoredNode(config, column + after, level, idx)
         == NodeOfBlocks(config.hasher, leaves, blocks + [ops], config.depth - level, idx)
  {
    hide Node, StoredNode, NodeOfBlocks, WithBranches, SameNodes, IsBranches, Touched, SetLeaves;
    TouchedIffBranch(config, leaves, ops, branches, level, idx);
    OneMoreBlock(config.hasher, leaves, blocks, ops, config.depth - level, idx);
    StoredWithBranches(config, column, pending, before, after, branches, level, idx);
    if LevelIndex(level, idx) in branches {
      BranchHash(config, leaves, ops, branches, LevelIndex(level, idx));
    }
  }

  lemma {:induction false} BytesAfter(column: Column, pending: Column, before: Column, after: Column,
      branches: Branches)
    requires NodesHave32Bytes(column + pending) && SameNodes(pending, before) && WithBranches(before, branches, after)
    ensures NodesHave32Bytes(column + after)
  {
    forall p | NodeKey(p) in column + after ensures |(column + after)[NodeKey(p)]| == 32 {
      if p !in branches {
        assert NodeKey(p) in column + pending && (column + pending)[NodeKey(p)] == (column + after)[NodeKey(p)];
      }
    }
  }

  /** With the branches written, the patch holds the nodes of one more block. */
  lemma {:induction false} PendingHoldsNodes(config: Config, column: Column, pending: Column, before: Column,
      after: Column, leaves: Leaves, blocks: seq<seq<KeyedOp>>, ops: seq<KeyedOp>, branches: Branches)
    requires config.Valid() && HoldsNodes(config, column + pending, leaves, blocks) && OpsInTree(config.depth, ops)
    requires SameNodes(pending, before) && WithBranches(before, branches, after)
    requires BatchOf(config, leaves, ops).Valid() && IsBranches(BatchOf(config, leaves, ops), |ops|, branches)
    ensures HoldsNodes(config, column + after, leaves, blocks + [ops])
  {
    BytesAfter(column, pending, before, after, branches);
    forall level: nat, idx: nat | level <= config.depth
      ensures StoredNode(config, column + after, level, idx)
           == NodeOfBlocks(config.hasher, leaves, blocks + [ops], config.depth - level, idx)
    {
      StoredAfter(config, column, pending, before, after, leaves, blocks, ops, branches, level, idx);
    }
  }

  lemma {:induction false} PendingHoldsIndices(column: Column, before: Column, after: Column, branches: Branches,
      e: Enumeration)
    requires HoldsIndices(column + before, e) && WithBranches(before, branches, after)
    ensures HoldsIndices(column + after, e)
  {
    forall k ensures LeafKey(ToBytes(k)) in column + after <==> LeafKey(ToBytes(k)) in column + before {
    }
  }
}
