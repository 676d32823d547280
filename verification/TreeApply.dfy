/** Applying a computed patch: the nodes to store and the report of every operation
    (`apply_patch`, merkle_tree/src/tree.rs). */
module TreeApply {
  import opened TreeTypes
  import opened SparseTree
  import opened BatchSpec
  import opened LeafEnumeration
  import opened Storage
  import opened Patch
  import opened Witness

  type Branches = map<LevelIndex, ZkHash>

  datatype StorageLogMetadata = StorageLogMetadata(
    rootHash: ZkHash, isWrite: bool, firstWrite: bool, merklePaths: seq<ZkHash>,
    leafHashedKey: TreeKey, leafEnumerationIndex: nat, valueWritten: TreeValue, valueRead: TreeValue)

  ghost predicate IsAncestor(b: Batch, i: nat, p: LevelIndex)
    requires b.Valid() && i < |b.keys|
  {
    p.level <= b.depth && p.index == b.PathIdx(i, b.depth - p.level)
  }

  /** `p` is one of the `n` lowest nodes on the path of operation `i`. */
  ghost predicate OnPath(b: Batch, i: nat, n: nat, p: LevelIndex)
    requires b.Valid() && i < |b.keys|
  {
    IsAncestor(b, i, p) && b.depth - p.level < n
  }

  /** `after` is `before` with the `n` lowest nodes on the path of operation `i` put in. */
  ghost predicate Extended(b: Batch, i: nat, n: nat, before: Branches, after: Branches)
    requires b.Valid() && i < |b.keys|
  {
    forall p: LevelIndex ::
      && (p in after <==> p in before || OnPath(b, i, n, p))
      && (p in after ==>
            after[p] == if OnPath(b, i, n, p) then b.NodeAfter(i + 1, b.depth - p.level, p.index) else before[p])
  }

  /** The changed nodes after `n` operations, each with its hash at that point. */
  ghost predicate IsBranches(b: Batch, n: nat, branches: Branches)
    requires b.Valid() && n <= |b.keys|
  {
    && (forall p :: p in branches ==> p.level <= b.depth && branches[p] == b.NodeAfter(n, b.depth - p.level, p.index))
    && (forall i, p :: 0 <= i < n && IsAncestor(b, i, p) ==> p in branches)
    && (forall p :: p in branches ==> exists i :: 0 <= i < n && IsAncestor(b, i, p))
  }

  lemma {:induction false} BranchesStep(b: Batch, i: nat, before: Branches, after: Branches)
    requires b.Valid() && i < |b.keys| && IsBranches(b, i, before) && Extended(b, i, b.depth + 1, before, after)
    ensures IsBranches(b, i + 1, after)
  {
    hide Node, Root;
    forall p | p in after
      ensures p.level <= b.depth && after[p] == b.NodeAfter(i + 1, b.depth - p.level, p.index)
    {
      if !OnPath(b, i, b.depth + 1, p) {
        b.NodeBetween(i, i + 1, b.depth - p.level, p.index);
      }
    }
    forall p | p in after ensures exists j :: 0 <= j < i + 1 && IsAncestor(b, j, p) {
      if OnPath(b, i, b.depth + 1, p) {
        assert IsAncestor(b, i, p);
      }
    }
  }

  /** `make_node`. */
  function MakeNode(rootTreeDepth: nat, level: nat, key: TreeKey): LevelIndex
    requires level <= rootTreeDepth
  {
    LevelIndex(rootTreeDepth - level, ToU256(key))
  }

  /** The sibling next to the path of operation `i`, for every height. */
  ghost predicate IsMerklePath(b: Batch, i: nat, path: seq<ZkHash>)
    requires b.Valid() && i < |b.keys|
  {
    forall j :: 0 <= j < |path| ==> path[j] == b.NodeAfter(i + 1, j, NeighborIdx(b.PathIdx(i, j), true))
  }

  lemma {:induction false} EntryFields(b: Batch, i: nat, level: nat)
    requires b.Valid() && i < |b.keys| && level <= b.depth
    ensures var (key, node) := ChangesUpTo(b, i, b.depth)[level];
            && ToU256(key) == b.PathIdx(i, level) && node.hash == b.NodeAfter(i + 1, level, b.PathIdx(i, level))
            && (node.Branch? <==> level > 0)
            && (level > 0 ==> (if b.PathIdx(i, level - 1) % 2 == 0 then node.rightHash else node.leftHash)
                               == b.NodeAfter(i + 1, level - 1, NeighborIdx(b.PathIdx(i, level - 1), true)))
            && (level > 0 ==> (if b.PathIdx(i, level - 1) % 2 == 0 then node.leftHash else node.rightHash)
                               == b.NodeAfter(i + 1, level - 1, b.PathIdx(i, level - 1)))
  {
    b.PathIdxFits(i, level);
  }

  lemma ExtendedByNone(b: Batch, i: nat, branches: Branches)
    requires b.Valid() && i < |b.keys|
    ensures Extended(b, i, 0, branches, branches)
  {
  }

  lemma {:induction false} ExtendedStep(b: Batch, i: nat, n: nat, before: Branches, after: Branches)
    requires b.Valid() && i < |b.keys| && n <= b.depth && Extended(b, i, n, before, after)
    ensures Extended(b, i, n + 1, before,
              after[LevelIndex(b.depth - n, b.PathIdx(i, n)) := b.NodeAfter(i + 1, n, b.PathIdx(i, n))])
  {
    hide Node;
    assert IsAncestor(b, i, LevelIndex(b.depth - n, b.PathIdx(i, n)));
  }

  /** Puts the entries of one operation into the branches and collects its Merkle path. */
  method Extend(branches: Branches, entries: seq<(TreeKey, NodeEntry)>, leafKey: TreeKey, rootTreeDepth: nat,
      ghost b: Batch, ghost i: nat)
    returns (branches': Branches, merklePaths: seq<ZkHash>)
    requires b.Valid() && i < |b.keys| && rootTreeDepth == b.depth && entries == ChangesUpTo(b, i, b.depth)
    requires leafKey == b.keys[i]
    ensures Extended(b, i, b.depth + 1, branches, branches')
    ensures |merklePaths| == b.depth && IsMerklePath(b, i, merklePaths)
  {
    hide Extended, Node;
    branches', merklePaths := branches, [];
    ExtendedByNone(b, i, branches);
    for level := 0 to |entries|
      invariant Extended(b, i, level, branches, branches')
      invariant |merklePaths| == (if level == 0 then 0 else level - 1) && IsMerklePath(b, i, merklePaths)
    {
      var (key, node) := entries[level];
      EntryFields(b, i, level);
      ExtendedStep(b, i, level, branches, branches');
      if node.Branch? {
        var witnessHash := if Shr(ToU256(leafKey), level - 1) % 2 == 0 then node.rightHash else node.leftHash;
        merklePaths := merklePaths + [witnessHash];
      }
      branches' := branches'[MakeNode(rootTreeDepth, level, key) := node.hash];
    }
  }

  /** The report of operation `i`. */
  ghost predicate IsReport(b: Batch, ops: seq<KeyedOp>, indices: LeafIndices, i: nat, m: StorageLogMetadata)
    requires b.Valid() && |ops| == |b.keys| && i < |ops|
  {
    && m.rootHash == Root(b.hasher, b.After(i + 1), b.depth)
    && |m.merklePaths| == b.depth && IsMerklePath(b, i, m.merklePaths)
    && m.leafHashedKey == ops[i].0 && ops[i].0 in indices.leafIndices
    && m.leafEnumerationIndex == indices.leafIndices[ops[i].0]
    && m.isWrite == ops[i].1.Write?
    && m.firstWrite == (ops[i].1.Write? && m.leafEnumerationIndex >= indices.previousIndex)
    && (ops[i].1.Write? ==> m.valueWritten == ops[i].1.value && m.valueRead == ops[i].1.previousValue)
    && (ops[i].1.Read? ==> m.valueWritten == DEFAULT_KEY && m.valueRead == ops[i].1.value)
  }

  /** What a report says of the operation itself. */
  lemma ReportInFull(b: Batch, ops: seq<KeyedOp>, indices: LeafIndices, i: nat, m: StorageLogMetadata)
    requires b.Valid() && |ops| == |b.keys| && i < |ops| && IsReport(b, ops, indices, i, m)
    ensures ops[i].0 in indices.leafIndices
    ensures var (key, op) := ops[i];
            m == StorageLogMetadata(
              Node(b.hasher, b.After(i + 1), b.depth, 0), op.Write?,
              op.Write? && indices.leafIndices[key] >= indices.previousIndex, m.merklePaths, key,
              indices.leafIndices[key],
              match op case Write(value, _) => value case Read(_) => TreeKey(0, 0, 0, 0),
              match op case Write(_, previousValue) => previousValue case Read(value) => value)
  {
  }

  /** The Merkle path of a report proves its operation: the new leaf folds up to the root after it,
      the leaf the key had before folds up to the root before it. */
  lemma {:induction false} ReportIsMerkleProof(b: Batch, ops: seq<KeyedOp>, indices: LeafIndices, i: nat,
      m: StorageLogMetadata)
    requires b.Valid() && |ops| == |b.keys| && i < |ops| && IsReport(b, ops, indices, i, m)
    ensures FoldUp(b.hasher, m.merklePaths, b.Key(i), b.values[i], b.depth) == m.rootHash
    ensures FoldUp(b.hasher, m.merklePaths, b.Key(i), LeafValue(b.After(i), b.Key(i)), b.depth)
         == Root(b.hasher, b.After(i), b.depth)
  {
    forall j | 0 <= j < b.depth
      ensures m.merklePaths[j] == Node(b.hasher, b.After(i), j, NeighborIdx(Shr(b.Key(i), j), true))
    {
      b.SiblingUntouched(i, j);
    }
    b.PathIdxFits(i, b.depth);
    FoldIsUpdatedNode(b.hasher, m.merklePaths, b.Key(i), b.After(i), b.values[i], b.depth);
    var oldLeaf := LeafValue(b.After(i), b.Key(i));
    FoldIsUpdatedNode(b.hasher, m.merklePaths, b.Key(i), b.After(i), oldLeaf, b.depth);
    NodeSameLeaves(b.hasher, b.After(i), b.After(i)[b.Key(i) := oldLeaf], b.depth, 0);
  }

  /** `first_write` marks exactly the writes of keys without a number before the block. */
  lemma {:induction false} FirstWriteMeaning(b: Batch, ops: seq<KeyedOp>, e: Enumeration, indices: LeafIndices,
      i: nat, m: StorageLogMetadata)
    requires b.Valid() && |ops| == |b.keys| && i < |ops| && IsReport(b, ops, indices, i, m)
    requires Bijective(e) && IsLeafIndices(LeafEnumeration.After(e, ops), ops, indices.leafIndices)
    requires indices.previousIndex == e.next
    ensures m.firstWrite <==> ops[i].1.Write? && ops[i].0 !in e.indices
  {
    AfterKeys(e, ops);
    AfterNewIndices(e, ops);
    assert ops[i].1.Write? ==> WrittenIn(ops, ops[i].0);
  }

  lemma {:induction false} FirstEntry(b: Batch, i: nat)
    requires b.Valid() && i < |b.keys|
    ensures ChangesUpTo(b, i, b.depth)[0].0 == b.keys[i]
  {
    U256OfKey(b.keys[i]);
  }

  lemma {:induction false} RootInBranches(b: Batch, i: nat, branches: Branches)
    requires b.Valid() && i < |b.keys| && IsBranches(b, i + 1, branches)
    ensures LevelIndex(0, 0) in branches && branches[LevelIndex(0, 0)] == Root(b.hasher, b.After(i + 1), b.depth)
  {
    b.PathIdxFits(i, b.depth);
    assert IsAncestor(b, i, LevelIndex(0, 0));
  }

  ghost predicate AreReports(b: Batch, ops: seq<KeyedOp>, indices: LeafIndices, reports: seq<StorageLogMetadata>)
    requires b.Valid() && |ops| == |b.keys| && |reports| <= |ops|
  {
    forall i :: 0 <= i < |reports| ==> IsReport(b, ops, indices, i, reports[i])
  }

  lemma OneMoreReport(b: Batch, ops: seq<KeyedOp>, indices: LeafIndices, reports: seq<StorageLogMetadata>,
      m: StorageLogMetadata)
    requires b.Valid() && |ops| == |b.keys| && |reports| < |ops| && AreReports(b, ops, indices, reports)
    requires IsReport(b, ops, indices, |reports|, m)
    ensures AreReports(b, ops, indices, reports + [m])
  {
    hide IsReport;
  }

  /** `apply_patch` up to the database: folds the entries of all operations into one map. */
  method ApplyPatch(patch: TreePatch, ops: seq<KeyedOp>, indices: LeafIndices, rootTreeDepth: nat, ghost b: Batch)
    returns (branches: Branches, metadata: seq<StorageLogMetadata>)
    requires b.Valid() && rootTreeDepth == b.depth && |patch| == |ops| == |b.keys|
    requires forall i :: 0 <= i < |ops| ==> ops[i].0 == b.keys[i] && ops[i].0 in indices.leafIndices
    requires forall i :: 0 <= i < |patch| ==> patch[i] == ChangesUpTo(b, i, b.depth)
    ensures IsBranches(b, |ops|, branches)
    ensures |metadata| == |ops| && forall i :: 0 <= i < |ops| ==> IsReport(b, ops, indices, i, metadata[i])
  {
    branches, metadata := map[], [];
    for i := 0 to |patch|
      invariant IsBranches(b, i, branches)
      invariant |metadata| == i && AreReports(b, ops, indices, metadata)
    {
      var entries, op := patch[i], ops[i].1;
      FirstEntry(b, i);
      var leafKey := entries[0].0;
      var leafIndex := indices.leafIndices[leafKey];
      ghost var before := branches;
      var merklePaths;
      branches, merklePaths := Extend(branches, entries, leafKey, rootTreeDepth, b, i);
      BranchesStep(b, i, before, branches);
      RootInBranches(b, i, branches);
      var isWrite := op.Write?;
      var report := StorageLogMetadata(
        branches[LevelIndex(0, 0)], isWrite, isWrite && leafIndex >= indices.previousIndex,
        merklePaths, leafKey, leafIndex,
        if op.Write? then op.value else DEFAULT_KEY, if op.Write? then op.previousValue else op.value);
      OneMoreReport(b, ops, indices, metadata, report);
      metadata := metadata + [report];
    }
  }
}
