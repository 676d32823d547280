/** Whole runs of the tree: blocks that are saved, blocks that are lost by a stop, restarts. */
module TreeRun {
  import opened Wrappers
  import opened Bytes
  import opened TreeTypes
  import opened SparseTree
  import opened TreeConfig
  import opened LeafEnumeration
  import opened Storage
  import opened TreeState
  import opened UnsavedBlocks
  import opened Tree

  datatype RunStep =
    | Commit(ops: seq<KeyedOp>)   // process a block and save it
    | Lose(ops: seq<KeyedOp>)     // process a block and stop before saving it
    | Restart

  /** The operations of the committed blocks, in order. A block without operations never gets saved. */
  function Committed(steps: seq<RunStep>): seq<KeyedOp> {
    if steps == [] then []
    else Committed(steps[..|steps| - 1]) + (if steps[|steps| - 1].Commit? then steps[|steps| - 1].ops else [])
  }

  function CommittedBlocks(steps: seq<RunStep>): nat {
    if steps == [] then 0
    else
      var last := steps[|steps| - 1];
      CommittedBlocks(steps[..|steps| - 1]) + (if last.Commit? && last.ops != [] then 1 else 0)
  }

  /** The state those steps must lead to. */
  ghost function RunState(steps: seq<RunStep>): State {
    State(SetLeaves(map[], Committed(steps)), LeafEnumeration.After(EMPTY, Committed(steps)), CommittedBlocks(steps))
  }

  lemma {:induction false} CommitExtends(steps: seq<RunStep>, ops: seq<KeyedOp>)
    requires ops != []
    ensures RunState(steps + [Commit(ops)]) == ApplyBlock(RunState(steps), ops)
    ensures CommittedBlocks(steps + [Commit(ops)]) == CommittedBlocks(steps) + 1
  {
    assert (steps + [Commit(ops)])[..|steps|] == steps;
    SetLeavesConcat(map[], Committed(steps), ops);
    AfterConcat(EMPTY, Committed(steps), ops);
  }

  lemma {:induction false} OtherStepsKeep(steps: seq<RunStep>, step: RunStep)
    requires step.Commit? ==> step.ops == []
    ensures RunState(steps + [step]) == RunState(steps)
    ensures CommittedBlocks(steps + [step]) == CommittedBlocks(steps)
  {
    assert (steps + [step])[..|steps|] == steps;
    assert Committed(steps + [step]) == Committed(steps);
  }

  /** In every reachable state the leaf indices are a bijection between the keys ever written in a
      committed block and `1..next`, and no later step changes the index of a key. */
  lemma {:induction false} IndicesOverRuns(steps: seq<RunStep>, more: seq<KeyedOp>)
    ensures var e, f := RunState(steps).numbering, LeafEnumeration.After(RunState(steps).numbering, more);
            && Bijective(e)
            && (forall k :: k in e.indices <==> WrittenIn(Committed(steps), k))
            && (forall k :: k in e.indices ==> k in f.indices && f.indices[k] == e.indices[k])
  {
    AfterBijective(EMPTY, Committed(steps));
    AfterKeys(EMPTY, Committed(steps));
    AfterKeys(RunState(steps).numbering, more);
  }

  function StepOps(step: RunStep): seq<KeyedOp> {
    if step.Restart? then [] else step.ops
  }

  /** All operations the steps contain, committed or not. */
  function TotalOps(steps: seq<RunStep>): nat {
    if steps == [] then 0 else TotalOps(steps[..|steps| - 1]) + |StepOps(steps[|steps| - 1])|
  }

  lemma {:induction false} RunBounds(steps: seq<RunStep>, n: nat)
    requires n <= |steps|
    ensures CommittedBlocks(steps[..n]) <= n
    ensures |Committed(steps[..n])| <= TotalOps(steps[..n]) <= TotalOps(steps)
    ensures n < |steps| ==> TotalOps(steps[..n]) + |StepOps(steps[n])| <= TotalOps(steps)
    decreases |steps|, n
  {
    if n > 0 {
      assert steps[..n][..n - 1] == steps[..n - 1];
      RunBounds(steps, n - 1);
    }
    TotalGrows(steps, n, |steps|);
    if n < |steps| {
      assert steps[..n + 1][..n] == steps[..n];
      TotalGrows(steps, n + 1, |steps|);
    }
    assert steps[..|steps|] == steps;
  }

  lemma {:induction false} TotalGrows(steps: seq<RunStep>, n: nat, m: nat)
    requires n <= m <= |steps|
    ensures TotalOps(steps[..n]) <= TotalOps(steps[..m])
  {
    if n < m {
      assert steps[..m][..m - 1] == steps[..m - 1];
      TotalGrows(steps, n, m - 1);
    }
  }

  lemma {:induction false} RoomForStep(steps: seq<RunStep>, n: nat)
    requires n < |steps| && TotalOps(steps) + 1 < LIMB && |steps| + 1 < U32_LIMIT
    ensures RunState(steps[..n]).numbering.next + |StepOps(steps[n])| < LIMB
    ensures RunState(steps[..n]).blocks + 1 < U32_LIMIT
  {
    RunBounds(steps, n);
    AfterKeys(EMPTY, Committed(steps[..n]));
  }

  /** One step of a run; after a lost block or a failed one the tree is start again. */
  method TakeStep(tree: AccountTree, step: RunStep, ghost before: seq<RunStep>) returns (tree': AccountTree)
    requires tree.Valid() && tree.blocks == [] && tree.saved == RunState(before)
    requires OpsInTree(tree.config.depth, StepOps(step))
    requires tree.saved.numbering.next + |StepOps(step)| < LIMB && tree.saved.blocks + 1 < U32_LIMIT
    modifies tree, tree.storage, tree.storage.db
    ensures tree'.Valid() && tree'.blocks == [] && tree'.saved == RunState(before + [step])
    ensures (tree' == tree || fresh(tree')) && (tree'.storage == tree.storage || fresh(tree'.storage))
    ensures tree'.storage.db == tree.storage.db
    ensures tree'.config.hasher == tree.config.hasher && tree'.config.depth == tree.config.depth
  {
    tree' := tree;
    if step.Commit? && step.ops != [] {
      var metadata := tree.ProcessBlock(step.ops);
      assert tree.blocks == [step.ops];
      OneBlockKept(tree.saved, step.ops);
      OneBlock(tree.saved, step.ops);
      var saved := tree.Save();
      CommitExtends(before, step.ops);
    } else {
      if !step.Restart? {
        var metadata := tree.ProcessBlock(step.ops);
      }
      tree' := Reopen(tree);
      OtherStepsKeep(before, step);
    }
  }

  /** The steps one by one. */
  method RunSteps(start: AccountTree, steps: seq<RunStep>) returns (tree: AccountTree)
    requires start.Valid() && start.blocks == [] && start.saved == RunState([])
    requires forall i :: 0 <= i < |steps| ==> OpsInTree(start.config.depth, StepOps(steps[i]))
    requires TotalOps(steps) + 1 < LIMB && |steps| + 1 < U32_LIMIT
    modifies start, start.storage, start.storage.db
    ensures tree.Valid() && tree.blocks == [] && tree.saved == RunState(steps)
    ensures tree == start || fresh(tree)
    ensures tree.config.hasher == start.config.hasher && tree.config.depth == start.config.depth
  {
    hide *;
    tree := start;
    TakeNone(steps);
    for n := 0 to |steps|
      invariant tree.Valid() && tree.blocks == [] && tree.saved == RunState(steps[..n])
      invariant tree == start || fresh(tree)
      invariant tree.storage == start.storage || fresh(tree.storage)
      invariant tree.storage.db == start.storage.db
      invariant tree.config.hasher == start.config.hasher && tree.config.depth == start.config.depth
    {
      TakeNext(steps, n);
      RoomForStep(steps, n);
      tree := TakeStep(tree, steps[n], steps[..n]);
    }
    TakeAll(steps);
  }

  lemma GenesisState()
    ensures RunState([]) == GENESIS && RunState([]) == State(map[], Enumeration(map[], 1), 0)
  {
  }

  /** A saved tree shows its state: nodes, root, indices and number. */
  lemma SavedTreeShows(tree: AccountTree)
    requires tree.Valid() && tree.blocks == []
    ensures HoldsTree(tree.config, tree.storage.db.column, tree.saved.leaves)
    ensures HoldsIndices(tree.storage.db.column, tree.saved.numbering)
    ensures tree.rootHash == Root(tree.config.hasher, tree.saved.leaves, tree.config.depth)
    ensures tree.blockNumber == tree.saved.blocks
  {
  }

  /** Runs the steps on an empty database. Whatever is lost in between, the object ends up standing
      for the committed blocks: their root, their leaf numbers, their count. */
  method RunTree(hasher: Hasher, depth: nat, steps: seq<RunStep>) returns (tree: AccountTree)
    requires 1 <= depth <= 256 && forall i :: 0 <= i < |steps| ==> OpsInTree(depth, StepOps(steps[i]))
    requires TotalOps(steps) + 1 < LIMB && |steps| + 1 < U32_LIMIT
    ensures tree.Valid() && tree.blocks == [] && tree.config.hasher == hasher && tree.config.depth == depth
    ensures tree.saved == RunState(steps)
    ensures HoldsTree(tree.config, tree.storage.db.column, SetLeaves(map[], Committed(steps)))
    ensures HoldsIndices(tree.storage.db.column, LeafEnumeration.After(EMPTY, Committed(steps)))
    ensures tree.rootHash == Root(hasher, SetLeaves(map[], Committed(steps)), depth)
    ensures tree.blockNumber == CommittedBlocks(steps)
  {
    hide HoldsTree, HoldsIndices, HoldsState, Root, SetLeaves, AccountTree.Valid, OpsInTree;
    ghost var c := TreeConfig.New(hasher, depth);
    EmptyDatabase(c);
    GenesisState();
    var db := new RocksDb();
    var start := new AccountTree(db, hasher, depth, c, GENESIS);
    tree := RunSteps(start, steps);
    SavedTreeShows(tree);
  }

  // ---------------------------------------------------------------- Two blocks before one save

  lemma OneLeaf(leaves: Leaves, op: KeyedOp)
    ensures SetLeaves(leaves, [op]) == leaves[ToU256(op.0) := op.1.value]
  {
    assert [op][..0] == [];
  }

  lemma RootOfTwoLeaves(m: Leaves)
    ensures Root(Hasher((a, b, k) => a), m, 1) == LeafValue(m, 0)
  {
    var h := Hasher((a, b, k) => a);
    assert Node(h, m, 1, 0) == h.compress(Node(h, m, 0, 0), Node(h, m, 0, 1), KindAt(1));
  }

  /** Two blocks that set one leaf each: the root of the second one misses the first. */
  lemma SecondBlockWrongRoot(v: TreeValue)
    requires v != TreeKey(0, 0, 0, 0)
    ensures var h := Hasher((a, b, k) => a);
            var first, second := [(TreeKey(0, 0, 0, 0), Write(v, v))], [(TreeKey(0, 0, 0, 1), Write(v, v))];
            && !ResetBy(map[], first, second)
            && Root(h, SetLeaves(map[], second), 1) == TreeKey(0, 0, 0, 0)
            && Root(h, SetLeaves(SetLeaves(map[], first), second), 1) == v
  {
    var a, b := (TreeKey(0, 0, 0, 0), Write(v, v)), (TreeKey(0, 0, 0, 1), Write(v, v));
    ToU256Value(a.0);
    ToU256Value(b.0);
    OneLeaf(map[], a);
    OneLeaf(map[], b);
    OneLeaf(map[0 := v], b);
    RootOfTwoLeaves(map[1 := v]);
    RootOfTwoLeaves(map[0 := v, 1 := v]);
    assert !Sets([b], [a][0].0);
    assert LeafValue(SetLeaves(map[], [a]), ToU256([a][0].0)) == v;
  }

  /** The numbering fails as well: two unsaved blocks that each write one new key hand out the same
      index twice, where saving in between gives different ones, and a save keeps both. */
  lemma UnsavedBlockReusesIndex(v: TreeValue)
    ensures var a, b := (TreeKey(0, 0, 0, 1), Write(v, v)), (TreeKey(0, 0, 0, 2), Write(v, v));
            && InitialWrites(EMPTY, [a]) == [InitialStorageWrite(1, 1, ToBytes(v))]
            && InitialWrites(EMPTY, [b]) == [InitialStorageWrite(1, 2, ToBytes(v))]
            && InitialWrites(LeafEnumeration.After(EMPTY, [a]), [b]) == [InitialStorageWrite(2, 2, ToBytes(v))]
            && Staged(EMPTY, [[a], [b]]) == Enumeration(map[a.0 := 1, b.0 := 1], 2)
  {
    var a, b := (TreeKey(0, 0, 0, 1), Write(v, v)), (TreeKey(0, 0, 0, 2), Write(v, v));
    ToU256Value(a.0);
    ToU256Value(b.0);
    assert [a][..0] == [] && [b][..0] == [];
    assert LeafEnumeration.After(EMPTY, [a]) == Enumeration(map[a.0 := 1], 2);
    assert LeafEnumeration.After(EMPTY, [b]) == Enumeration(map[b.0 := 1], 2);
    OneMoreStaged(EMPTY, [], [a]);
    OneMoreStaged(EMPTY, [[a]], [b]);
    assert [[a], [b]] == [[a]] + [[b]] && [[a]] == [] + [[a]];
  }
}
