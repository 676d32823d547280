/** From operations to the prepared batch: reading the paths and grouping the updates by key
    (`prepare_batch_update`, `hash_paths_to_leaves`, `get_leaves_paths`, merkle_tree/src/tree.rs). */
module TreePrepare {
  import opened Wrappers
  import opened TreeTypes
  import opened SparseTree
  import opened BatchSpec
  import opened TreeConfig
  import opened LeafEnumeration
  import opened Storage
  import opened PatchStep
  import opened Patch

  /** The batch that a list of operations stands for. A read puts the value it reports as well. */
  ghost function BatchOf(config: Config, leaves: Leaves, ops: seq<KeyedOp>): (b: Batch)
    requires config.Valid()
    ensures |b.keys| == |b.values| == |ops| && b.hasher == config.hasher && b.depth == config.depth && b.base == leaves
    ensures forall i :: 0 <= i < |ops| ==> b.keys[i] == ops[i].0 && b.values[i] == ops[i].1.value
  {
    Batch(config.hasher, config.depth, leaves,
          seq(|ops|, i requires 0 <= i < |ops| => ops[i].0), seq(|ops|, i requires 0 <= i < |ops| => ops[i].1.value))
  }

  /** The node at level `d + 1` next to the path of a key, or on it. */
  function PathPosition(depth: nat, key: nat, d: nat, neighbor: bool): LevelIndex
    requires d < depth
  {
    LevelIndex(d + 1, NeighborIdx(Shr(key, depth - 1 - d), neighbor))
  }

  /** `idx_to_merkle_path`: the positions for all levels, level 1 first. */
  function IdxToMerklePath(depth: nat, key: nat, neighbor: bool): (path: seq<LevelIndex>)
    ensures |path| == depth && forall d :: 0 <= d < depth ==> path[d] == PathPosition(depth, key, d, neighbor)
  {
    seq(depth, d requires 0 <= d < depth => PathPosition(depth, key, d, neighbor))
  }

  /** The stored hashes along a path. */
  function StoredPath(config: Config, column: Column, path: seq<LevelIndex>): (hashes: seq<ZkHash>)
    requires config.Valid() && NodesHave32Bytes(column)
    requires forall d :: 0 <= d < |path| ==> path[d].level <= config.depth
    ensures |hashes| == |path| && forall d :: 0 <= d < |path| ==>
              hashes[d] == StoredNode(config, column, path[d].level, path[d].index)
  {
    seq(|path|, d requires 0 <= d < |path| => StoredNode(config, column, path[d].level, path[d].index))
  }

  /** The stored hashes along a path, then the value of the operation. */
  function HashPathToLeaf(config: Config, column: Column, op: KeyedOp, neighbor: bool): seq<ZkHash>
    requires config.Valid() && NodesHave32Bytes(column)
  {
    StoredPath(config, column, IdxToMerklePath(config.depth, ToU256(op.0), neighbor)) + [op.1.value]
  }

  lemma {:induction false} PathIsPathHashes(config: Config, column: Column, leaves: Leaves, ops: seq<KeyedOp>,
      i: nat, neighbor: bool)
    requires config.Valid() && HoldsTree(config, column, leaves) && OpsInTree(config.depth, ops) && i < |ops|
    ensures BatchOf(config, leaves, ops).Valid()
    ensures StoredPath(config, column, IdxToMerklePath(config.depth, ToU256(ops[i].0), neighbor))
         == PathHashes(BatchOf(config, leaves, ops), i, neighbor)
  {
    var b := BatchOf(config, leaves, ops);
    var path := IdxToMerklePath(config.depth, ToU256(ops[i].0), neighbor);
    var hashes := StoredPath(config, column, path);
    forall d | 0 <= d < config.depth ensures hashes[d] == PathHashes(b, i, neighbor)[d] {
      assert path[d] == PathPosition(config.depth, ToU256(ops[i].0), d, neighbor);
      assert hashes[d] == StoredNode(config, column, d + 1, NeighborIdx(b.PathIdx(i, b.depth - 1 - d), neighbor));
      assert config.depth - (d + 1) == b.depth - 1 - d;
      assert PathHashes(b, i, neighbor)[d]
          == b.NodeAfter(0, b.depth - 1 - d, NeighborIdx(b.PathIdx(i, b.depth - 1 - d), neighbor));
    }
  }

  lemma {:induction false} StartUpdate(b: Batch, i: nat, neighbor: bool)
    requires b.Valid() && i < |b.keys|
    ensures UpdateAt(b, i, 0, 0, neighbor) == Update(i, PathHashes(b, i, neighbor), [(b.keys[i], Leaf(b.values[i]))])
  {
    b.OwnLeaf(i);
    U256OfKey(b.keys[i]);
    assert PathHashes(b, i, neighbor)[..b.depth - 0] == PathHashes(b, i, neighbor);
    assert ChangesUpTo(b, i, 0) == [(b.keys[i], Leaf(b.values[i]))];
  }

  /** The update of operation `i` at the start. */
  lemma {:induction false} NewUpdateIsStart(config: Config, column: Column, leaves: Leaves, ops: seq<KeyedOp>,
      i: nat, neighbor: bool)
    requires config.Valid() && HoldsTree(config, column, leaves) && OpsInTree(config.depth, ops) && i < |ops|
    ensures BatchOf(config, leaves, ops).Valid()
    ensures NewUpdate(i, HashPathToLeaf(config, column, ops[i], neighbor), ops[i].0)
         == Success(UpdateAt(BatchOf(config, leaves, ops), i, 0, 0, neighbor))
  {
    var b := BatchOf(config, leaves, ops);
    PathIsPathHashes(config, column, leaves, ops, i, neighbor);
    StartUpdate(b, i, neighbor);
    var uncles := HashPathToLeaf(config, column, ops[i], neighbor);
    assert uncles[..|uncles| - 1] == PathHashes(b, i, neighbor);
  }

  // ---------------------------------------------------------------- Grouping by key

  /** The fold that pushes each update to the list of its key. */
  function GroupByKey(updates: seq<(TreeKey, Update)>): map<TreeKey, seq<Update>> {
    if updates == [] then map[]
    else
      var m, (key, u) := GroupByKey(updates[..|updates| - 1]), updates[|updates| - 1];
      m[key := (if key in m then m[key] else []) + [u]]
  }

  /** The same map with 256-bit integers as keys. */
  function ByIndex(m: map<TreeKey, seq<Update>>): UpdatesMap
  {
    map idx | idx in (set key | key in m :: ToU256(key)) :: (if FromU256(idx) in m then m[FromU256(idx)] else [])
  }

  lemma {:induction false} KeyOfIndex(k: TreeKey, l: TreeKey)
    ensures ToU256(k) == ToU256(l) <==> k == l
    ensures FromU256(ToU256(k)) == k
  {
    U256OfKey(k);
    U256OfKey(l);
  }

  /** The list of a key after `n` updates: the operations below its leaf, in order. */
  ghost predicate IsKeyList(b: Batch, neighbor: bool, n: nat, key: TreeKey, list: seq<Update>)
    requires b.Valid() && n <= |b.keys|
  {
    var ops := OpsAt(b, 0, ToU256(key), n);
    && |list| == |ops|
    && forall t :: 0 <= t < |ops| ==> ops[t] < |b.keys| && list[t] == UpdateAt(b, ops[t], 0, 0, neighbor)
  }

  ghost predicate IsGrouped(b: Batch, neighbor: bool, n: nat, m: map<TreeKey, seq<Update>>)
    requires b.Valid() && n <= |b.keys|
  {
    && (forall key :: key in m <==> key in b.keys[..n])
    && forall key :: key in m ==> IsKeyList(b, neighbor, n, key, m[key])
  }

  lemma {:induction false} NoOpsYet(b: Batch, n: nat, key: TreeKey)
    requires b.Valid() && n <= |b.keys| && key !in b.keys[..n]
    ensures OpsAt(b, 0, ToU256(key), n) == []
  {
    OpsAtMembers(b, 0, ToU256(key), n);
    forall i | 0 <= i < n ensures !b.Touches(i, 0, ToU256(key)) {
      assert b.keys[i] == b.keys[..n][i];
      KeyOfIndex(b.keys[i], key);
    }
    EmptyIffNoMember(OpsAt(b, 0, ToU256(key), n));
  }

  lemma {:induction false} KeyListStep(b: Batch, neighbor: bool, n: nat, key: TreeKey, list: seq<Update>)
    requires b.Valid() && n < |b.keys| && IsKeyList(b, neighbor, n, key, list)
    ensures IsKeyList(b, neighbor, n + 1, key,
                      if key == b.keys[n] then list + [UpdateAt(b, n, 0, 0, neighbor)] else list)
  {
    KeyOfIndex(key, b.keys[n]);
    assert OpsAt(b, 0, ToU256(key), n + 1) == OpsAt(b, 0, ToU256(key), n) + (if key == b.keys[n] then [n] else []);
  }

  lemma {:induction false} GroupedStep(b: Batch, neighbor: bool, n: nat, m: map<TreeKey, seq<Update>>)
    requires b.Valid() && n < |b.keys| && IsGrouped(b, neighbor, n, m)
    ensures var key := b.keys[n];
            IsGrouped(b, neighbor, n + 1,
                      m[key := (if key in m then m[key] else []) + [UpdateAt(b, n, 0, 0, neighbor)]])
  {
    var key := b.keys[n];
    var list := if key in m then m[key] else [];
    var m' := m[key := list + [UpdateAt(b, n, 0, 0, neighbor)]];
    if key !in m {
      NoOpsYet(b, n, key);
      assert IsKeyList(b, neighbor, n, key, []);
    }
    TakeNext(b.keys, n);
    hide IsKeyList, UpdateAt, Batch.Valid;
    forall k | k in m' ensures IsKeyList(b, neighbor, n + 1, k, m'[k]) {
      KeyListStep(b, neighbor, n, k, if k == key then list else m[k]);
    }
  }

  lemma {:induction false} GroupedIndices(b: Batch, neighbor: bool, m: map<TreeKey, seq<Update>>)
    requires b.Valid() && IsGrouped(b, neighbor, |b.keys|, m)
    ensures ByIndex(m).Keys == IndicesAt(b, 0)
  {
    assert b.keys[..|b.keys|] == b.keys;
    forall idx ensures idx in ByIndex(m) <==> idx in IndicesAt(b, 0) {
      if idx in ByIndex(m) {
        var key :| key in m && ToU256(key) == idx;
        var i :| 0 <= i < |b.keys| && b.keys[i] == key;
        assert b.PathIdx(i, 0) == idx;
      }
      if idx in IndicesAt(b, 0) {
        var i :| 0 <= i < |b.keys| && b.PathIdx(i, 0) == idx;
        assert b.keys[i] in m;
      }
    }
  }

  lemma {:induction false} GroupedIsLevel(b: Batch, neighbor: bool, m: map<TreeKey, seq<Update>>)
    requires b.Valid() && IsGrouped(b, neighbor, |b.keys|, m)
    ensures IsLevel(b, 0, neighbor, {}, ByIndex(m))
  {
    GroupedIndices(b, neighbor, m);
    var r := ByIndex(m);
    forall idx | idx in r ensures IsNodeList(b, 0, idx, neighbor, {}, r[idx]) {
      var key :| key in m && ToU256(key) == idx;
      KeyOfIndex(key, key);
      assert r[idx] == m[key];
      assert IsKeyList(b, neighbor, |b.keys|, key, m[key]);
    }
  }

  /** `prepare_batch_update` for one of the two maps; `Update::new` cannot fail here. */
  method PrepareMap(config: Config, column: Column, ops: seq<KeyedOp>, neighbor: bool, ghost leaves: Leaves)
    returns (updatesMap: UpdatesMap)
    requires config.Valid() && HoldsTree(config, column, leaves) && OpsInTree(config.depth, ops)
    ensures BatchOf(config, leaves, ops).Valid()
    ensures IsLevel(BatchOf(config, leaves, ops), 0, neighbor, {}, updatesMap)
  {
    ghost var b := BatchOf(config, leaves, ops);
    var updates: seq<(TreeKey, Update)> := [];
    for i := 0 to |ops|
      invariant |updates| == i
      invariant IsGrouped(b, neighbor, i, GroupByKey(updates))
    {
      var u := NewUpdate(i, HashPathToLeaf(config, column, ops[i], neighbor), ops[i].0);
      NewUpdateIsStart(config, column, leaves, ops, i, neighbor);
      GroupedStep(b, neighbor, i, GroupByKey(updates));
      ghost var before := updates;
      updates := updates + [(ops[i].0, u.value)];
      assert updates[..i] == before;
    }
    GroupedIsLevel(b, neighbor, GroupByKey(updates));
    updatesMap := ByIndex(GroupByKey(updates));
  }
}
