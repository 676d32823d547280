/** The hashing step of one operation at one level (merkle_tree/src/patch.rs). */
module PatchStep {
  import opened Wrappers
  import opened TreeTypes
  import opened SparseTree
  import opened BatchSpec
  import opened PatchMerge

  type UpdatesMap = map<nat, seq<Update>>
  /** Rows of the hash trace with the index of their operation, in the order they were pushed. */
  type TraceLog = seq<(nat, HashTrace)>

  // ---------------------------------------------------------------- Traces by operation

  ghost function TracesOf(log: TraceLog, i: nat): seq<HashTrace> {
    if log == [] then []
    else TracesOf(log[..|log| - 1], i) + (if log[|log| - 1].0 == i then [log[|log| - 1].1] else [])
  }

  ghost function TraceRows(b: Batch, i: nat, height: nat): seq<HashTrace>
    requires b.Valid() && i < |b.keys| && height <= b.depth
  {
    seq(height, j requires 0 <= j < height => TraceAt(b, i, j))
  }

  /** Every operation has pushed its rows up to `height`, those in `done` one more. */
  ghost predicate TracesUpTo(b: Batch, log: TraceLog, height: nat, done: set<nat>)
    requires AtLevel(b, height, done)
  {
    && (forall t :: 0 <= t < |log| ==> log[t].0 < |b.keys|)
    && forall i :: 0 <= i < |b.keys| ==> TracesOf(log, i) == TraceRows(b, i, if i in done then height + 1 else height)
  }

  lemma {:induction false} TraceStep(b: Batch, log: TraceLog, height: nat, done: set<nat>, i: nat)
    requires b.Valid() && height < b.depth && TracesUpTo(b, log, height, done) && i < |b.keys| && i !in done
    ensures TracesUpTo(b, log + [(i, TraceAt(b, i, height))], height, done + {i})
  {
    var log' := log + [(i, TraceAt(b, i, height))];
    assert log'[..|log|] == log;
    assert TraceRows(b, i, height + 1) == TraceRows(b, i, height) + [TraceAt(b, i, height)];
  }

  // ---------------------------------------------------------------- One hashing step

  /** The hashes the operations below a node have left there. */
  ghost predicate IsHashList(b: Batch, height: nat, idx: nat, hashes: seq<ZkHash>)
    requires b.Valid()
  {
    var ops := AllOpsAt(b, height, idx);
    && |hashes| == |ops|
    && forall t :: 0 <= t < |ops| ==> ops[t] < |b.keys| && hashes[t] == b.NodeAfter(ops[t] + 1, height, idx)
  }

  ghost predicate IsLastHashes(b: Batch, height: nat, m: map<nat, seq<ZkHash>>)
    requires b.Valid()
  {
    m.Keys == IndicesAt(b, height) && forall idx :: idx in m ==> IsHashList(b, height, idx, m[idx])
  }

  ghost predicate ListHasChanges(list: seq<Update>) {
    forall t :: 0 <= t < |list| ==> list[t].changes != []
  }

  function ListHashes(list: seq<Update>): seq<ZkHash>
    requires ListHasChanges(list)
  {
    seq(|list|, t requires 0 <= t < |list| => list[t].changes[|list[t].changes| - 1].1.hash)
  }

  /** The newest hash of every update, taken before the level is processed. */
  function LastHashes(m: UpdatesMap): map<nat, seq<ZkHash>>
    requires forall idx :: idx in m ==> ListHasChanges(m[idx])
  {
    map idx | idx in m :: ListHashes(m[idx])
  }

  lemma {:induction false} ListItem(b: Batch, height: nat, idx: nat, neighbor: bool, done: set<nat>,
      list: seq<Update>, t: nat)
    requires AtLevel(b, height, done) && IsNodeList(b, height, idx, neighbor, done, list) && t < |list|
    ensures var i := AllOpsAt(b, height, idx)[t];
            && i < |b.keys| && b.PathIdx(i, height) == idx
            && list[t] == UpdateAt(b, i, height, if i in done then height + 1 else height, neighbor)
            && list[t].index == i && list[t].changes != []
  {
    OpsAtMembers(b, height, idx, |b.keys|);
    assert AllOpsAt(b, height, idx)[t] in AllOpsAt(b, height, idx);
  }

  lemma {:induction false} NodeLastHashes(b: Batch, height: nat, idx: nat, list: seq<Update>)
    requires b.Valid() && height <= b.depth && IsNodeList(b, height, idx, false, {}, list)
    ensures ListHasChanges(list) && IsHashList(b, height, idx, ListHashes(list))
  {
    forall t | 0 <= t < |list| ensures list[t].changes != [] {
      ListItem(b, height, idx, false, {}, list, t);
    }
    var ops := AllOpsAt(b, height, idx);
    forall t | 0 <= t < |list|
      ensures ops[t] < |b.keys| && ListHashes(list)[t] == b.NodeAfter(ops[t] + 1, height, idx)
    {
      ListItem(b, height, idx, false, {}, list, t);
    }
  }

  function CompressNode(hasher: Hasher, nei: ZkHash, current: ZkHash, odd: bool, depth: nat): (ZkHash, NodeEntry) {
    var (left, right) := if odd then (nei, current) else (current, nei);
    var hash := hasher.compress(left, right, if depth == 0 then LeafNode else BranchNode);
    (hash, Branch(hash, left, right))
  }

  /** The first position holding the update of an operation. */
  function PositionOf(updates: seq<Update>, index: nat): (t: nat)
    requires exists t :: 0 <= t < |updates| && updates[t].index == index
    ensures t < |updates| && updates[t].index == index
  {
    if updates[0].index == index then 0 else 1 + PositionOf(updates[1..], index)
  }

  /** `CompressNode` on the values after, and before, the operation. */
  lemma {:induction false} CompressIsStep(b: Batch, i: nat, height: nat)
    requires b.Valid() && i < |b.keys| && height < b.depth
    ensures var idx := b.PathIdx(i, height);
            var nei := b.NodeAfter(i, height, NeighborIdx(idx, true));
            && CompressNode(b.hasher, nei, b.NodeAfter(i + 1, height, idx), idx % 2 == 1, height)
               == (EntryAfter(b, i, height + 1).hash, EntryAfter(b, i, height + 1))
            && CompressNode(b.hasher, nei, b.NodeAfter(i, height, idx), idx % 2 == 1, height).0
               == b.NodeAfter(i, height + 1, b.PathIdx(i, height + 1))
  {
    StepUp(b, i, i, height);
    StepUp(b, i, i + 1, height);
    b.SiblingUntouched(i, height);
  }

  lemma {:induction false} UpdateFields(b: Batch, i: nat, height: nat, changed: nat, neighbor: bool)
    requires b.Valid() && i < |b.keys| && height < b.depth && height <= changed <= b.depth
    ensures var u := UpdateAt(b, i, height, changed, neighbor);
            && |u.changes| == changed + 1
            && u.changes[changed] == (FromU256(b.PathIdx(i, changed)), EntryAfter(b, i, changed))
            && |u.uncles| == b.depth - height
            && u.uncles[|u.uncles| - 1] == b.NodeAfter(0, height, NeighborIdx(b.PathIdx(i, height), neighbor))
  {
  }

  lemma {:induction false} NextChange(b: Batch, i: nat, height: nat, neighbor: bool)
    requires b.Valid() && i < |b.keys| && height < b.depth
    ensures var u := UpdateAt(b, i, height, height, neighbor);
            u.(changes := u.changes + [(FromU256(b.PathIdx(i, height + 1)), EntryAfter(b, i, height + 1))])
            == UpdateAt(b, i, height, height + 1, neighbor)
  {
    assert ChangesUpTo(b, i, height) + [(FromU256(b.PathIdx(i, height + 1)), EntryAfter(b, i, height + 1))]
        == ChangesUpTo(b, i, height + 1);
  }

  lemma {:induction false} NextUncles(b: Batch, i: nat, height: nat, changed: nat, neighbor: bool)
    requires b.Valid() && i < |b.keys| && height < b.depth && changed <= b.depth
    ensures var u := UpdateAt(b, i, height, changed, neighbor);
            && |u.uncles| > 0
            && u.(uncles := u.uncles[..|u.uncles| - 1]) == UpdateAt(b, i, height + 1, changed, neighbor)
  {
    var p := PathHashes(b, i, neighbor);
    assert p[..b.depth - height][..b.depth - height - 1] == p[..b.depth - (height + 1)];
  }

  /** Where operation `i` stands in its node's list. */
  lemma {:induction false} OpPosition(b: Batch, height: nat, done: set<nat>, m: UpdatesMap, i: nat)
    requires AtLevel(b, height, done) && IsLevel(b, height, false, done, m) && i < |b.keys|
    ensures var idx := b.PathIdx(i, height);
            && idx in m
            && (exists t :: 0 <= t < |m[idx]| && m[idx][t].index == i)
            && AllOpsAt(b, height, idx)[PositionOf(m[idx], i)] == i
  {
    var idx := b.PathIdx(i, height);
    OpsAtMembers(b, height, idx, |b.keys|);
    assert i in AllOpsAt(b, height, idx);
    var t :| 0 <= t < |AllOpsAt(b, height, idx)| && AllOpsAt(b, height, idx)[t] == i;
    ListItem(b, height, idx, false, done, m[idx], t);
    ListItem(b, height, idx, false, done, m[idx], PositionOf(m[idx], i));
  }

  /** The node's own value just before operation `i`. */
  method PrePath(height: nat, list: seq<Update>, changes: seq<ZkHash>, position: nat, ghost b: Batch,
      ghost done: set<nat>, ghost i: nat)
    returns (prePath: ZkHash)
    requires b.Valid() && height < b.depth && i < |b.keys|
    requires IsNodeList(b, height, b.PathIdx(i, height), false, done, list)
    requires position < |list| && AllOpsAt(b, height, b.PathIdx(i, height))[position] == i
    requires IsHashList(b, height, b.PathIdx(i, height), changes)
    ensures prePath == b.NodeAfter(i, height, b.PathIdx(i, height))
  {
    ghost var idx := b.PathIdx(i, height);
    OpsAtMembers(b, height, idx, |b.keys|);
    LatestWins(b, height, idx, i, position);
    ListItem(b, height, idx, false, done, list, position);
    UpdateFields(b, i, height, if i in done then height + 1 else height, false);
    if position == 0 {
      var uncles := list[position].uncles;
      prePath := uncles[|uncles| - 1];
    } else {
      prePath := changes[position - 1];
    }
  }

  lemma {:induction false} MarkDone(b: Batch, height: nat, done: set<nat>, m: UpdatesMap, i: nat)
    requires b.Valid() && height < b.depth && IsLevel(b, height, false, done, m) && i < |b.keys| && i !in done
    requires b.PathIdx(i, height) in m
    requires exists t :: 0 <= t < |m[b.PathIdx(i, height)]| && m[b.PathIdx(i, height)][t].index == i
    ensures var idx := b.PathIdx(i, height);
            IsLevel(b, height, false, done + {i},
                    m[idx := m[idx][PositionOf(m[idx], i) := UpdateAt(b, i, height, height + 1, false)]])
  {
    hide UpdateAt;
    OpPosition(b, height, done, m, i);
    var idx := b.PathIdx(i, height);
    var t := PositionOf(m[idx], i);
    var m' := m[idx := m[idx][t := UpdateAt(b, i, height, height + 1, false)]];
    forall idx' | idx' in m' ensures IsNodeList(b, height, idx', false, done + {i}, m'[idx']) {
      OpsAtMembers(b, height, idx', |b.keys|);
      var ops := AllOpsAt(b, height, idx');
      forall s | 0 <= s < |ops|
        ensures ops[s] < |b.keys|
        ensures m'[idx'][s] == UpdateAt(b, ops[s], height, if ops[s] in done + {i} then height + 1 else height, false)
      {
        ListItem(b, height, idx', false, done, m[idx'], s);
      }
    }
  }

  /** The node an operation stands on, its hash, and the hash of its neighbor. */
  method CurrentNode(depth: nat, item: (TaggedUpdate, Option<Option<NodeEntry>>), ghost b: Batch)
    returns (curKey: nat, currentHash: ZkHash, neiHash: ZkHash)
    requires b.Valid() && depth < b.depth && MergedItem(b, depth, item.0.1.index, item)
    ensures curKey == b.PathIdx(item.0.1.index, depth)
    ensures currentHash == b.NodeAfter(item.0.1.index + 1, depth, curKey)
    ensures neiHash == b.NodeAfter(item.0.1.index, depth, NeighborIdx(curKey, true))
  {
    var ((_, u), nei) := item;
    UpdateFields(b, u.index, depth, depth, true);
    b.PathIdxFits(u.index, depth);
    var (key, node) := u.changes[|u.changes| - 1];
    currentHash := node.hash;
    var siblingHash := u.uncles[|u.uncles| - 1];
    neiHash := NeighborHash(nei, siblingHash);
    curKey := ToU256(key);
  }

  /** Where the operation is listed on its own node, and the node's hash before it. */
  method OwnNodeBefore(depth: nat, curKey: nat, index: nat, curPath: UpdatesMap, curChanges: map<nat, seq<ZkHash>>,
      ghost b: Batch, ghost done: set<nat>)
    returns (position: nat, prePath: ZkHash)
    requires b.Valid() && depth < b.depth && index < |b.keys| && curKey == b.PathIdx(index, depth)
    requires IsLevel(b, depth, false, done, curPath) && IsLastHashes(b, depth, curChanges)
    ensures curKey in curPath && exists t :: 0 <= t < |curPath[curKey]| && curPath[curKey][t].index == index
    ensures position == PositionOf(curPath[curKey], index)
    ensures curPath[curKey][position] == UpdateAt(b, index, depth, if index in done then depth + 1 else depth, false)
    ensures prePath == b.NodeAfter(index, depth, curKey)
  {
    OpPosition(b, depth, done, curPath, index);
    position := PositionOf(curPath[curKey], index);
    ListItem(b, depth, curKey, false, done, curPath[curKey], position);
    prePath := PrePath(depth, curPath[curKey], curChanges[curKey], position, b, done, index);
  }

  /** What `CompressNode` yields from the four inputs is the trace row of the step. */
  lemma {:induction false} RowIsTrace(b: Batch, i: nat, height: nat, row: HashTrace)
    requires b.Valid() && i < |b.keys| && height < b.depth
    requires var idx := b.PathIdx(i, height);
             && row.path == b.NodeAfter(i + 1, height, idx) && row.prePath == b.NodeAfter(i, height, idx)
             && row.sibling == b.NodeAfter(i, height, NeighborIdx(idx, true))
             && row.hash == CompressNode(b.hasher, row.sibling, row.path, idx % 2 == 1, height).0
             && row.preHash == CompressNode(b.hasher, row.sibling, row.prePath, idx % 2 == 1, height).0
    ensures row == TraceAt(b, i, height)
  {
    CompressIsStep(b, i, height);
  }

  /** The change is pushed in the path map as well, in place. */
  method PushChange(depth: nat, curKey: nat, position: nat, change: (TreeKey, NodeEntry), curPath: UpdatesMap,
      ghost b: Batch, ghost done: set<nat>, ghost i: nat)
    returns (curPath': UpdatesMap)
    requires b.Valid() && depth < b.depth && i < |b.keys| && i !in done && curKey == b.PathIdx(i, depth)
    requires IsLevel(b, depth, false, done, curPath)
    requires curKey in curPath && exists t :: 0 <= t < |curPath[curKey]| && curPath[curKey][t].index == i
    requires position == PositionOf(curPath[curKey], i)
    requires curPath[curKey][position] == UpdateAt(b, i, depth, depth, false)
    requires change == (FromU256(b.PathIdx(i, depth + 1)), EntryAfter(b, i, depth + 1))
    ensures IsLevel(b, depth, false, done + {i}, curPath')
  {
    NextChange(b, i, depth, false);
    MarkDone(b, depth, done, curPath, i);
    var list := curPath[curKey];
    curPath' := curPath[curKey := list[position := list[position].(changes := list[position].changes + [change])]];
  }

  /** One operation at one level: hashes the current node with its neighbor, records the change
      in the update and in the path map, and pushes the trace row. */
  method CompressOp(hasher: Hasher, depth: nat, nextIdx: nat, item: (TaggedUpdate, Option<Option<NodeEntry>>),
      curPath: UpdatesMap, curChanges: map<nat, seq<ZkHash>>, trace: TraceLog, ghost b: Batch, ghost done: set<nat>)
    returns (update: Update, curPath': UpdatesMap, trace': TraceLog)
    requires b.Valid() && depth < b.depth && hasher == b.hasher
    requires MergedItem(b, depth, item.0.1.index, item) && nextIdx == b.PathIdx(item.0.1.index, depth + 1)
    requires item.0.1.index !in done
    requires IsLevel(b, depth, false, done, curPath) && IsLastHashes(b, depth, curChanges)
    requires TracesUpTo(b, trace, depth, done)
    ensures update == UpdateAt(b, item.0.1.index, depth + 1, depth + 1, true)
    ensures IsLevel(b, depth, false, done + {item.0.1.index}, curPath')
    ensures TracesUpTo(b, trace', depth, done + {item.0.1.index})
  {
    hide IsLevel, TracesUpTo, IsLastHashes, Node;
    var ((odd, u), _) := item;
    ghost var i := u.index;
    var curKey, currentHash, neiHash := CurrentNode(depth, item, b);
    var position, prePath := OwnNodeBefore(depth, curKey, u.index, curPath, curChanges, b, done);
    var (hash, branch) := CompressNode(hasher, neiHash, currentHash, odd, depth);
    var (preHash, _) := CompressNode(hasher, neiHash, prePath, odd, depth);
    CompressIsStep(b, i, depth);

    update := u.(changes := u.changes + [(FromU256(nextIdx), branch)]);
    NextChange(b, i, depth, true);
    NextUncles(b, i, depth, depth + 1, true);
    update := update.(uncles := update.uncles[..|update.uncles| - 1]);

    curPath' := PushChange(depth, curKey, position, (FromU256(nextIdx), branch), curPath, b, done, i);

    var row := HashTrace(hash, currentHash, neiHash, prePath, preHash);
    RowIsTrace(b, i, depth, row);
    TraceStep(b, trace, depth, done, i);
    trace' := trace + [(u.index, row)];
  }
}
