/** The level-by-level batch update (merkle_tree/src/patch.rs): all intermediate trees of a
    batch at once. The parallel loops are modelled as loops that take their items in any order. */
module Patch {
  import opened Wrappers
  import opened TreeTypes
  import opened SparseTree
  import opened BatchSpec
  import opened MergeIndexed
  import opened PatchMerge
  import opened PatchStep
  import opened PatchRegroup

  /** One entry per operation: the nodes it changed, from its leaf to the root. */
  type TreePatch = seq<seq<(TreeKey, NodeEntry)>>

  /** `Update::new`: the last hash of the path is the leaf itself. */
  function NewUpdate(index: nat, uncles: seq<ZkHash>, key: TreeKey): Result<Update, TreeError> {
    if uncles == [] then Failure(EmptyPatch)
    else Success(Update(index, uncles[..|uncles| - 1], [(key, Leaf(uncles[|uncles| - 1]))]))
  }

  // ---------------------------------------------------------------- One node

  /** The operations at the positions in `todo` are still to come; `now` is `done` and the others. */
  ghost predicate Progress(b: Batch, height: nat, ops: seq<nat>, todo: set<nat>, done: set<nat>, now: set<nat>,
      updates: seq<Update>)
    requires b.Valid() && height <= b.depth
  {
    && |updates| == |ops|
    && (forall t :: t in todo ==> t < |ops| && ops[t] !in now)
    && (forall t :: 0 <= t < |ops| && t !in todo ==>
          ops[t] in now && ops[t] < |b.keys| && updates[t] == UpdateAt(b, ops[t], height, height, true))
    && (forall i :: i in done ==> i in now)
    && (forall i :: i in now ==> i in done || i in ops)
  }

  lemma {:induction false} ProgressStep(b: Batch, height: nat, ops: seq<nat>, todo: set<nat>, done: set<nat>,
      now: set<nat>, updates: seq<Update>, t: nat)
    requires b.Valid() && height <= b.depth && Progress(b, height, ops, todo, done, now, updates)
    requires Ascending(ops) && t in todo && ops[t] < |b.keys|
    ensures Progress(b, height, ops, todo - {t}, done, now + {ops[t]},
                     updates[t := UpdateAt(b, ops[t], height, height, true)])
  {
    assert ops[t] in ops;
  }

  lemma {:induction false} ProgressEnd(b: Batch, height: nat, idx: nat, done: set<nat>, now: set<nat>,
      updates: seq<Update>)
    requires b.Valid() && height <= b.depth && Progress(b, height, AllOpsAt(b, height, idx), {}, done, now, updates)
    ensures IsNodeList(b, height, idx, true, {}, updates)
    ensures forall i: nat :: i in now <==> i in done || i in AllOpsAt(b, height, idx)
  {
  }

  lemma {:induction false} MergedAt(b: Batch, height: nat, idx: nat,
      merged: seq<(TaggedUpdate, Option<Option<NodeEntry>>)>, t: nat)
    requires b.Valid() && height < b.depth && IsMerged(b, height, idx, merged) && t < |merged|
    ensures var i := AllOpsAt(b, height + 1, idx)[t];
            && merged[t].0.1.index == i < |b.keys| && MergedItem(b, height, i, merged[t])
            && b.PathIdx(i, height + 1) == idx
  {
    OpsAtMembers(b, height + 1, idx, |b.keys|);
    assert MergedItem(b, height, AllOpsAt(b, height + 1, idx)[t], merged[t]);
    assert AllOpsAt(b, height + 1, idx)[t] in AllOpsAt(b, height + 1, idx);
  }

  /** The operation at position `t` of a node, all earlier bookkeeping kept. */
  method ProcessOne(hasher: Hasher, depth: nat, nextIdx: nat, merged: seq<(TaggedUpdate, Option<Option<NodeEntry>>)>,
      t: nat, updates0: seq<Update>, curPath0: UpdatesMap, curChanges: map<nat, seq<ZkHash>>, trace0: TraceLog,
      ghost b: Batch, ghost todo: set<nat>, ghost done: set<nat>, ghost now: set<nat>)
    returns (updates: seq<Update>, curPath: UpdatesMap, trace: TraceLog)
    requires b.Valid() && depth < b.depth && hasher == b.hasher
    requires IsMerged(b, depth, nextIdx, merged) && t < |merged| && t in todo
    requires Progress(b, depth + 1, AllOpsAt(b, depth + 1, nextIdx), todo, done, now, updates0)
    requires IsLevel(b, depth, false, now, curPath0) && IsLastHashes(b, depth, curChanges)
    requires TracesUpTo(b, trace0, depth, now)
    ensures var ops := AllOpsAt(b, depth + 1, nextIdx);
            && Progress(b, depth + 1, ops, todo - {t}, done, now + {ops[t]}, updates)
            && IsLevel(b, depth, false, now + {ops[t]}, curPath)
            && TracesUpTo(b, trace, depth, now + {ops[t]})
  {
    hide IsLevel, TracesUpTo, IsLastHashes, Node, IsMerged, MergedItem;
    ghost var i := AllOpsAt(b, depth + 1, nextIdx)[t];
    MergedAt(b, depth, nextIdx, merged, t);
    OpsAtMembers(b, depth + 1, nextIdx, |b.keys|);
    ProgressStep(b, depth + 1, AllOpsAt(b, depth + 1, nextIdx), todo, done, now, updates0, t);
    var update;
    update, curPath, trace := CompressOp(hasher, depth, nextIdx, merged[t], curPath0, curChanges, trace0, b, now);
    updates := updates0[t := update];
  }

  /** All operations below one node, in any order. */
  method ProcessNode(hasher: Hasher, depth: nat, nextIdx: nat, merged: seq<(TaggedUpdate, Option<Option<NodeEntry>>)>,
      curPath0: UpdatesMap, curChanges: map<nat, seq<ZkHash>>, trace0: TraceLog, ghost b: Batch, ghost done: set<nat>)
    returns (updates: seq<Update>, curPath: UpdatesMap, trace: TraceLog, ghost now: set<nat>)
    requires b.Valid() && depth < b.depth && hasher == b.hasher
    requires IsMerged(b, depth, nextIdx, merged)
    requires forall i :: i in AllOpsAt(b, depth + 1, nextIdx) ==> i !in done
    requires IsLevel(b, depth, false, done, curPath0) && IsLastHashes(b, depth, curChanges)
    requires TracesUpTo(b, trace0, depth, done)
    ensures IsNodeList(b, depth + 1, nextIdx, true, {}, updates)
    ensures IsLevel(b, depth, false, now, curPath) && TracesUpTo(b, trace, depth, now)
    ensures forall i: nat :: i in now <==> i in done || i in AllOpsAt(b, depth + 1, nextIdx)
  {
    hide IsLevel, TracesUpTo, IsNodeList, IsLastHashes, Node;
    ghost var ops := AllOpsAt(b, depth + 1, nextIdx);
    curPath, trace, now := curPath0, trace0, done;
    updates := seq(|merged|, t requires 0 <= t < |merged| => merged[t].0.1);
    var todo := Below(|merged|);
    assert Progress(b, depth + 1, ops, todo, done, now, updates) by {
      assert forall t :: 0 <= t < |ops| ==> ops[t] in ops;
    }
    while todo != {}
      invariant Progress(b, depth + 1, ops, todo, done, now, updates)
      invariant IsLevel(b, depth, false, now, curPath) && TracesUpTo(b, trace, depth, now)
      decreases todo
    {
      var t :| t in todo;
      updates, curPath, trace := ProcessOne(hasher, depth, nextIdx, merged, t, updates, curPath, curChanges, trace, b,
                                            todo, done, now);
      now := now + {ops[t]};
      todo := todo - {t};
    }
    ProgressEnd(b, depth + 1, nextIdx, done, now, updates);
  }

  // ---------------------------------------------------------------- One level

  /** The updates of both children of every touched parent. */
  function GroupByParent(m: UpdatesMap): map<nat, (Option<seq<Update>>, Option<seq<Update>>)> {
    map up | up in Parents(m) :: (At(m, 2 * up), At(m, 2 * up + 1))
  }

  lemma {:induction false} GroupLists(b: Batch, height: nat, m: UpdatesMap, up: nat)
    requires b.Valid() && height < b.depth && IsLevel(b, height, true, {}, m) && up in GroupByParent(m)
    ensures IsNodeList(b, height, 2 * up, true, {}, Flat(GroupByParent(m)[up].0))
    ensures IsNodeList(b, height, 2 * up + 1, true, {}, Flat(GroupByParent(m)[up].1))
  {
    hide IsNodeList, IsLevel, Flat;
    ListOrEmpty(b, height, true, {}, m, 2 * up);
    ListOrEmpty(b, height, true, {}, m, 2 * up + 1);
    assert GroupByParent(m)[up].0 == At(m, 2 * up);
    assert GroupByParent(m)[up].1 == At(m, 2 * up + 1);
  }

  /** The parents in `todo` are still to come. */
  ghost predicate LevelProgress(b: Batch, height: nat, todo: set<nat>, now: set<nat>, next: UpdatesMap)
    requires b.Valid() && height <= b.depth
  {
    && todo <= IndicesAt(b, height) && next.Keys == IndicesAt(b, height) - todo
    && (forall up :: up in next ==> IsNodeList(b, height, up, true, {}, next[up]))
    && (forall i: nat :: i in now <==> i < |b.keys| && b.PathIdx(i, height) !in todo)
  }

  lemma {:induction false} LevelProgressStep(b: Batch, height: nat, todo: set<nat>, done: set<nat>, now: set<nat>,
      next: UpdatesMap, up: nat, updates: seq<Update>)
    requires b.Valid() && height <= b.depth && LevelProgress(b, height, todo, done, next) && up in todo
    requires IsNodeList(b, height, up, true, {}, updates)
    requires forall i: nat :: i in now <==> i in done || i in AllOpsAt(b, height, up)
    ensures LevelProgress(b, height, todo - {up}, now, next[up := updates])
  {
    OpsAtMembers(b, height, up, |b.keys|);
    forall i: nat ensures i in now <==> i < |b.keys| && b.PathIdx(i, height) !in todo - {up} {
      assert i in done <==> i < |b.keys| && b.PathIdx(i, height) !in todo;
      assert i in AllOpsAt(b, height, up) <==> i < |b.keys| && b.Touches(i, height, up);
    }
  }

  lemma {:induction false} LevelProgressEnd(b: Batch, height: nat, now: set<nat>, next: UpdatesMap)
    requires b.Valid() && height < b.depth && LevelProgress(b, height + 1, {}, now, next)
    ensures IsLevel(b, height + 1, true, {}, next) && now == AllOps(b)
  {
    assert forall i: nat :: i in now <==> i < |b.keys|;
  }

  lemma {:induction false} LevelStart(b: Batch, height: nat, m: UpdatesMap)
    requires b.Valid() && height < b.depth && IsLevel(b, height, true, {}, m)
    ensures LevelProgress(b, height + 1, GroupByParent(m).Keys, {}, map[])
  {
    ParentsOfLevel(b, height, m);
    var h := height + 1;
    forall i: nat | i < |b.keys| ensures b.PathIdx(i, h) in IndicesAt(b, h) {
    }
  }

  lemma {:induction false} TracesNextLevel(b: Batch, log: TraceLog, height: nat)
    requires b.Valid() && height < b.depth && TracesUpTo(b, log, height, AllOps(b))
    ensures TracesUpTo(b, log, height + 1, {})
  {
  }

  lemma {:induction false} LevelLastHashes(b: Batch, height: nat, m: UpdatesMap)
    requires b.Valid() && height <= b.depth && IsLevel(b, height, false, {}, m)
    ensures forall idx :: idx in m ==> ListHasChanges(m[idx])
    ensures IsLastHashes(b, height, LastHashes(m))
  {
    forall idx | idx in m ensures ListHasChanges(m[idx]) && IsHashList(b, height, idx, ListHashes(m[idx])) {
      NodeLastHashes(b, height, idx, m[idx]);
    }
  }

  /** One parent: its children's updates are merged and its operations processed. */
  method ProcessParent(hasher: Hasher, depth: nat, up: nat, left: Option<seq<Update>>, right: Option<seq<Update>>,
      curPath0: UpdatesMap, curChanges: map<nat, seq<ZkHash>>, trace0: TraceLog, next0: UpdatesMap,
      ghost b: Batch, ghost todo: set<nat>, ghost done: set<nat>)
    returns (next: UpdatesMap, curPath: UpdatesMap, trace: TraceLog, ghost now: set<nat>)
    requires b.Valid() && depth < b.depth && hasher == b.hasher && up in todo
    requires IsNodeList(b, depth, 2 * up, true, {}, Flat(left))
    requires IsNodeList(b, depth, 2 * up + 1, true, {}, Flat(right))
    requires LevelProgress(b, depth + 1, todo, done, next0)
    requires IsLevel(b, depth, false, done, curPath0) && IsLastHashes(b, depth, curChanges)
    requires TracesUpTo(b, trace0, depth, done)
    ensures LevelProgress(b, depth + 1, todo - {up}, now, next)
    ensures IsLevel(b, depth, false, now, curPath) && TracesUpTo(b, trace, depth, now)
  {
    var merged := MergeChildren(left, right, b, depth, up);
    OpsAtMembers(b, depth + 1, up, |b.keys|);
    var updates;
    updates, curPath, trace, now := ProcessNode(hasher, depth, up, merged, curPath0, curChanges, trace0, b, done);
    LevelProgressStep(b, depth + 1, todo, done, now, next0, up, updates);
    next := next0[up := updates];
  }

  /** All parents, in any order. */
  method ProcessParents(hasher: Hasher, depth: nat, curLvl: UpdatesMap, curPath0: UpdatesMap,
      curChanges: map<nat, seq<ZkHash>>, trace0: TraceLog, ghost b: Batch)
    returns (next: UpdatesMap, curPath: UpdatesMap, trace: TraceLog)
    requires b.Valid() && depth < b.depth && hasher == b.hasher && IsLevel(b, depth, true, {}, curLvl)
    requires IsLevel(b, depth, false, {}, curPath0) && IsLastHashes(b, depth, curChanges)
    requires TracesUpTo(b, trace0, depth, {})
    ensures IsLevel(b, depth + 1, true, {}, next)
    ensures IsLevel(b, depth, false, AllOps(b), curPath) && TracesUpTo(b, trace, depth, AllOps(b))
  {
    LevelStart(b, depth, curLvl);
    var groups := GroupByParent(curLvl);
    curPath, trace, next := curPath0, trace0, map[];
    ghost var done: set<nat> := {};
    var todo := groups.Keys;
    while todo != {}
      invariant todo <= groups.Keys && LevelProgress(b, depth + 1, todo, done, next)
      invariant IsLevel(b, depth, false, done, curPath) && TracesUpTo(b, trace, depth, done)
      decreases todo
    {
      var up :| up in todo;
      GroupLists(b, depth, curLvl, up);
      var group := groups[up];
      next, curPath, trace, done := ProcessParent(hasher, depth, up, group.0, group.1, curPath, curChanges, trace,
                                                  next, b, todo, done);
      todo := todo - {up};
    }
    LevelProgressEnd(b, depth, done, next);
  }

  /** Every operation moves from `depth` to `depth + 1`. */
  method ProcessLevel(hasher: Hasher, depth: nat, curLvl: UpdatesMap, curPath0: UpdatesMap, trace0: TraceLog,
      ghost b: Batch)
    returns (next: UpdatesMap, nextPath: UpdatesMap, trace: TraceLog)
    requires b.Valid() && depth < b.depth && hasher == b.hasher
    requires IsLevel(b, depth, true, {}, curLvl) && IsLevel(b, depth, false, {}, curPath0)
    requires TracesUpTo(b, trace0, depth, {})
    ensures IsLevel(b, depth + 1, true, {}, next) && IsLevel(b, depth + 1, false, {}, nextPath)
    ensures TracesUpTo(b, trace, depth + 1, {})
  {
    LevelLastHashes(b, depth, curPath0);
    var curChanges := LastHashes(curPath0);
    var curPath;
    next, curPath, trace := ProcessParents(hasher, depth, curLvl, curPath0, curChanges, trace0, b);
    TracesNextLevel(b, trace, depth);
    RegroupLevel(b, depth, curPath);
    nextPath := Regroup(curPath);
  }

  // ---------------------------------------------------------------- All levels

  lemma {:induction false} RootIndices(b: Batch)
    requires b.Valid()
    ensures forall idx :: idx in IndicesAt(b, b.depth) ==> idx == 0
    ensures |b.keys| > 0 ==> 0 in IndicesAt(b, b.depth)
  {
    forall i | 0 <= i < |b.keys| ensures b.PathIdx(i, b.depth) == 0 {
      b.PathIdxFits(i, b.depth);
    }
    if |b.keys| > 0 {
      assert b.PathIdx(0, b.depth) == 0;
    }
  }

  lemma {:induction false} RootOps(b: Batch, n: nat)
    requires b.Valid() && n <= |b.keys|
    ensures |OpsAt(b, b.depth, 0, n)| == n && forall i :: 0 <= i < n ==> OpsAt(b, b.depth, 0, n)[i] == i
  {
    if n > 0 {
      RootOps(b, n - 1);
      b.PathIdxFits(n - 1, b.depth);
    }
  }

  function ChangesOf(updates: seq<Update>): TreePatch {
    seq(|updates|, t requires 0 <= t < |updates| => updates[t].changes)
  }

  /** The patch: the changes of the updates that have arrived at the top. */
  method CollectPatch(top: UpdatesMap, ghost b: Batch) returns (patch: TreePatch)
    requires b.Valid() && IsLevel(b, b.depth, true, {}, top)
    ensures |patch| == |b.keys| && forall i :: 0 <= i < |patch| ==> patch[i] == ChangesUpTo(b, i, b.depth)
  {
    RootIndices(b);
    RootOps(b, |b.keys|);
    patch := [];
    var todo := top.Keys;
    while todo != {}
      invariant todo <= top.Keys
      invariant if todo == top.Keys then patch == [] else todo == {} && patch == ChangesOf(top[0])
      decreases todo
    {
      var idx :| idx in todo;
      patch := patch + ChangesOf(top[idx]);
      todo := todo - {idx};
    }
  }

  /** `UpdatesBatch::calculate`. For every operation the patch lists the nodes on its path as they
      are in the tree after operations `0..i` applied one by one; the trace log holds, per
      operation, one row for every level, whatever order the loops took. */
  method Calculate(hasher: Hasher, rootTreeDepth: nat, updates: UpdatesMap, preUpdates: UpdatesMap, ghost b: Batch)
    returns (patch: TreePatch, hashTrace: TraceLog)
    requires b.Valid() && hasher == b.hasher && rootTreeDepth == b.depth
    requires IsLevel(b, 0, true, {}, updates) && IsLevel(b, 0, false, {}, preUpdates)
    ensures |patch| == |b.keys| && forall i :: 0 <= i < |patch| ==> patch[i] == ChangesUpTo(b, i, b.depth)
    ensures TracesUpTo(b, hashTrace, b.depth, {})
  {
    hashTrace := [];
    var curLvl, curPath := updates, preUpdates;
    for depth := 0 to rootTreeDepth
      invariant IsLevel(b, depth, true, {}, curLvl) && IsLevel(b, depth, false, {}, curPath)
      invariant TracesUpTo(b, hashTrace, depth, {})
    {
      curLvl, curPath, hashTrace := ProcessLevel(hasher, depth, curLvl, curPath, hashTrace, b);
    }
    patch := CollectPatch(curLvl, b);
  }
}
