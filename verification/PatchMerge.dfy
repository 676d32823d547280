/** Merging the updates of two children (merkle_tree/src/patch.rs): each operation meets the
    value its sibling node had just before it. */
module PatchMerge {
  import opened Wrappers
  import opened TreeTypes
  import opened SparseTree
  import opened BatchSpec
  import opened MergeJoin
  import opened MergeIndexed

  type TaggedUpdate = (bool, Update)

  function Tag(odd: bool, updates: seq<Update>): seq<TaggedUpdate> {
    seq(|updates|, t requires 0 <= t < |updates| => (odd, updates[t]))
  }

  function OpIndex(u: TaggedUpdate): int {
    u.1.index
  }

  function LastNode(u: TaggedUpdate): Option<NodeEntry> {
    if u.1.changes == [] then None else Some(u.1.changes[|u.1.changes| - 1].1)
  }

  /** The hash a merged item carries for its sibling node, `stored` when it carries none. */
  function NeighborHash(pred: Option<Option<NodeEntry>>, stored: ZkHash): ZkHash {
    match pred
    case Some(Some(node)) => node.hash
    case _ => stored
  }

  /** The list item of operation `i`. */
  ghost function ItemOf(b: Batch, height: nat, i: nat): TaggedUpdate
    requires b.Valid() && height < b.depth
  {
    if i < |b.keys| then (b.PathIdx(i, height) % 2 == 1, UpdateAt(b, i, height, height, true))
    else (false, Update(i, [], []))
  }

  ghost function Items(b: Batch, height: nat): (f: nat -> TaggedUpdate)
    requires b.Valid() && height < b.depth
    ensures Indexed(OpIndex, f)
  {
    (i: nat) => ItemOf(b, height, i)
  }

  lemma {:induction false} ChildIsImage(b: Batch, height: nat, idx: nat, list: seq<Update>)
    requires b.Valid() && height < b.depth && IsNodeList(b, height, idx, true, {}, list)
    ensures Image(Items(b, height), AllOpsAt(b, height, idx), Tag(idx % 2 == 1, list))
  {
    OpsAtMembers(b, height, idx, |b.keys|);
    var ops := AllOpsAt(b, height, idx);
    forall t | 0 <= t < |ops| ensures Tag(idx % 2 == 1, list)[t] == Items(b, height)(ops[t]) {
      assert ops[t] in ops;
    }
  }

  lemma {:induction false} SiblingsDisjoint(b: Batch, height: nat, idx: nat)
    ensures Disjoint(AllOpsAt(b, height, 2 * idx), AllOpsAt(b, height, 2 * idx + 1))
  {
    OpsAtMembers(b, height, 2 * idx, |b.keys|);
    OpsAtMembers(b, height, 2 * idx + 1, |b.keys|);
    var left, right := AllOpsAt(b, height, 2 * idx), AllOpsAt(b, height, 2 * idx + 1);
    forall i, j | 0 <= i < |left| && 0 <= j < |right| ensures left[i] != right[j] {
      assert left[i] in left && right[j] in right;
    }
  }

  /** `pred`, or the stored hash without it, is the node's value just before operation `i`. */
  ghost predicate ValueBefore(b: Batch, height: nat, idx: nat, i: nat, pred: Option<Option<NodeEntry>>)
    requires b.Valid() && i <= |b.keys|
  {
    NeighborHash(pred, b.NodeAfter(0, height, idx)) == b.NodeAfter(i, height, idx)
  }

  lemma {:induction false} ItemNode(b: Batch, height: nat, j: nat)
    requires b.Valid() && height < b.depth && j < |b.keys|
    ensures LastNode(ItemOf(b, height, j)).Some?
    ensures LastNode(ItemOf(b, height, j)).value.hash == b.NodeAfter(j + 1, height, b.PathIdx(j, height))
  {
    assert LastNode(ItemOf(b, height, j)) == Some(EntryAfter(b, j, height));
  }

  /** The predecessor in the sibling's list gives the sibling's value just before operation `i`. */
  lemma {:induction false} PredecessorIsSibling(b: Batch, height: nat, idx: nat, list: seq<TaggedUpdate>, i: nat)
    requires b.Valid() && height < b.depth && i < |b.keys|
    requires Image(Items(b, height), AllOpsAt(b, height, idx), list)
    ensures ValueBefore(b, height, idx, i, MaxPredecessor(OpIndex, LastNode, list, i))
  {
    OpsAtMembers(b, height, idx, |b.keys|);
    var ops := AllOpsAt(b, height, idx);
    var c := PredecessorInImage(OpIndex, LastNode, Items(b, height), ops, list, i);
    LatestWins(b, height, idx, i, c);
    if c > 0 {
      ItemNode(b, height, ops[c - 1]);
    }
  }

  /** What merging the two children of a node must give: the operations of the node in order,
      each with the value its sibling had just before. */
  ghost predicate IsMerged(b: Batch, height: nat, idx: nat, out: seq<(TaggedUpdate, Option<Option<NodeEntry>>)>)
    requires b.Valid() && height < b.depth
  {
    var ops := AllOpsAt(b, height + 1, idx);
    && |out| == |ops|
    && forall t :: 0 <= t < |ops| ==> MergedItem(b, height, ops[t], out[t])
  }

  ghost predicate MergedItem(b: Batch, height: nat, i: nat, e: (TaggedUpdate, Option<Option<NodeEntry>>))
    requires b.Valid() && height < b.depth
  {
    && i < |b.keys|
    && e.0 == ItemOf(b, height, i)
    && ValueBefore(b, height, NeighborIdx(b.PathIdx(i, height), true), i, e.1)
  }

  lemma {:induction false} EmittedFromChild(b: Batch, height: nat, child: nat, sibling: nat, others: seq<TaggedUpdate>,
      i: nat, e: (TaggedUpdate, Option<Option<NodeEntry>>))
    requires b.Valid() && height < b.depth && sibling == NeighborIdx(child, true)
    requires Image(Items(b, height), AllOpsAt(b, height, sibling), others)
    requires i in AllOpsAt(b, height, child)
    requires e.0 == Items(b, height)(i) && e.1 == MaxPredecessor(OpIndex, LastNode, others, i)
    ensures MergedItem(b, height, i, e)
  {
    OpsAtMembers(b, height, child, |b.keys|);
    PredecessorIsSibling(b, height, sibling, others, i);
  }

  lemma {:induction false} EmittedIsMerged(b: Batch, height: nat, idx: nat, left: seq<TaggedUpdate>,
      right: seq<TaggedUpdate>, i: nat, e: (TaggedUpdate, Option<Option<NodeEntry>>))
    requires b.Valid() && height < b.depth
    requires Image(Items(b, height), AllOpsAt(b, height, 2 * idx), left)
    requires Image(Items(b, height), AllOpsAt(b, height, 2 * idx + 1), right)
    requires Emitted(OpIndex, LastNode, Items(b, height), AllOpsAt(b, height, 2 * idx),
                     AllOpsAt(b, height, 2 * idx + 1), left, right, i, e)
    ensures MergedItem(b, height, i, e)
  {
    hide Image, MergedItem, Items, AllOpsAt, MaxPredecessor;
    if i in AllOpsAt(b, height, 2 * idx) && e.1 == MaxPredecessor(OpIndex, LastNode, right, i) {
      EmittedFromChild(b, height, 2 * idx, 2 * idx + 1, right, i, e);
    } else {
      EmittedFromChild(b, height, 2 * idx + 1, 2 * idx, left, i, e);
    }
  }

  lemma {:induction false} ChildrenMergeable(b: Batch, height: nat, idx: nat, left: seq<TaggedUpdate>,
      right: seq<TaggedUpdate>)
    requires b.Valid() && height < b.depth
    requires Image(Items(b, height), AllOpsAt(b, height, 2 * idx), left)
    requires Image(Items(b, height), AllOpsAt(b, height, 2 * idx + 1), right)
    ensures Increasing(OpIndex, left) && Increasing(OpIndex, right) && NoSharedKey(OpIndex, left, right)
  {
    var leftOps, rightOps := AllOpsAt(b, height, 2 * idx), AllOpsAt(b, height, 2 * idx + 1);
    OpsAtMembers(b, height, 2 * idx, |b.keys|);
    OpsAtMembers(b, height, 2 * idx + 1, |b.keys|);
    SiblingsDisjoint(b, height, idx);
    ImagesMergeable(OpIndex, Items(b, height), leftOps, rightOps, left, right);
  }

  lemma {:induction false} MergeIsMerged(b: Batch, height: nat, idx: nat, left: seq<TaggedUpdate>,
      right: seq<TaggedUpdate>)
    requires b.Valid() && height < b.depth
    requires Image(Items(b, height), AllOpsAt(b, height, 2 * idx), left)
    requires Image(Items(b, height), AllOpsAt(b, height, 2 * idx + 1), right)
    ensures IsMerged(b, height, idx, Joined(OpIndex, LastNode, left, right, 0, 0))
  {
    var leftOps, rightOps, ops := AllOpsAt(b, height, 2 * idx), AllOpsAt(b, height, 2 * idx + 1),
        AllOpsAt(b, height + 1, idx);
    OpsAtMembers(b, height, 2 * idx, |b.keys|);
    OpsAtMembers(b, height, 2 * idx + 1, |b.keys|);
    OpsAtMembers(b, height + 1, idx, |b.keys|);
    forall x ensures x in ops <==> x in leftOps || x in rightOps {
      OpInParent(b, height, idx, x);
    }
    SiblingsDisjoint(b, height, idx);
    MergeGoesThrough(OpIndex, LastNode, Items(b, height), leftOps, rightOps, ops, left, right);
    var out := Joined(OpIndex, LastNode, left, right, 0, 0);
    forall t | 0 <= t < |ops| ensures MergedItem(b, height, ops[t], out[t]) {
      EmittedIsMerged(b, height, idx, left, right, ops[t], out[t]);
    }
  }

  function Flat(updates: Option<seq<Update>>): seq<Update> {
    match updates
    case None => []
    case Some(us) => us
  }

  lemma {:induction false} ListsMerge(b: Batch, height: nat, idx: nat, leftList: seq<Update>, rightList: seq<Update>)
    requires b.Valid() && height < b.depth
    requires IsNodeList(b, height, 2 * idx, true, {}, leftList)
    requires IsNodeList(b, height, 2 * idx + 1, true, {}, rightList)
    ensures var left, right := Tag(false, leftList), Tag(true, rightList);
            && Increasing(OpIndex, left) && Increasing(OpIndex, right) && NoSharedKey(OpIndex, left, right)
            && IsMerged(b, height, idx, Joined(OpIndex, LastNode, left, right, 0, 0))
  {
    hide IsNodeList, IsMerged, Joined, Increasing, NoSharedKey, Tag;
    var left, right := Tag(false, leftList), Tag(true, rightList);
    ChildIsImage(b, height, 2 * idx, leftList);
    ChildIsImage(b, height, 2 * idx + 1, rightList);
    ChildrenMergeable(b, height, idx, left, right);
    MergeIsMerged(b, height, idx, left, right);
  }

  /** Merges the updates of the two children of a node. */
  method MergeChildren(leftUpdates: Option<seq<Update>>, rightUpdates: Option<seq<Update>>, ghost b: Batch,
      ghost height: nat, ghost idx: nat)
    returns (merged: seq<(TaggedUpdate, Option<Option<NodeEntry>>)>)
    requires b.Valid() && height < b.depth
    requires IsNodeList(b, height, 2 * idx, true, {}, Flat(leftUpdates))
    requires IsNodeList(b, height, 2 * idx + 1, true, {}, Flat(rightUpdates))
    ensures IsMerged(b, height, idx, merged)
  {
    var left, right := Flat(leftUpdates), Flat(rightUpdates);
    ListsMerge(b, height, idx, left, right);
    merged := Collect(Tag(false, left), Tag(true, right), OpIndex, LastNode);
  }
}
