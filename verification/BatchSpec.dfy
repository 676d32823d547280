/** What every intermediate value of the batched computation has to be, written in terms
    of the tree after each single operation. */
module BatchSpec {
  import opened Wrappers
  import opened TreeTypes
  import opened SparseTree
  import opened MergeIndexed

  /** One operation's way up: its remaining sibling (or own) hashes, root side first, and
      the nodes changed so far, leaf first. */
  datatype Update = Update(index: nat, uncles: seq<ZkHash>, changes: seq<(TreeKey, NodeEntry)>)

  datatype HashTrace = HashTrace(hash: ZkHash, path: ZkHash, sibling: ZkHash, prePath: ZkHash, preHash: ZkHash)

  // ---------------------------------------------------------------- Operations below a node

  /** The operations among the first `n` whose path contains the node, in order. */
  ghost function OpsAt(b: Batch, height: nat, idx: nat, n: nat): seq<nat>
    requires n <= |b.keys|
  {
    if n == 0 then []
    else OpsAt(b, height, idx, n - 1) + (if b.Touches(n - 1, height, idx) then [n - 1] else [])
  }

  ghost function AllOpsAt(b: Batch, height: nat, idx: nat): seq<nat> {
    OpsAt(b, height, idx, |b.keys|)
  }

  lemma {:induction false} OpsAtMembers(b: Batch, height: nat, idx: nat, n: nat)
    requires n <= |b.keys|
    ensures Ascending(OpsAt(b, height, idx, n))
    ensures forall i :: i in OpsAt(b, height, idx, n) <==> 0 <= i < n && b.Touches(i, height, idx)
  {
    if n > 0 {
      OpsAtMembers(b, height, idx, n - 1);
      var rest := OpsAt(b, height, idx, n - 1);
      assert forall t :: 0 <= t < |rest| ==> rest[t] in rest;
    }
  }

  /** The operations below a node are those below its two children. */
  lemma {:induction false} OpInParent(b: Batch, height: nat, idx: nat, i: nat)
    ensures i in AllOpsAt(b, height + 1, idx) <==>
              i in AllOpsAt(b, height, 2 * idx) || i in AllOpsAt(b, height, 2 * idx + 1)
  {
    OpsAtMembers(b, height + 1, idx, |b.keys|);
    OpsAtMembers(b, height, 2 * idx, |b.keys|);
    OpsAtMembers(b, height, 2 * idx + 1, |b.keys|);
  }

  // ---------------------------------------------------------------- Closed forms

  /** The stored hashes next to the path of operation `i` (or on it), level 1 first. */
  ghost function PathHashes(b: Batch, i: nat, neighbor: bool): seq<ZkHash>
    requires b.Valid() && i < |b.keys|
  {
    seq(b.depth, d requires 0 <= d < b.depth =>
      b.NodeAfter(0, b.depth - 1 - d, NeighborIdx(b.PathIdx(i, b.depth - 1 - d), neighbor)))
  }

  /** The node of operation `i`'s path at `height`, as operation `i` leaves it. */
  ghost function EntryAfter(b: Batch, i: nat, height: nat): NodeEntry
    requires b.Valid() && i < |b.keys| && height <= b.depth
  {
    var idx := b.PathIdx(i, height);
    if height == 0 then Leaf(b.NodeAfter(i + 1, 0, idx))
    else Branch(b.NodeAfter(i + 1, height, idx),
                b.NodeAfter(i + 1, height - 1, 2 * idx), b.NodeAfter(i + 1, height - 1, 2 * idx + 1))
  }

  /** The changed nodes of operation `i` from the leaf up to `height`. */
  ghost function ChangesUpTo(b: Batch, i: nat, height: nat): seq<(TreeKey, NodeEntry)>
    requires b.Valid() && i < |b.keys| && height <= b.depth
  {
    seq(height + 1, j requires 0 <= j <= height => (FromU256(b.PathIdx(i, j)), EntryAfter(b, i, j)))
  }

  ghost function UpdateAt(b: Batch, i: nat, uncleHeight: nat, changeHeight: nat, neighbor: bool): Update
    requires b.Valid() && i < |b.keys| && uncleHeight <= b.depth && changeHeight <= b.depth
  {
    Update(i, PathHashes(b, i, neighbor)[..b.depth - uncleHeight], ChangesUpTo(b, i, changeHeight))
  }

  /** At the root nothing can be done any more. */
  ghost predicate AtLevel(b: Batch, height: nat, done: set<nat>) {
    b.Valid() && height <= b.depth && (height == b.depth ==> done == {})
  }

  ghost function IndicesAt(b: Batch, height: nat): set<nat> {
    set i | 0 <= i < |b.keys| :: b.PathIdx(i, height)
  }

  /** The list of a node: the operations below it in order; those in `done` already have
      their next change. */
  ghost predicate IsNodeList(b: Batch, height: nat, idx: nat, neighbor: bool, done: set<nat>, list: seq<Update>)
    requires AtLevel(b, height, done)
  {
    var ops := AllOpsAt(b, height, idx);
    && |list| == |ops|
    && forall t :: 0 <= t < |ops| ==>
         ops[t] < |b.keys| && list[t] == UpdateAt(b, ops[t], height, if ops[t] in done then height + 1 else height,
                                                  neighbor)
  }

  /** A whole level: every touched node with its list. */
  ghost predicate IsLevel(b: Batch, height: nat, neighbor: bool, done: set<nat>, m: map<nat, seq<Update>>)
    requires AtLevel(b, height, done)
  {
    && m.Keys == IndicesAt(b, height)
    && forall idx :: idx in m ==> IsNodeList(b, height, idx, neighbor, done, m[idx])
  }

  /** The hashing step of operation `i` from `height` to `height + 1`. */
  ghost function TraceAt(b: Batch, i: nat, height: nat): HashTrace
    requires b.Valid() && i < |b.keys| && height < b.depth
  {
    var idx := b.PathIdx(i, height);
    HashTrace(b.NodeAfter(i + 1, height + 1, b.PathIdx(i, height + 1)),
              b.NodeAfter(i + 1, height, idx),
              b.NodeAfter(i, height, NeighborIdx(idx, true)),
              b.NodeAfter(i, height, idx),
              b.NodeAfter(i, height + 1, b.PathIdx(i, height + 1)))
  }

  // ---------------------------------------------------------------- Facts about the closed forms

  lemma {:induction false} UntouchedNode(b: Batch, height: nat, idx: nat)
    requires idx !in IndicesAt(b, height)
    ensures AllOpsAt(b, height, idx) == []
  {
    OpsAtMembers(b, height, idx, |b.keys|);
    forall i | 0 <= i < |b.keys| ensures !b.Touches(i, height, idx) {
      assert b.PathIdx(i, height) in IndicesAt(b, height);
    }
    EmptyIffNoMember(AllOpsAt(b, height, idx));
  }

  /** Before operation `i`, a node holds what the latest earlier operation below it left,
      or its stored hash when there is none. `c` counts the earlier operations. */
  lemma {:induction false} LatestWins(b: Batch, height: nat, idx: nat, i: nat, c: nat)
    requires b.Valid() && i <= |b.keys|
    requires c <= |AllOpsAt(b, height, idx)|
    requires c > 0 ==> AllOpsAt(b, height, idx)[c - 1] < i
    requires c < |AllOpsAt(b, height, idx)| ==> AllOpsAt(b, height, idx)[c] >= i
    ensures c == 0 ==> b.NodeAfter(i, height, idx) == b.NodeAfter(0, height, idx)
    ensures c > 0 ==> var j := AllOpsAt(b, height, idx)[c - 1];
                      && j < |b.keys| && b.Touches(j, height, idx)
                      && b.NodeAfter(i, height, idx) == b.NodeAfter(j + 1, height, idx)
  {
    OpsAtMembers(b, height, idx, |b.keys|);
    var ops := AllOpsAt(b, height, idx);
    var from := if c == 0 then 0 else ops[c - 1] + 1;
    assert c > 0 ==> ops[c - 1] in ops;
    forall t | from <= t < i ensures !b.Touches(t, height, idx) {
      forall p | 0 <= p < |ops| ensures ops[p] != t {
        assert if p >= c then ops[p] >= ops[c] else ops[p] <= ops[c - 1];
      }
    }
    b.NodeBetween(from, i, height, idx);
  }

  /** One hashing step, whichever side the path comes from. */
  lemma {:induction false} StepUp(b: Batch, i: nat, j: nat, height: nat)
    requires b.Valid() && i < |b.keys| && height < b.depth && j <= |b.keys|
    ensures var idx, up := b.PathIdx(i, height), b.PathIdx(i, height + 1);
            var own, nei := b.NodeAfter(j, height, idx), b.NodeAfter(j, height, NeighborIdx(idx, true));
            && up == idx / 2
            && (idx % 2 == 1 ==> idx == 2 * up + 1 && NeighborIdx(idx, true) == 2 * up
                                 && b.NodeAfter(j, height + 1, up) == b.hasher.compress(nei, own, KindAt(height + 1)))
            && (idx % 2 == 0 ==> idx == 2 * up && NeighborIdx(idx, true) == 2 * up + 1
                                 && b.NodeAfter(j, height + 1, up) == b.hasher.compress(own, nei, KindAt(height + 1)))
  {
  }
}
