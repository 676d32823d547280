/** The simple form that the batched computation must agree with: a full binary tree
    over a map of leaves, hashed bottom-up, and changed one leaf at a time. */
module SparseTree {
  import opened TreeTypes

  datatype PoseidonType = LeafNode | BranchNode

  /** The compression function is a parameter: nothing is assumed about it. */
  datatype Hasher = Hasher(compress: (ZkHash, ZkHash, PoseidonType) -> ZkHash)

  /** Leaf values by tree index; an absent leaf holds the default value. */
  type Leaves = map<nat, TreeValue>

  function LeafValue(m: Leaves, k: nat): (v: TreeValue)
    ensures v == if k in m then m[k] else TreeKey(0, 0, 0, 0)
  {
    if k in m then m[k] else DEFAULT_KEY
  }

  function KindAt(height: nat): PoseidonType {
    if height <= 1 then LeafNode else BranchNode
  }

  /** Hash of the node with index `idx`, `height` levels above the leaves. */
  function Node(h: Hasher, m: Leaves, height: nat, idx: nat): ZkHash {
    if height == 0 then LeafValue(m, idx)
    else h.compress(Node(h, m, height - 1, 2 * idx), Node(h, m, height - 1, 2 * idx + 1), KindAt(height))
  }

  function Root(h: Hasher, m: Leaves, depth: nat): ZkHash {
    Node(h, m, depth, 0)
  }

  /** The index of the node's sibling (`idx ^ 1`), or of the node itself. */
  function NeighborIdx(idx: nat, neighbor: bool): nat {
    if !neighbor then idx else if idx % 2 == 0 then idx + 1 else idx - 1
  }

  lemma {:induction false} NodeUntouched(h: Hasher, m: Leaves, height: nat, idx: nat, k: nat, v: TreeValue)
    requires Shr(k, height) != idx
    ensures Node(h, m[k := v], height, idx) == Node(h, m, height, idx)
  {
    if height > 0 {
      NodeUntouched(h, m, height - 1, 2 * idx, k, v);
      NodeUntouched(h, m, height - 1, 2 * idx + 1, k, v);
    }
  }

  /** Only the leaf values below a node matter for its hash. */
  lemma {:induction false} NodeSameLeaves(h: Hasher, m: Leaves, m': Leaves, height: nat, idx: nat)
    requires forall k :: Shr(k, height) == idx ==> LeafValue(m, k) == LeafValue(m', k)
    ensures Node(h, m, height, idx) == Node(h, m', height, idx)
  {
    if height > 0 {
      NodeSameLeaves(h, m, m', height - 1, 2 * idx);
      NodeSameLeaves(h, m, m', height - 1, 2 * idx + 1);
    } else {
      assert Shr(idx, 0) == idx;
    }
  }

  /** A tree of depth 2 in full: even children go left, pairs of leaves are hashed as leaves, everything
      above as branches, and a leaf that is not there is four zeros. */
  lemma TreeOfFour(h: Hasher, a: TreeValue, b: TreeValue)
    ensures Root(h, map[1 := a, 2 := b], 2)
         == h.compress(h.compress(TreeKey(0, 0, 0, 0), a, LeafNode), h.compress(b, TreeKey(0, 0, 0, 0), LeafNode),
                       BranchNode)
  {
    assert Node(h, map[1 := a, 2 := b], 1, 0) == h.compress(TreeKey(0, 0, 0, 0), a, LeafNode);
    assert Node(h, map[1 := a, 2 := b], 1, 1) == h.compress(b, TreeKey(0, 0, 0, 0), LeafNode);
  }

  // ---------------------------------------------------------------- A batch, one operation at a time

  /** Operations on a tree of depth `depth` whose leaves are `base`: operation `i` sets
      the leaf `keys[i]` to `values[i]`. */
  datatype Batch = Batch(hasher: Hasher, depth: nat, base: Leaves, keys: seq<TreeKey>, values: seq<TreeValue>) {
    ghost predicate Valid() {
      && 1 <= depth <= 256 && |keys| == |values|
      && forall i :: 0 <= i < |keys| ==> InTree(depth, keys[i])
    }

    ghost function Key(i: nat): nat
      requires i < |keys|
    {
      ToU256(keys[i])
    }

    /** The leaves after the first `i` operations. */
    ghost function After(i: nat): Leaves
      requires Valid() && i <= |keys|
    {
      if i == 0 then base else After(i - 1)[Key(i - 1) := values[i - 1]]
    }

    ghost function NodeAfter(i: nat, height: nat, idx: nat): ZkHash
      requires Valid() && i <= |keys|
    {
      Node(hasher, After(i), height, idx)
    }

    /** The node on the path of operation `i` at the given height. */
    ghost function PathIdx(i: nat, height: nat): nat
      requires i < |keys|
    {
      Shr(Key(i), height)
    }

    ghost predicate Touches(i: nat, height: nat, idx: nat)
      requires i < |keys|
    {
      PathIdx(i, height) == idx
    }

    lemma {:induction false} NodeBetween(i: nat, j: nat, height: nat, idx: nat)
      requires Valid() && i <= j <= |keys|
      requires forall t :: i <= t < j ==> !Touches(t, height, idx)
      ensures NodeAfter(j, height, idx) == NodeAfter(i, height, idx)
    {
      if i < j {
        assert !Touches(j - 1, height, idx);
        NodeUntouched(hasher, After(j - 1), height, idx, Key(j - 1), values[j - 1]);
        NodeBetween(i, j - 1, height, idx);
      }
    }

    /** An operation never changes the sibling of a node on its own path. */
    lemma {:induction false} SiblingUntouched(i: nat, height: nat)
      requires Valid() && i < |keys|
      ensures var s := NeighborIdx(PathIdx(i, height), true);
              NodeAfter(i + 1, height, s) == NodeAfter(i, height, s)
    {
      var s := NeighborIdx(PathIdx(i, height), true);
      NodeUntouched(hasher, After(i), height, s, Key(i), values[i]);
    }

    lemma {:induction false} OwnLeaf(i: nat)
      requires Valid() && i < |keys|
      ensures NodeAfter(i + 1, 0, PathIdx(i, 0)) == values[i]
    {
    }

    lemma {:induction false} PathIdxFits(i: nat, height: nat)
      requires Valid() && i < |keys| && height <= depth
      ensures PathIdx(i, height) < Pow2(depth - height)
      ensures ToU256(FromU256(PathIdx(i, height))) == PathIdx(i, height)
    {
      ShrBound(Key(i), height, depth - height);
      ShrShrinks(Key(i), height);
      U256OfKey(keys[i]);
      KeyOfU256(PathIdx(i, height));
    }
  }
}
