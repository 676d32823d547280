/** Precomputed hashes of the empty tree (merkle_tree/src/tree_config.rs). */
module TreeConfig {
  import opened Wrappers
  import opened TreeTypes
  import opened SparseTree

  datatype Config = Config(hasher: Hasher, depth: nat, emptyTree: seq<NodeEntry>) {
    ghost predicate Valid() {
      && 1 <= depth <= 256 && |emptyTree| == depth + 1
      && forall level :: 0 <= level <= depth ==> emptyTree[level].hash == EmptyHash(hasher, depth - level)
    }

    function DefaultRootHash(): ZkHash
      requires Valid()
    {
      emptyTree[0].hash
    }
  }

  ghost function EmptyHash(h: Hasher, height: nat): ZkHash {
    Node(h, map[], height, 0)
  }

  /** In the empty tree all nodes of a level are alike. */
  lemma {:induction false} EmptyNodes(h: Hasher, height: nat, idx: nat)
    ensures Node(h, map[], height, idx) == EmptyHash(h, height)
  {
    if height > 0 {
      EmptyNodes(h, height - 1, 2 * idx);
      EmptyNodes(h, height - 1, 2 * idx + 1);
      EmptyNodes(h, height - 1, 1);
    }
  }

  /** Default hashes from the root down to the leaf. */
  method CalcDefaultHashes(depth: nat, hasher: Hasher) returns (hashes: seq<ZkHash>)
    ensures |hashes| == depth + 1
    ensures forall level :: 0 <= level <= depth ==> hashes[level] == EmptyHash(hasher, depth - level)
    ensures hashes[depth] == TreeKey(0, 0, 0, 0)
    ensures forall level :: 0 <= level < depth ==>
              hashes[level] == hasher.compress(hashes[level + 1], hashes[level + 1],
                                               if level == depth - 1 then LeafNode else BranchNode)
  {
    hashes := [DEFAULT_KEY];
    for index := 0 to depth
      invariant |hashes| == index + 1
      invariant forall height :: 0 <= height <= index ==> hashes[height] == EmptyHash(hasher, height)
      invariant hashes[0] == TreeKey(0, 0, 0, 0)
      invariant forall height :: 0 < height <= index ==>
        hashes[height] == hasher.compress(hashes[height - 1], hashes[height - 1],
                                          if height == 1 then LeafNode else BranchNode)
    {
      var last := hashes[|hashes| - 1];
      EmptyNodes(hasher, index, 1);
      hashes := hashes + [hasher.compress(last, last, if index == 0 then LeafNode else BranchNode)];
    }
    hashes := Reversed(hashes);
  }

  /** Each branch of the empty tree holds the next hash twice. */
  function CalcEmptyTree(hashes: seq<ZkHash>): (tree: seq<NodeEntry>)
    ensures |tree| == |hashes| && forall i :: 0 <= i < |hashes| ==> tree[i].hash == hashes[i]
    ensures hashes != [] ==> tree[|hashes| - 1] == Leaf(hashes[|hashes| - 1])
  {
    var fromLeaf := Reversed(hashes);
    Reversed(seq(|hashes|, i requires 0 <= i < |hashes| =>
      if i == 0 then Leaf(fromLeaf[0]) else Branch(fromLeaf[i], fromLeaf[i - 1], fromLeaf[i - 1])))
  }

  lemma EmptyBranches(hashes: seq<ZkHash>)
    ensures forall i :: 0 <= i < |hashes| - 1 ==>
              CalcEmptyTree(hashes)[i] == Branch(hashes[i], hashes[i + 1], hashes[i + 1])
  {
  }

  method New(hasher: Hasher, depth: nat) returns (config: Config)
    requires 1 <= depth <= 256
    ensures config.Valid() && config.hasher == hasher && config.depth == depth
    ensures config.DefaultRootHash() == Root(hasher, map[], depth)
    ensures forall level :: 0 <= level < depth ==>
              config.emptyTree[level] == Branch(EmptyHash(hasher, depth - level), EmptyHash(hasher, depth - level - 1),
                                                EmptyHash(hasher, depth - level - 1))
    ensures config.emptyTree[depth] == Leaf(TreeKey(0, 0, 0, 0))
    ensures forall level :: 0 <= level < depth ==>
              config.emptyTree[level].hash
              == hasher.compress(config.emptyTree[level + 1].hash, config.emptyTree[level + 1].hash,
                                 if level == depth - 1 then LeafNode else BranchNode)
  {
    var hashes := CalcDefaultHashes(depth, hasher);
    EmptyBranches(hashes);
    config := Config(hasher, depth, CalcEmptyTree(hashes));
    hide CalcEmptyTree, Reversed, Node;
    forall level | 0 <= level < depth
      ensures config.emptyTree[level]
           == Branch(EmptyHash(hasher, depth - level), EmptyHash(hasher, depth - level - 1),
                     EmptyHash(hasher, depth - level - 1))
    {
      assert hashes[level + 1] == EmptyHash(hasher, depth - (level + 1));
    }
  }
}
