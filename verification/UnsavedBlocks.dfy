/** Several blocks between two saves: every block is computed from what is in the database, and the
    pending patch collects what all of them write (merkle_tree/src/tree.rs, storage.rs). */
module UnsavedBlocks {
  import opened Wrappers
  import opened TreeTypes
  import opened Bytes
  import opened SparseTree
  import opened TreeConfig
  import opened LeafEnumeration
  import opened Storage
  import opened TreeState

  /** The state that the blocks lead to if each is saved before the next. */
  function ApplyBlocks(s: State, blocks: seq<seq<KeyedOp>>): State {
    var ops := Flatten(blocks);
    State(SetLeaves(s.leaves, ops), LeafEnumeration.After(s.numbering, ops), s.blocks + |blocks|)
  }

  lemma NoBlocks(s: State)
    ensures ApplyBlocks(s, []) == s
  {
  }

  lemma OneBlock(s: State, ops: seq<KeyedOp>)
    ensures Flatten([ops]) == ops && ApplyBlocks(s, [ops]) == ApplyBlock(s, ops)
  {
    assert [ops][..0] == [];
  }

  // ---------------------------------------------------------------- What the pending patch holds

  ghost predicate Touched(ops: seq<KeyedOp>, height: nat, idx: nat) {
    exists i :: 0 <= i < |ops| && Shr(ToU256(ops[i].0), height) == idx
  }

  /** A node as the last block that touches it left it; that block saw the saved leaves only. */
  ghost function NodeOfBlocks(h: Hasher, leaves: Leaves, blocks: seq<seq<KeyedOp>>, height: nat, idx: nat): ZkHash {
    if blocks == [] then Node(h, leaves, height, idx)
    else if Touched(blocks[|blocks| - 1], height, idx) then
      Node(h, SetLeaves(leaves, blocks[|blocks| - 1]), height, idx)
    else NodeOfBlocks(h, leaves, blocks[..|blocks| - 1], height, idx)
  }

  /** The numbering that the patch holds: every block numbers from the saved counter. */
  function Staged(e: Enumeration, blocks: seq<seq<KeyedOp>>): Enumeration {
    if blocks == [] then e
    else Overlay(Staged(e, blocks[..|blocks| - 1]), LeafEnumeration.After(e, blocks[|blocks| - 1]))
  }

  ghost predicate HoldsNodes(config: Config, column: Column, leaves: Leaves, blocks: seq<seq<KeyedOp>>)
    requires config.Valid()
  {
    && NodesHave32Bytes(column)
    && forall level: nat, idx: nat :: level <= config.depth ==>
         StoredNode(config, column, level, idx)
         == NodeOfBlocks(config.hasher, leaves, blocks, config.depth - level, idx)
  }

  /** The database with the pending patch on top, after these blocks. */
  ghost predicate HoldsBlocks(config: Config, column: Column, s: State, blocks: seq<seq<KeyedOp>>)
    requires config.Valid()
  {
    HoldsNodes(config, column, s.leaves, blocks) && HoldsIndices(column, Staged(s.numbering, blocks))
  }

  /** One more block: it decides the nodes that it touches. */
  lemma {:induction false} OneMoreBlock(h: Hasher, leaves: Leaves, blocks: seq<seq<KeyedOp>>, ops: seq<KeyedOp>,
      height: nat, idx: nat)
    ensures Touched(ops, height, idx) ==>
              NodeOfBlocks(h, leaves, blocks + [ops], height, idx) == Node(h, SetLeaves(leaves, ops), height, idx)
    ensures !Touched(ops, height, idx) ==>
              NodeOfBlocks(h, leaves, blocks + [ops], height, idx) == NodeOfBlocks(h, leaves, blocks, height, idx)
  {
    assert (blocks + [ops])[..|blocks|] == blocks;
  }

  lemma {:induction false} OneMoreStaged(e: Enumeration, blocks: seq<seq<KeyedOp>>, ops: seq<KeyedOp>)
    ensures Staged(e, blocks + [ops]) == Overlay(Staged(e, blocks), LeafEnumeration.After(e, ops))
  {
    assert (blocks + [ops])[..|blocks|] == blocks;
  }

  lemma {:induction false} NothingStaged(config: Config, column: Column, s: State)
    requires config.Valid()
    ensures HoldsBlocks(config, column, s, [])
       <==> HoldsTree(config, column, s.leaves) && HoldsIndices(column, s.numbering)
  {
    forall height: nat, idx: nat
      ensures NodeOfBlocks(config.hasher, s.leaves, [], height, idx) == Node(config.hasher, s.leaves, height, idx)
    {
    }
    if HoldsTree(config, column, s.leaves) {
      assert HoldsNodes(config, column, s.leaves, []);
    }
    if HoldsNodes(config, column, s.leaves, []) {
      assert HoldsTree(config, column, s.leaves);
    }
  }

  // ---------------------------------------------------------------- When the nodes are right

  ghost predicate Sets(ops: seq<KeyedOp>, key: TreeKey) {
    exists j :: 0 <= j < |ops| && ops[j].0 == key
  }

  /** Every leaf that the first operations change is set again by the second ones. */
  ghost predicate ResetBy(leaves: Leaves, first: seq<KeyedOp>, second: seq<KeyedOp>) {
    forall i :: 0 <= i < |first| ==>
      || Sets(second, first[i].0)
      || LeafValue(SetLeaves(leaves, first), ToU256(first[i].0)) == LeafValue(leaves, ToU256(first[i].0))
  }

  lemma {:induction false} ResetLeaf(leaves: Leaves, first: seq<KeyedOp>, second: seq<KeyedOp>, k: nat)
    requires ResetBy(leaves, first, second)
    ensures LeafValue(SetLeaves(leaves, second), k) == LeafValue(SetLeaves(SetLeaves(leaves, first), second), k)
  {
    var both := SetLeaves(leaves, first);
    SetLeafDepends(leaves, both, second, k);
    SetLeafDepends(both, leaves, second, k);
    SetLeafDepends(leaves, leaves, first, k);
    if (forall j :: 0 <= j < |second| ==> ToU256(second[j].0) != k)
       && exists i :: 0 <= i < |first| && ToU256(first[i].0) == k
    {
      var i :| 0 <= i < |first| && ToU256(first[i].0) == k;
      assert !Sets(second, first[i].0);
    }
  }

  /** No operation touches the node: none sets a leaf below it. */
  lemma {:induction false} UntouchedLeaf(leaves: Leaves, ops: seq<KeyedOp>, height: nat, k: nat)
    requires !Touched(ops, height, Shr(k, height))
    ensures LeafValue(SetLeaves(leaves, ops), k) == LeafValue(leaves, k)
  {
    SetLeafDepends(leaves, leaves, ops, k);
  }

  /** A node below which the blocks together change no leaf is left as it was. */
  lemma {:induction false} UnchangedNode(h: Hasher, leaves: Leaves, blocks: seq<seq<KeyedOp>>, height: nat, idx: nat)
    requires forall k :: Shr(k, height) == idx ==>
               LeafValue(SetLeaves(leaves, Flatten(blocks)), k) == LeafValue(leaves, k)
    ensures NodeOfBlocks(h, leaves, blocks, height, idx) == Node(h, leaves, height, idx)
  {
    if blocks != [] {
      var n := |blocks| - 1;
      var earlier, last := Flatten(blocks[..n]), blocks[n];
      SetLeavesConcat(leaves, earlier, last);
      if Touched(last, height, idx) {
        forall k | Shr(k, height) == idx ensures LeafValue(SetLeaves(leaves, last), k) == LeafValue(leaves, k) {
          SetLeafDepends(leaves, SetLeaves(leaves, earlier), last, k);
        }
        NodeSameLeaves(h, SetLeaves(leaves, last), leaves, height, idx);
      } else {
        forall k | Shr(k, height) == idx ensures LeafValue(SetLeaves(leaves, earlier), k) == LeafValue(leaves, k) {
          UntouchedLeaf(SetLeaves(leaves, earlier), last, height, k);
        }
        UnchangedNode(h, leaves, blocks[..n], height, idx);
      }
    }
  }

  /** If the last block sets again what the earlier ones changed, every node is the right one. */
  lemma {:induction false} NodesRight(h: Hasher, leaves: Leaves, blocks: seq<seq<KeyedOp>>, height: nat, idx: nat)
    requires blocks != [] && ResetBy(leaves, Flatten(blocks[..|blocks| - 1]), blocks[|blocks| - 1])
    ensures NodeOfBlocks(h, leaves, blocks, height, idx) == Node(h, SetLeaves(leaves, Flatten(blocks)), height, idx)
  {
    var n := |blocks| - 1;
    var earlier, last, all := Flatten(blocks[..n]), blocks[n], SetLeaves(leaves, Flatten(blocks));
    SetLeavesConcat(leaves, earlier, last);
    forall k ensures LeafValue(SetLeaves(leaves, last), k) == LeafValue(all, k) {
      ResetLeaf(leaves, earlier, last, k);
    }
    NodeSameLeaves(h, SetLeaves(leaves, last), all, height, idx);
    if !Touched(last, height, idx) {
      forall k | Shr(k, height) == idx
        ensures LeafValue(SetLeaves(leaves, last), k) == LeafValue(leaves, k)
        ensures LeafValue(SetLeaves(leaves, earlier), k) == LeafValue(leaves, k)
      {
        UntouchedLeaf(leaves, last, height, k);
        UntouchedLeaf(SetLeaves(leaves, earlier), last, height, k);
      }
      NodeSameLeaves(h, SetLeaves(leaves, last), leaves, height, idx);
      UnchangedNode(h, leaves, blocks[..n], height, idx);
    }
  }

  ghost predicate SameHashSameNode(h: Hasher, m: Leaves, m': Leaves, height: nat, idx: nat) {
    Node(h, m, height + 1, idx) == Node(h, m', height + 1, idx) ==>
      && Node(h, m, height, 2 * idx) == Node(h, m', height, 2 * idx)
      && Node(h, m, height, 2 * idx + 1) == Node(h, m', height, 2 * idx + 1)
  }

  /** The two trees show no collision: equal hashes at a node come from equal children. */
  ghost predicate NoCollisionBetween(h: Hasher, m: Leaves, m': Leaves, depth: nat) {
    forall height: nat, idx: nat :: height < depth ==> SameHashSameNode(h, m, m', height, idx)
  }

  lemma {:induction false} EqualNodesEqualLeaves(h: Hasher, m: Leaves, m': Leaves, depth: nat, height: nat, key: nat)
    requires NoCollisionBetween(h, m, m', depth) && height <= depth
    requires Node(h, m, height, Shr(key, height)) == Node(h, m', height, Shr(key, height))
    ensures LeafValue(m, key) == LeafValue(m', key)
  {
    if height > 0 {
      assert SameHashSameNode(h, m, m', height - 1, Shr(key, height));
      var child := Shr(key, height - 1);
      assert child == 2 * Shr(key, height) || child == 2 * Shr(key, height) + 1;
      EqualNodesEqualLeaves(h, m, m', depth, height - 1, key);
    }
  }

  lemma {:induction false} RightRootIsReset(h: Hasher, depth: nat, leaves: Leaves, first: seq<KeyedOp>,
      second: seq<KeyedOp>)
    requires OpsInTree(depth, first)
    requires NoCollisionBetween(h, SetLeaves(leaves, second), SetLeaves(SetLeaves(leaves, first), second), depth)
    requires Root(h, SetLeaves(leaves, second), depth) == Root(h, SetLeaves(SetLeaves(leaves, first), second), depth)
    ensures ResetBy(leaves, first, second)
  {
    var m, m' := SetLeaves(leaves, second), SetLeaves(SetLeaves(leaves, first), second);
    forall i | 0 <= i < |first| && !Sets(second, first[i].0)
      ensures LeafValue(SetLeaves(leaves, first), ToU256(first[i].0)) == LeafValue(leaves, ToU256(first[i].0))
    {
      var k := ToU256(first[i].0);
      ShrBound(k, depth, 0);
      EqualNodesEqualLeaves(h, m, m', depth, depth, k);
      forall j | 0 <= j < |second| ensures ToU256(second[j].0) != k {
        U256OfKey(second[j].0);
        U256OfKey(first[i].0);
      }
      SetLeafDepends(leaves, leaves, second, k);
      SetLeafDepends(SetLeaves(leaves, first), leaves, second, k);
    }
  }

  /** The root of the second of two blocks is right exactly if every leaf the first one changed is
      set again. */
  lemma {:induction false} SecondBlockRoot(h: Hasher, depth: nat, leaves: Leaves, first: seq<KeyedOp>,
      second: seq<KeyedOp>)
    requires OpsInTree(depth, first)
    requires NoCollisionBetween(h, SetLeaves(leaves, second), SetLeaves(SetLeaves(leaves, first), second), depth)
    ensures Root(h, SetLeaves(leaves, second), depth) == Root(h, SetLeaves(SetLeaves(leaves, first), second), depth)
            <==> ResetBy(leaves, first, second)
  {
    if ResetBy(leaves, first, second) {
      forall k
        ensures LeafValue(SetLeaves(leaves, second), k) == LeafValue(SetLeaves(SetLeaves(leaves, first), second), k)
      {
        ResetLeaf(leaves, first, second, k);
      }
      NodeSameLeaves(h, SetLeaves(leaves, second), SetLeaves(SetLeaves(leaves, first), second), depth, 0);
    }
    if Root(h, SetLeaves(leaves, second), depth) == Root(h, SetLeaves(SetLeaves(leaves, first), second), depth) {
      RightRootIsReset(h, depth, leaves, first, second);
    }
  }

  /** Keys within the tree all lie below the root. */
  lemma {:induction false} RootTouched(depth: nat, ops: seq<KeyedOp>)
    requires ops != [] && InTree(depth, ops[0].0)
    ensures Touched(ops, depth, 0)
  {
    ShrBound(ToU256(ops[0].0), depth, 0);
  }

  /** After a save of several blocks the database holds the tree of all of them exactly if the last
      block sets every leaf again that the earlier ones changed. */
  lemma {:induction false} SavedNodesRight(config: Config, column: Column, leaves: Leaves, blocks: seq<seq<KeyedOp>>)
    requires config.Valid() && HoldsNodes(config, column, leaves, blocks) && blocks != []
    requires OpsInTree(config.depth, Flatten(blocks)) && blocks[|blocks| - 1] != []
    requires NoCollisionBetween(config.hasher, SetLeaves(leaves, blocks[|blocks| - 1]),
               SetLeaves(leaves, Flatten(blocks)), config.depth)
    ensures HoldsTree(config, column, SetLeaves(leaves, Flatten(blocks)))
       <==> ResetBy(leaves, Flatten(blocks[..|blocks| - 1]), blocks[|blocks| - 1])
  {
    var n := |blocks| - 1;
    var earlier, last := Flatten(blocks[..n]), blocks[n];
    if ResetBy(leaves, earlier, last) {
      ResetNodesRight(config, column, leaves, blocks);
    }
    if HoldsTree(config, column, SetLeaves(leaves, Flatten(blocks))) {
      SetLeavesConcat(leaves, earlier, last);
      assert OpsInTree(config.depth, earlier) && InTree(config.depth, last[0].0) by {
        assert forall i :: 0 <= i < |earlier| ==> Flatten(blocks)[i] == earlier[i];
        assert Flatten(blocks)[|earlier|] == last[0];
      }
      RootTouched(config.depth, last);
      assert StoredNode(config, column, 0, 0) == Root(config.hasher, SetLeaves(leaves, last), config.depth);
      RightRootIsReset(config.hasher, config.depth, leaves, earlier, last);
    }
  }

  lemma {:induction false} ResetNodesRight(config: Config, column: Column, leaves: Leaves, blocks: seq<seq<KeyedOp>>)
    requires config.Valid() && HoldsNodes(config, column, leaves, blocks) && blocks != []
    requires ResetBy(leaves, Flatten(blocks[..|blocks| - 1]), blocks[|blocks| - 1])
    ensures HoldsTree(config, column, SetLeaves(leaves, Flatten(blocks)))
  {
    forall level: nat, idx: nat | level <= config.depth
      ensures StoredNode(config, column, level, idx)
           == Node(config.hasher, SetLeaves(leaves, Flatten(blocks)), config.depth - level, idx)
    {
      NodesRight(config.hasher, leaves, blocks, config.depth - level, idx);
    }
  }

  // ---------------------------------------------------------------- When the numbering is right

  /** The keys that a list of operations numbers, in the order of their indices. */
  function NewKeys(e: Enumeration, ops: seq<KeyedOp>): seq<TreeKey> {
    if ops == [] then []
    else
      var before, (key, op) := LeafEnumeration.After(e, ops[..|ops| - 1]), ops[|ops| - 1];
      NewKeys(e, ops[..|ops| - 1]) + (if op.Write? && key !in before.indices then [key] else [])
  }

  lemma {:induction false} NewKeysNumber(e: Enumeration, ops: seq<KeyedOp>)
    ensures var (f, keys) := (LeafEnumeration.After(e, ops), NewKeys(e, ops));
            && f.next == e.next + |keys|
            && (forall k :: k in f.indices <==> k in e.indices || k in keys)
            && (forall t :: 0 <= t < |keys| ==> keys[t] in f.indices && f.indices[keys[t]] == e.next + t)
            && (forall k :: k in keys ==> k !in e.indices)
            && (forall k :: k in e.indices ==> f.indices[k] == e.indices[k])
  {
    if ops != [] {
      var n := |ops| - 1;
      NewKeysNumber(e, ops[..n]);
      var keys := NewKeys(e, ops[..n]);
      forall t | 0 <= t < |keys| ensures keys[t] in keys {
      }
    }
  }

  /** The new keys determine the numbering, and the other way round. */
  lemma {:induction false} NewKeysDetermine(e: Enumeration, a: seq<KeyedOp>, b: seq<KeyedOp>)
    requires Bijective(e)
    ensures LeafEnumeration.After(e, a) == LeafEnumeration.After(e, b) <==> NewKeys(e, a) == NewKeys(e, b)
  {
    NewKeysNumber(e, a);
    NewKeysNumber(e, b);
    var f, g, ks, ls := LeafEnumeration.After(e, a), LeafEnumeration.After(e, b), NewKeys(e, a), NewKeys(e, b);
    if ks == ls {
      forall k | k in f.indices ensures f.indices[k] == g.indices[k] {
        if k in ks {
          var t :| 0 <= t < |ks| && ks[t] == k;
        }
      }
      assert f.indices == g.indices;
    }
    if f == g {
      AfterBijective(e, a);
      forall t | 0 <= t < |ks| ensures ks[t] == ls[t] {
        assert f.indices[ks[t]] == f.indices[ls[t]];
      }
    }
  }

  /** What is left of a list without the members of another. */
  function Outside(keys: seq<TreeKey>, others: seq<TreeKey>): seq<TreeKey> {
    if keys == [] then []
    else
      var last := keys[|keys| - 1];
      Outside(keys[..|keys| - 1], others) + (if last in others then [] else [last])
  }

  lemma {:induction false} OutsideNothing(keys: seq<TreeKey>, others: seq<TreeKey>)
    requires forall k :: k in keys ==> k in others
    ensures Outside(keys, others) == []
  {
    if keys != [] {
      OutsideNothing(keys[..|keys| - 1], others);
    }
  }

  lemma {:induction false} OutsidePrefix(keys: seq<TreeKey>, others: seq<TreeKey>)
    requires others <= keys && forall i :: |others| <= i < |keys| ==> keys[i] !in others
    ensures Outside(keys, others) == keys[|others|..]
  {
    if |keys| == |others| {
      OutsideNothing(keys, others);
    } else {
      var n := |keys| - 1;
      OutsidePrefix(keys[..n], others);
      assert keys[|others|..] == keys[..n][|others|..] + [keys[n]];
    }
  }

  /** After some operations, others number the keys they would number anyway, but for those numbered
      already. */
  lemma {:induction false} NewKeysAfter(e: Enumeration, a: seq<KeyedOp>, b: seq<KeyedOp>)
    ensures NewKeys(LeafEnumeration.After(e, a), b) == Outside(NewKeys(e, b), NewKeys(e, a))
  {
    if b != [] {
      var n := |b| - 1;
      NewKeysAfter(e, a, b[..n]);
      NumberedTwice(e, a, b[..n], b[n].0);
      OutsideStep(NewKeys(e, b[..n]), b[n].0, NewKeys(e, a));
      assert NewKeys(e, b[..n]) + [] == NewKeys(e, b[..n]);
      hide LeafEnumeration.After, Outside;
    }
  }

  lemma OutsideStep(keys: seq<TreeKey>, k: TreeKey, others: seq<TreeKey>)
    ensures Outside(keys + [k], others) == Outside(keys, others) + (if k in others then [] else [k])
  {
    assert (keys + [k])[..|keys|] == keys;
  }

  lemma {:induction false} NumberedTwice(e: Enumeration, a: seq<KeyedOp>, b: seq<KeyedOp>, k: TreeKey)
    ensures k in LeafEnumeration.After(LeafEnumeration.After(e, a), b).indices
       <==> k in LeafEnumeration.After(e, b).indices || k in NewKeys(e, a)
  {
    NewKeysNumber(e, a);
    AfterKeys(LeafEnumeration.After(e, a), b);
    AfterKeys(e, b);
  }

  lemma {:induction false} NewKeysDiffer(e: Enumeration, ops: seq<KeyedOp>)
    ensures forall t, i :: 0 <= t < i < |NewKeys(e, ops)| ==> NewKeys(e, ops)[t] != NewKeys(e, ops)[i]
  {
    NewKeysNumber(e, ops);
  }

  lemma {:induction false} NewKeysConcat(e: Enumeration, a: seq<KeyedOp>, b: seq<KeyedOp>)
    ensures NewKeys(e, a + b) == NewKeys(e, a) + NewKeys(LeafEnumeration.After(e, a), b)
  {
    if b == [] {
      assert a + b == a;
    } else {
      var n := |b| - 1;
      assert (a + b)[..|a| + n] == a + b[..n];
      NewKeysConcat(e, a, b[..n]);
      AfterConcat(e, a, b[..n]);
    }
  }

  /** Numbering the second operations alone gives what numbering both gives exactly if the keys that
      the first ones number are, in this order, the first ones that the second ones number. */
  lemma {:induction false} LastNumbersAll(e: Enumeration, first: seq<KeyedOp>, second: seq<KeyedOp>)
    requires Bijective(e)
    ensures LeafEnumeration.After(e, second) == LeafEnumeration.After(e, first + second)
       <==> NewKeys(e, first) <= NewKeys(e, second)
  {
    var ks, ls := NewKeys(e, first), NewKeys(e, second);
    NewKeysDetermine(e, second, first + second);
    NewKeysConcat(e, first, second);
    NewKeysAfter(e, first, second);
    if ks <= ls {
      NewKeysDiffer(e, second);
      forall i, t | |ks| <= i < |ls| && 0 <= t < |ks| ensures ls[i] != ks[t] {
        assert ks[t] == ls[t];
      }
      OutsidePrefix(ls, ks);
    }
  }

  lemma {:induction false} StagedKeys(e: Enumeration, blocks: seq<seq<KeyedOp>>)
    ensures Staged(e, blocks).indices.Keys == LeafEnumeration.After(e, Flatten(blocks)).indices.Keys
    ensures forall k :: k in e.indices ==>
              k in Staged(e, blocks).indices && Staged(e, blocks).indices[k] == e.indices[k]
  {
    if blocks != [] {
      var n := |blocks| - 1;
      StagedKeys(e, blocks[..n]);
      AfterConcat(e, Flatten(blocks[..n]), blocks[n]);
      AfterKeys(e, blocks[n]);
      AfterKeys(e, Flatten(blocks[..n]));
      AfterKeys(LeafEnumeration.After(e, Flatten(blocks[..n])), blocks[n]);
    }
  }

  lemma {:induction false} SameSizeSameKeys(part: map<TreeKey, nat>, all: map<TreeKey, nat>)
    requires part.Keys <= all.Keys && |part| == |all|
    ensures part.Keys == all.Keys
  {
    assert |part.Keys| == |part| && |all.Keys| == |all|;
    assert all.Keys == part.Keys + (all.Keys - part.Keys);
  }

  lemma OverlayKeys(before: map<TreeKey, nat>, last: map<TreeKey, nat>, all: map<TreeKey, nat>)
    requires before.Keys <= all.Keys
    ensures before + last == all ==> last.Keys <= all.Keys && (last.Keys == all.Keys ==> last == all)
    ensures last == all ==> before + last == all
  {
  }

  lemma {:induction false} SameNextSameKeys(e: Enumeration, f: Enumeration)
    requires Bijective(e) && Bijective(f) && e.next == f.next && e.indices.Keys <= f.indices.Keys
    ensures e.indices.Keys == f.indices.Keys
  {
    BijectiveCount(e);
    BijectiveCount(f);
    SameSizeSameKeys(e.indices, f.indices);
  }

  /** The staged numbering is that of all blocks exactly if the last block alone has it. */
  lemma {:induction false} StagedIsLast(e: Enumeration, blocks: seq<seq<KeyedOp>>)
    requires Bijective(e) && blocks != []
    ensures Staged(e, blocks) == LeafEnumeration.After(e, Flatten(blocks))
       <==> LeafEnumeration.After(e, blocks[|blocks| - 1]) == LeafEnumeration.After(e, Flatten(blocks))
  {
    var n := |blocks| - 1;
    var last, all := LeafEnumeration.After(e, blocks[n]), LeafEnumeration.After(e, Flatten(blocks));
    assert Staged(e, blocks) == Overlay(Staged(e, blocks[..n]), last);
    hide Bijective, LeafEnumeration.After, Flatten, Staged;
    AfterBijective(e, blocks[n]);
    AfterBijective(e, Flatten(blocks));
    EarlierStaged(e, blocks);
    OverlayKeys(Staged(e, blocks[..n]).indices, last.indices, all.indices);
    if Staged(e, blocks) == all {
      SameNextSameKeys(last, all);
    }
  }

  lemma {:induction false} EarlierStaged(e: Enumeration, blocks: seq<seq<KeyedOp>>)
    requires blocks != []
    ensures Staged(e, blocks[..|blocks| - 1]).indices.Keys <= LeafEnumeration.After(e, Flatten(blocks)).indices.Keys
  {
    StagedKeys(e, blocks);
    StagedKeys(e, blocks[..|blocks| - 1]);
  }

  lemma {:induction false} StagedIsRight(e: Enumeration, blocks: seq<seq<KeyedOp>>)
    requires Bijective(e) && blocks != []
    ensures Staged(e, blocks) == LeafEnumeration.After(e, Flatten(blocks))
       <==> NewKeys(e, Flatten(blocks[..|blocks| - 1])) <= NewKeys(e, blocks[|blocks| - 1])
  {
    StagedIsLast(e, blocks);
    LastNumbersAll(e, Flatten(blocks[..|blocks| - 1]), blocks[|blocks| - 1]);
  }

  /** A column holds one numbering only. */
  lemma {:induction false} ColumnDetermines(column: Column, e: Enumeration, f: Enumeration)
    requires HoldsIndices(column, e) && HoldsIndices(column, f)
    ensures e == f
  {
    Pow256Values();
    forall k | k in e.indices ensures e.indices[k] == f.indices[k] {
      EncodeInjective(e.indices[k], f.indices[k], 8);
    }
    assert e.indices == f.indices;
    if LeafIndexKey in column {
      EncodeInjective(e.next, f.next, 8);
    }
  }

  /** After a save of several blocks the database holds the numbering of all of them exactly if the
      keys that the earlier ones number are the first ones that the last block numbers. */
  lemma {:induction false} SavedNumberingRight(column: Column, e: Enumeration, blocks: seq<seq<KeyedOp>>)
    requires HoldsIndices(column, Staged(e, blocks)) && Bijective(e) && blocks != []
    ensures HoldsIndices(column, LeafEnumeration.After(e, Flatten(blocks)))
       <==> NewKeys(e, Flatten(blocks[..|blocks| - 1])) <= NewKeys(e, blocks[|blocks| - 1])
  {
    StagedIsRight(e, blocks);
    if HoldsIndices(column, LeafEnumeration.After(e, Flatten(blocks))) {
      ColumnDetermines(column, LeafEnumeration.After(e, Flatten(blocks)), Staged(e, blocks));
    }
  }
}
