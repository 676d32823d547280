/** What a sequence of blocks means: leaves, leaf numbers and block count. */
module TreeState {
  import opened TreeTypes
  import opened SparseTree
  import opened LeafEnumeration

  datatype State = State(leaves: Leaves, numbering: Enumeration, blocks: nat)

  const GENESIS: State := State(map[], EMPTY, 0)

  /** Every operation sets its leaf, in order. */
  function SetLeaves(leaves: Leaves, ops: seq<KeyedOp>): Leaves {
    if ops == [] then leaves
    else SetLeaves(leaves, ops[..|ops| - 1])[ToU256(ops[|ops| - 1].0) := ops[|ops| - 1].1.value]
  }

  function ApplyBlock(s: State, ops: seq<KeyedOp>): State {
    State(SetLeaves(s.leaves, ops), LeafEnumeration.After(s.numbering, ops), s.blocks + 1)
  }

  lemma {:induction false} SetLeavesConcat(leaves: Leaves, ops: seq<KeyedOp>, more: seq<KeyedOp>)
    ensures SetLeaves(leaves, ops + more) == SetLeaves(SetLeaves(leaves, ops), more)
  {
    if more == [] {
      assert ops + more == ops;
    } else {
      var n := |more| - 1;
      assert (ops + more)[..|ops| + n] == ops + more[..n];
      SetLeavesConcat(leaves, ops, more[..n]);
    }
  }

  lemma {:induction false} OtherLeaf(leaves: Leaves, ops: seq<KeyedOp>, key: TreeKey)
    requires forall i :: 0 <= i < |ops| ==> ops[i].0 != key
    ensures LeafValue(SetLeaves(leaves, ops), ToU256(key)) == LeafValue(leaves, ToU256(key))
  {
    if ops != [] {
      OtherLeaf(leaves, ops[..|ops| - 1], key);
      U256OfKey(key);
      U256OfKey(ops[|ops| - 1].0);
    }
  }

  lemma {:induction false} SetLeafDepends(leaves: Leaves, leaves': Leaves, ops: seq<KeyedOp>, k: nat)
    ensures (exists j :: 0 <= j < |ops| && ToU256(ops[j].0) == k) ==>
              LeafValue(SetLeaves(leaves, ops), k) == LeafValue(SetLeaves(leaves', ops), k)
    ensures (forall j :: 0 <= j < |ops| ==> ToU256(ops[j].0) != k) ==>
              LeafValue(SetLeaves(leaves, ops), k) == LeafValue(leaves, k)
  {
    if ops != [] {
      var n := |ops| - 1;
      SetLeafDepends(leaves, leaves', ops[..n], k);
      if ToU256(ops[n].0) != k && exists j :: 0 <= j < |ops| && ToU256(ops[j].0) == k {
        var j :| 0 <= j < |ops| && ToU256(ops[j].0) == k;
        assert ops[..n][j] == ops[j];
      }
    }
  }

  /** The leaf of a key holds the value of the last operation on it. */
  lemma {:induction false} LastOperationWins(leaves: Leaves, ops: seq<KeyedOp>, i: nat)
    requires i < |ops| && forall j :: i < j < |ops| ==> ops[j].0 != ops[i].0
    ensures LeafValue(SetLeaves(leaves, ops), ToU256(ops[i].0)) == ops[i].1.value
  {
    var n := |ops| - 1;
    if i < n {
      LastOperationWins(leaves, ops[..n], i);
      U256OfKey(ops[i].0);
      U256OfKey(ops[n].0);
    }
  }
}
