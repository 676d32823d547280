/** The numbering of leaves by first write, as a function of the operations
    (the specification of `process_leaf_indices`, merkle_tree/src/storage.rs). */
module LeafEnumeration {
  import opened Bytes
  import opened TreeTypes

  type KeyedOp = (TreeKey, TreeOperation)

  predicate OpsInTree(depth: nat, ops: seq<KeyedOp>) {
    forall i :: 0 <= i < |ops| ==> InTree(depth, ops[i].0)
  }

  datatype InitialStorageWrite = InitialStorageWrite(index: nat, key: nat, value: seq<byte>)
  datatype RepeatedStorageWrite = RepeatedStorageWrite(index: nat, value: seq<byte>)

  /** Indices handed out so far, and the one to hand out next. */
  datatype Enumeration = Enumeration(indices: map<TreeKey, nat>, next: nat)

  const EMPTY: Enumeration := Enumeration(map[], 1)

  function Step(e: Enumeration, op: KeyedOp): Enumeration {
    if op.1.Write? && op.0 !in e.indices then Enumeration(e.indices[op.0 := e.next], e.next + 1) else e
  }

  function After(e: Enumeration, ops: seq<KeyedOp>): Enumeration {
    if ops == [] then e else Step(After(e, ops[..|ops| - 1]), ops[|ops| - 1])
  }

  function InitialWrites(e: Enumeration, ops: seq<KeyedOp>): seq<InitialStorageWrite> {
    if ops == [] then []
    else
      var before, (key, op) := After(e, ops[..|ops| - 1]), ops[|ops| - 1];
      InitialWrites(e, ops[..|ops| - 1])
      + (if op.Write? && key !in before.indices
         then [InitialStorageWrite(before.next, ToU256(key), ToBytes(op.value))] else [])
  }

  function RepeatedWrites(e: Enumeration, ops: seq<KeyedOp>): seq<RepeatedStorageWrite> {
    if ops == [] then []
    else
      var before, (key, op) := After(e, ops[..|ops| - 1]), ops[|ops| - 1];
      RepeatedWrites(e, ops[..|ops| - 1])
      + (if op.Write? && key in before.indices
         then [RepeatedStorageWrite(before.indices[key], ToBytes(op.value))] else [])
  }

  /** The index reported for a key: 0 as long as it was only read. */
  function IndexOf(e: Enumeration, key: TreeKey): nat {
    if key in e.indices then e.indices[key] else 0
  }

  /** Entries of a later numbering go over those of an earlier one. */
  function Overlay(e: Enumeration, f: Enumeration): Enumeration {
    Enumeration(e.indices + f.indices, f.next)
  }

  // ---------------------------------------------------------------- Properties

  ghost predicate WrittenIn(ops: seq<KeyedOp>, key: TreeKey) {
    exists i :: 0 <= i < |ops| && ops[i].0 == key && ops[i].1.Write?
  }

  /** The indices are a bijection between the numbered keys and `1..next`. */
  ghost predicate Bijective(e: Enumeration) {
    && 1 <= e.next
    && (forall k :: k in e.indices ==> 1 <= e.indices[k] < e.next)
    && (forall k, l :: k in e.indices && l in e.indices && e.indices[k] == e.indices[l] ==> k == l)
    && (forall x :: 1 <= x < e.next ==> x in e.indices.Values)
  }

  /** So many keys are numbered. */
  lemma {:induction false} BijectiveCount(e: Enumeration)
    requires Bijective(e)
    ensures |e.indices| == e.next - 1
    decreases e.next
  {
    if e.next == 1 {
      assert e.indices == map[];
    } else {
      assert e.next - 1 in e.indices.Values;
      var last :| last in e.indices && e.indices[last] == e.next - 1;
      var rest := Enumeration(e.indices - {last}, e.next - 1);
      forall x | 1 <= x < rest.next ensures x in rest.indices.Values {
        assert x in e.indices.Values;
        var k :| k in e.indices && e.indices[k] == x;
        assert k in rest.indices && rest.indices[k] == x;
      }
      BijectiveCount(rest);
      assert e.indices.Keys == rest.indices.Keys + {last};
    }
  }

  lemma {:induction false} StepBijective(e: Enumeration, op: KeyedOp)
    requires Bijective(e)
    ensures Bijective(Step(e, op))
  {
    var e' := Step(e, op);
    if e' != e {
      forall x | 1 <= x < e'.next ensures x in e'.indices.Values {
        if x == e.next {
          assert op.0 in e'.indices && e'.indices[op.0] == x;
        } else {
          assert x in e.indices.Values;
          var k :| k in e.indices && e.indices[k] == x;
          assert k in e'.indices && e'.indices[k] == x;
        }
      }
    }
  }

  lemma {:induction false} AfterBijective(e: Enumeration, ops: seq<KeyedOp>)
    requires Bijective(e)
    ensures Bijective(After(e, ops))
  {
    if ops != [] {
      AfterBijective(e, ops[..|ops| - 1]);
      StepBijective(After(e, ops[..|ops| - 1]), ops[|ops| - 1]);
    }
  }

  /** Numbers start at 1, a second write of the same key does not get another, and a key that is only
      read has none and is reported as 0. */
  lemma FirstNumbers(k: TreeKey, l: TreeKey, v: TreeValue, w: TreeValue)
    requires k != l
    ensures var ops := [(k, Write(v, w)), (l, Read(w)), (k, Write(w, v))];
            && InitialWrites(EMPTY, ops) == [InitialStorageWrite(1, FromBE(ToBytes(k)), ToBytes(v))]
            && RepeatedWrites(EMPTY, ops) == [RepeatedStorageWrite(1, ToBytes(w))]
            && After(EMPTY, ops).next == 2
            && IndexOf(After(EMPTY, ops), k) == 1 && IndexOf(After(EMPTY, ops), l) == 0
  {
    KeyAsBytes(k);
    var ops := [(k, Write(v, w)), (l, Read(w)), (k, Write(w, v))];
    hide ToBytes, FromBE, ToU256;
    assert ops[..2][..1] == ops[..1] && ops[..1][..0] == [];
    assert After(EMPTY, ops[..1]) == Enumeration(map[k := 1], 2);
    assert InitialWrites(EMPTY, ops[..1]) == [InitialStorageWrite(1, ToU256(k), ToBytes(v))];
    assert RepeatedWrites(EMPTY, ops[..1]) == [];
    assert After(EMPTY, ops[..2]) == Enumeration(map[k := 1], 2);
    assert InitialWrites(EMPTY, ops[..2]) == InitialWrites(EMPTY, ops[..1]);
    assert RepeatedWrites(EMPTY, ops[..2]) == [];
  }

  /** Numbered are the keys numbered before and the keys written; no number ever changes. */
  lemma {:induction false} AfterKeys(e: Enumeration, ops: seq<KeyedOp>)
    ensures forall k :: k in After(e, ops).indices <==> k in e.indices || WrittenIn(ops, k)
    ensures forall k :: k in e.indices ==> After(e, ops).indices[k] == e.indices[k]
    ensures e.next <= After(e, ops).next <= e.next + |ops|
  {
    if ops != [] {
      var n := |ops| - 1;
      AfterKeys(e, ops[..n]);
      forall k ensures WrittenIn(ops, k) <==> WrittenIn(ops[..n], k) || (ops[n].0 == k && ops[n].1.Write?) {
        if WrittenIn(ops[..n], k) {
          var i :| 0 <= i < n && ops[..n][i].0 == k && ops[..n][i].1.Write?;
          assert ops[i].0 == k && ops[i].1.Write?;
        }
        if WrittenIn(ops, k) {
          var i :| 0 <= i < |ops| && ops[i].0 == k && ops[i].1.Write?;
          assert i < n ==> ops[..n][i] == ops[i];
        }
      }
    }
  }

  /** Keys numbered in a batch get indices from the ones still free. */
  lemma {:induction false} AfterNewIndices(e: Enumeration, ops: seq<KeyedOp>)
    ensures forall k :: k in After(e, ops).indices && k !in e.indices ==> After(e, ops).indices[k] >= e.next
  {
    if ops != [] {
      AfterNewIndices(e, ops[..|ops| - 1]);
      AfterKeys(e, ops[..|ops| - 1]);
    }
  }

  /** Every write lands in exactly one of the two lists: among the initial writes if and only if
      nothing before it wrote its key, with the next free index; else among the repeated ones,
      with the index its key already has. Reads land in neither. */
  lemma {:induction false} WriteLandsOnce(e: Enumeration, ops: seq<KeyedOp>, last: KeyedOp)
    ensures var first := !(last.0 in e.indices) && !WrittenIn(ops, last.0);
            var before := After(e, ops);
            && InitialWrites(e, ops + [last]) == InitialWrites(e, ops)
                 + (if last.1.Write? && first
                    then [InitialStorageWrite(before.next, ToU256(last.0), ToBytes(last.1.value))] else [])
            && (first <==> last.0 !in before.indices)
            && RepeatedWrites(e, ops + [last]) == RepeatedWrites(e, ops)
                 + (if last.1.Write? && !first
                    then [RepeatedStorageWrite(before.indices[last.0], ToBytes(last.1.value))] else [])
  {
    AfterKeys(e, ops);
    assert (ops + [last])[..|ops|] == ops;
  }

  /** The initial writes of a batch carry consecutive indices. */
  lemma {:induction false} InitialWritesConsecutive(e: Enumeration, ops: seq<KeyedOp>)
    ensures e.next + |InitialWrites(e, ops)| == After(e, ops).next
    ensures forall t :: 0 <= t < |InitialWrites(e, ops)| ==> InitialWrites(e, ops)[t].index == e.next + t
  {
    if ops != [] {
      InitialWritesConsecutive(e, ops[..|ops| - 1]);
    }
  }

  lemma {:induction false} AfterConcat(e: Enumeration, ops: seq<KeyedOp>, more: seq<KeyedOp>)
    ensures After(e, ops + more) == After(After(e, ops), more)
  {
    if more == [] {
      assert ops + more == ops;
    } else {
      var n := |more| - 1;
      assert (ops + more)[..|ops| + n] == ops + more[..n];
      AfterConcat(e, ops, more[..n]);
    }
  }

  /** Without a write of an unnumbered key the enumeration stays as it is. */
  lemma {:induction false} NoNewKeys(e: Enumeration, ops: seq<KeyedOp>)
    requires forall i :: 0 <= i < |ops| && ops[i].1.Write? ==> ops[i].0 in e.indices
    ensures After(e, ops) == e
  {
    if ops != [] {
      NoNewKeys(e, ops[..|ops| - 1]);
    }
  }

  lemma {:induction false} NewKeyTakesIndex(e: Enumeration, ops: seq<KeyedOp>, i: nat)
    requires Bijective(e) && i < |ops| && ops[i].1.Write? && ops[i].0 !in e.indices
    ensures After(e, ops).next > e.next
  {
    AfterKeys(e, ops);
    AfterBijective(e, ops);
    AfterNewIndices(e, ops);
    assert WrittenIn(ops, ops[i].0);
  }

  /** A block is numbered from the database. When another block is still unsaved, its lists and its
      index range come out right exactly if that block wrote no key for the first time. */
  lemma {:induction false} SecondBlockNumbering(e: Enumeration, first: seq<KeyedOp>, second: seq<KeyedOp>)
    requires Bijective(e)
    ensures && InitialWrites(e, second) == InitialWrites(After(e, first), second)
            && RepeatedWrites(e, second) == RepeatedWrites(After(e, first), second)
            && After(e, second).next == After(After(e, first), second).next
            <==> forall i :: 0 <= i < |first| && first[i].1.Write? ==> first[i].0 in e.indices
  {
    if forall i :: 0 <= i < |first| && first[i].1.Write? ==> first[i].0 in e.indices {
      NoNewKeys(e, first);
    } else {
      var i :| 0 <= i < |first| && first[i].1.Write? && first[i].0 !in e.indices;
      NewKeyTakesIndex(e, first, i);
      InitialWritesConsecutive(e, second);
      InitialWritesConsecutive(After(e, first), second);
    }
  }
}
