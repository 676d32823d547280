/** The state tree follows the storage log: the updating loop of the metadata calculator
    (ola_core/src/metadata_calculator/updater.rs, helpers.rs; merkle_tree/src/tree.rs). */
module TreeHistory {
  import opened TreeTypes
  import opened SparseTree
  import opened LeafEnumeration
  import opened TreeState
  import opened Tree
  import opened StorageHistory
  import opened LogCompaction

  /** `process_blocks`: a log becomes an operation on the leaf of the hashed key. */
  function OpsOf(hash: StorageKey -> H256, logs: seq<WitnessLog>): (ops: seq<KeyedOp>)
    ensures |ops| == |logs|
    ensures forall i :: 0 <= i < |logs| ==>
              ops[i] == (hash(logs[i].key),
                         if logs[i].isWrite then Write(logs[i].value, logs[i].previousValue) else Read(logs[i].value))
  {
    seq(|logs|, i requires 0 <= i < |logs| =>
      (hash(logs[i].key), if logs[i].isWrite then Write(logs[i].value, logs[i].previousValue) else Read(logs[i].value)))
  }

  ghost predicate LeafOf(hash: StorageKey -> H256, slots: Slots, n: nat, k: StorageKey) {
    k in slots && ToU256(hash(k)) == n
  }

  ghost predicate Free(hash: StorageKey -> H256, slots: Slots, n: nat) {
    forall k :: !LeafOf(hash, slots, n, k)
  }

  /** The leaves hold the storage: every slot its value, every other leaf the default. */
  ghost predicate Mirrors(hash: StorageKey -> H256, leaves: Leaves, slots: Slots) {
    && (forall k :: k in slots ==> LeafValue(leaves, ToU256(hash(k))) == slots[k])
    && (forall n: nat :: Free(hash, slots, n) ==> LeafValue(leaves, n) == ZERO)
  }

  lemma SameHash(hash: StorageKey -> H256, keys: set<StorageKey>, a: StorageKey, b: StorageKey)
    requires NoCollision(hash, keys) && a in keys && b in keys && ToU256(hash(a)) == ToU256(hash(b))
    ensures a == b
  {
    U256OfKey(hash(a));
    U256OfKey(hash(b));
  }

  /** The leaf of a key, whether or not its slot was ever set. */
  lemma MirroredValue(hash: StorageKey -> H256, leaves: Leaves, slots: Slots, keys: set<StorageKey>, k: StorageKey)
    requires Mirrors(hash, leaves, slots) && NoCollision(hash, keys) && slots.Keys <= keys && k in keys
    ensures LeafValue(leaves, ToU256(hash(k))) == Value(slots, k)
  {
    if k !in slots {
      forall j ensures !LeafOf(hash, slots, ToU256(hash(k)), j) {
        if LeafOf(hash, slots, ToU256(hash(k)), j) {
          SameHash(hash, keys, j, k);
        }
      }
      assert Free(hash, slots, ToU256(hash(k)));
    }
  }

  /** The operations of a batch touch each changed slot once and nothing else. */
  lemma {:induction false} BatchLogs(before: Slots, after: Slots, protective: set<StorageKey>, logs: seq<WitnessLog>)
    requires IsCompaction(before, after, protective, logs)
    ensures Ascending(FilterBlockLogs(logs))
    ensures forall log :: log in FilterBlockLogs(logs) <==>
              && log.isWrite && log.value == Value(after, log.key) && log.previousValue == Value(before, log.key)
              && log.value != log.previousValue
  {
    FilterAscends(logs);
    FilterMembers(logs);
  }

  ghost predicate WritesOf(before: Slots, after: Slots, writes: seq<WitnessLog>) {
    && Ascending(writes)
    && forall log :: log in writes <==>
         && log.isWrite && log.value == Value(after, log.key) && log.previousValue == Value(before, log.key)
         && log.value != log.previousValue
  }

  lemma ChangedIsSet(before: Slots, after: Slots, k: StorageKey)
    requires before.Keys <= after.Keys && Value(before, k) != Value(after, k)
    ensures k in after
  {
  }

  /** What a leaf holds after the writes of a batch. */
  lemma {:induction false} LeafAfterWrites(hash: StorageKey -> H256, leaves: Leaves, before: Slots, after: Slots,
      writes: seq<WitnessLog>, k: StorageKey)
    requires WritesOf(before, after, writes) && before.Keys <= after.Keys && NoCollision(hash, after.Keys) && k in after
    requires Mirrors(hash, leaves, before)
    ensures LeafValue(SetLeaves(leaves, OpsOf(hash, writes)), ToU256(hash(k))) == after[k]
  {
    var ops := OpsOf(hash, writes);
    MirroredValue(hash, leaves, before, after.Keys, k);
    forall j | 0 <= j < |writes| ensures writes[j].key in after && (hash(writes[j].key) == hash(k) ==>
          writes[j].key == k) {
      assert writes[j] in writes;
      ChangedIsSet(before, after, writes[j].key);
    }
    if Value(before, k) != after[k] {
      assert WitnessLog(k, true, after[k], Value(before, k)) in writes;
      var i :| 0 <= i < |writes| && writes[i] == WitnessLog(k, true, after[k], Value(before, k));
      forall j | i < j < |ops| ensures ops[j].0 != ops[i].0 {
        assert Less(writes[i].key, writes[j].key);
      }
      LastOperationWins(leaves, ops, i);
    } else {
      forall j | 0 <= j < |ops| ensures ops[j].0 != hash(k) {
        assert writes[j] in writes;
      }
      OtherLeaf(leaves, ops, hash(k));
    }
  }

  /** Applying the filtered logs of a batch takes the leaves from the storage before the batch to
      the storage after it. */
  lemma {:induction false} TreeFollowsBatch(hash: StorageKey -> H256, leaves: Leaves, before: Slots, after: Slots,
      writes: seq<WitnessLog>)
    requires WritesOf(before, after, writes) && before.Keys <= after.Keys && NoCollision(hash, after.Keys)
    requires Mirrors(hash, leaves, before)
    ensures Mirrors(hash, SetLeaves(leaves, OpsOf(hash, writes)), after)
  {
    var ops := OpsOf(hash, writes);
    forall k | k in after ensures LeafValue(SetLeaves(leaves, ops), ToU256(hash(k))) == after[k] {
      LeafAfterWrites(hash, leaves, before, after, writes, k);
    }
    forall n: nat | Free(hash, after, n) ensures LeafValue(SetLeaves(leaves, ops), n) == ZERO {
      forall k ensures !LeafOf(hash, before, n, k) {
        assert !LeafOf(hash, after, n, k);
      }
      assert Free(hash, before, n);
      forall j | 0 <= j < |ops| ensures ToU256(ops[j].0) != n {
        assert writes[j] in writes;
        assert !LeafOf(hash, after, n, writes[j].key);
      }
      SetLeafDepends(leaves, leaves, ops, n);
    }
  }

  lemma DistinctHashes(hash: StorageKey -> H256, keys: set<StorageKey>, a: StorageKey, b: StorageKey)
    requires NoCollision(hash, keys) && a in keys && b in keys && a != b
    ensures hash(a) != hash(b)
  {
  }

  /** The previous value that a write carries is the leaf it replaces, also with the earlier writes
      of the batch applied. */
  lemma {:induction false} PreviousValueIsLeaf(hash: StorageKey -> H256, leaves: Leaves, before: Slots, after: Slots,
      writes: seq<WitnessLog>, i: nat)
    requires WritesOf(before, after, writes) && before.Keys <= after.Keys && NoCollision(hash, after.Keys)
    requires Mirrors(hash, leaves, before) && i < |writes|
    ensures writes[i].previousValue
         == LeafValue(SetLeaves(leaves, OpsOf(hash, writes)[..i]), ToU256(hash(writes[i].key)))
  {
    var k, earlier := writes[i].key, OpsOf(hash, writes)[..i];
    forall j | 0 <= j <= i ensures writes[j].key in after {
      assert writes[j] in writes;
      ChangedIsSet(before, after, writes[j].key);
    }
    forall j | 0 <= j < i ensures earlier[j].0 != hash(k) {
      assert Less(writes[j].key, k);
      DistinctHashes(hash, after.Keys, writes[j].key, k);
    }
    assert writes[i] in writes;
    OtherLeaf(leaves, earlier, hash(k));
    MirroredValue(hash, leaves, before, after.Keys, k);
  }

  /** Any two leaf maps that hold the same storage have the same root. */
  lemma {:induction false} RootOfStorage(h: Hasher, hash: StorageKey -> H256, leaves: Leaves, leaves': Leaves,
      slots: Slots, depth: nat)
    requires Mirrors(hash, leaves, slots) && Mirrors(hash, leaves', slots)
    ensures Root(h, leaves, depth) == Root(h, leaves', depth)
  {
    forall n: nat ensures LeafValue(leaves, n) == LeafValue(leaves', n) {
      if !Free(hash, slots, n) {
        var k :| LeafOf(hash, slots, n, k);
        assert LeafValue(leaves, ToU256(hash(k))) == slots[k];
      }
    }
    NodeSameLeaves(h, leaves, leaves', depth, 0);
  }

  // ---------------------------------------------------------------- The loop

  lemma {:induction false} WritesFit(writes: seq<WitnessLog>, keys: set<StorageKey>)
    requires Ascending(writes) && forall i :: 0 <= i < |writes| ==> writes[i].key in keys
    ensures |writes| <= |keys|
  {
    if writes != [] {
      var n := |writes| - 1;
      forall i | 0 <= i < n ensures writes[..n][i].key in keys - {writes[n].key} {
        assert Less(writes[i].key, writes[n].key);
      }
      WritesFit(writes[..n], keys - {writes[n].key});
    }
  }

  ghost predicate SomethingChanged(pg: Postgres, b: nat) {
    exists k :: Value(pg.StateBefore(b), k) != Value(pg.StateBefore(b + 1), k)
  }

  /** The batch has a header and a miniblock, changes some slot, and none that asks for a protective read. */
  ghost predicate Processable(pg: Postgres, b: nat) {
    && b in pg.headers && b in pg.batchOf && SomethingChanged(pg, b)
    && forall k :: k in pg.ProtectiveReads(b) ==> Value(pg.StateBefore(b), k) == Value(pg.StateBefore(b + 1), k)
  }

  lemma ProcessableInFull(pg: Postgres, b: nat)
    ensures Processable(pg, b) <==>
              && b in pg.headers && b in pg.batchOf
              && (exists k :: Value(pg.StateBefore(b), k) != Value(pg.StateBefore(b + 1), k))
              && (b in pg.protectiveReads ==> forall k :: k in pg.protectiveReads[b] ==>
                    Value(pg.StateBefore(b), k) == Value(pg.StateBefore(b + 1), k))
  {
  }

  ghost predicate HashesFit(pg: Postgres, hash: StorageKey -> H256, depth: nat) {
    && (forall b: nat :: NoCollision(hash, pg.Keys() + pg.ProtectiveReads(b)))
    && (forall k :: k in pg.Keys() ==> InTree(depth, hash(k)))
  }

  lemma {:induction false} ImageSize(hash: StorageKey -> H256, keys: set<StorageKey>)
    ensures |set k | k in keys :: hash(k)| <= |keys|
  {
    if keys == {} {
      assert (set k | k in keys :: hash(k)) == {};
    } else {
      var k :| k in keys;
      ImageSize(hash, keys - {k});
      assert (set j | j in keys :: hash(j)) == (set j | j in keys - {k} :: hash(j)) + {hash(k)};
    }
  }

  /** There are at most as many leaf indices as keys in the log. */
  lemma {:induction false} NumberingFits(pg: Postgres, hash: StorageKey -> H256, s: TreeState.State, b: nat)
    requires Follows(pg, hash, s, b) && Bijective(s.numbering)
    ensures s.numbering.next <= |pg.Keys()| + 1
  {
    BijectiveCount(s.numbering);
    var setSlots := set k | k in pg.Keys() && pg.EverSet(b, k);
    ImageSize(hash, setSlots);
    assert (set k | k in setSlots :: hash(k)) == pg.SetKeys(hash, b);
    assert s.numbering.indices.Keys == pg.SetKeys(hash, b);
    Subset(setSlots, pg.Keys());
  }

  lemma {:induction false} Subset(part: set<StorageKey>, all: set<StorageKey>)
    requires part <= all
    ensures |part| <= |all|
  {
    assert all == part + (all - part);
  }

  lemma {:induction false} WritesFitTree(pg: Postgres, hash: StorageKey -> H256, b: nat, writes: seq<WitnessLog>,
      depth: nat)
    requires WritesOf(pg.StateBefore(b), pg.StateBefore(b + 1), writes) && HashesFit(pg, hash, depth)
    ensures |writes| <= |pg.Keys()| && OpsInTree(depth, OpsOf(hash, writes))
  {
    pg.StateKeys(b);
    pg.StateKeys(b + 1);
    forall i | 0 <= i < |writes| ensures writes[i].key in pg.Keys() {
      assert writes[i] in writes;
    }
    WritesFit(writes, pg.Keys());
  }

  lemma {:induction false} EmptyIffUnchanged(pg: Postgres, b: nat, writes: seq<WitnessLog>)
    requires WritesOf(pg.StateBefore(b), pg.StateBefore(b + 1), writes)
    ensures writes == [] <==> !SomethingChanged(pg, b)
  {
    var before, after := pg.StateBefore(b), pg.StateBefore(b + 1);
    if SomethingChanged(pg, b) {
      var k :| Value(before, k) != Value(after, k);
      assert WitnessLog(k, true, Value(after, k), Value(before, k)) in writes;
    }
    if writes != [] {
      assert writes[0] in writes;
    }
  }

  /** The tree state `s` stands for the storage before batch `b`: the leaves hold it, and numbered
      are the keys of the slots that ever held a value. */
  ghost predicate Follows(pg: Postgres, hash: StorageKey -> H256, s: TreeState.State, b: nat) {
    s.blocks == b && Mirrors(hash, s.leaves, pg.StateBefore(b)) && s.numbering.indices.Keys == pg.SetKeys(hash, b)
  }

  lemma {:induction false} NumberingFollows(pg: Postgres, hash: StorageKey -> H256, e: Enumeration, b: nat,
      writes: seq<WitnessLog>)
    requires e.indices.Keys == pg.SetKeys(hash, b) && WritesOf(pg.StateBefore(b), pg.StateBefore(b + 1), writes)
    ensures LeafEnumeration.After(e, OpsOf(hash, writes)).indices.Keys == pg.SetKeys(hash, b + 1)
  {
    var ops := OpsOf(hash, writes);
    AfterKeys(e, ops);
    pg.StateKeys(b);
    pg.StateKeys(b + 1);
    forall t ensures t in LeafEnumeration.After(e, ops).indices <==> t in pg.SetKeys(hash, b + 1) {
      if WrittenIn(ops, t) {
        var i :| 0 <= i < |ops| && ops[i].0 == t && ops[i].1.Write?;
        assert writes[i] in writes;
        pg.EverSetStep(b, writes[i].key);
      }
      if t in pg.SetKeys(hash, b) {
        var k :| k in pg.Keys() && pg.EverSet(b, k) && hash(k) == t;
        pg.EverSetStep(b, k);
      }
      if t in pg.SetKeys(hash, b + 1) {
        var k :| k in pg.Keys() && pg.EverSet(b + 1, k) && hash(k) == t;
        pg.EverSetStep(b, k);
        if !pg.EverSet(b, k) {
          WrittenOf(pg, hash, b, writes, k);
        }
      }
    }
  }

  lemma {:induction false} WrittenOf(pg: Postgres, hash: StorageKey -> H256, b: nat, writes: seq<WitnessLog>,
      k: StorageKey)
    requires WritesOf(pg.StateBefore(b), pg.StateBefore(b + 1), writes)
    requires Value(pg.StateBefore(b), k) != Value(pg.StateBefore(b + 1), k)
    ensures WrittenIn(OpsOf(hash, writes), hash(k))
  {
    var log := WitnessLog(k, true, Value(pg.StateBefore(b + 1), k), Value(pg.StateBefore(b), k));
    assert log in writes;
    var i :| 0 <= i < |writes| && writes[i] == log;
    assert OpsOf(hash, writes)[i].0 == hash(k) && OpsOf(hash, writes)[i].1.Write?;
  }

  lemma {:induction false} BlockFollows(pg: Postgres, hash: StorageKey -> H256, depth: nat, s: TreeState.State,
      b: nat, writes: seq<WitnessLog>)
    requires pg.Valid() && HashesFit(pg, hash, depth) && Follows(pg, hash, s, b)
    requires WritesOf(pg.StateBefore(b), pg.StateBefore(b + 1), writes)
    ensures Follows(pg, hash, ApplyBlock(s, OpsOf(hash, writes)), b + 1)
  {
    pg.BatchStep(b);
    pg.StateKeys(b + 1);
    CollisionFreePart(hash, pg.Keys() + pg.ProtectiveReads(b), pg.StateBefore(b + 1).Keys);
    TreeFollowsBatch(hash, s.leaves, pg.StateBefore(b), pg.StateBefore(b + 1), writes);
    NumberingFollows(pg, hash, s.numbering, b, writes);
  }
}
