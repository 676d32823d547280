/** The node store and the leaf numbering on top of the database (merkle_tree/src/storage.rs). */
module Storage {
  import opened Wrappers
  import opened Bytes
  import opened TreeTypes
  import opened SparseTree
  import opened TreeConfig
  import opened LeafEnumeration

  /** Keys of the column family that holds nodes, leaf indices and the index counter. */
  datatype DbKey = NodeKey(position: LevelIndex) | LeafKey(leaf: seq<byte>) | LeafIndexKey

  type Column = map<DbKey, seq<byte>>

  class RocksDb {
    var blockNumber: Option<seq<byte>>
    var column: Column

    constructor ()
      ensures blockNumber == None && column == map[]
    {
      blockNumber, column := None, map[];
    }
  }

  /** Leaf indices of one block. */
  datatype LeafIndices = LeafIndices(
    leafIndices: map<TreeKey, nat>,
    lastIndex: nat,
    previousIndex: nat,
    initialWrites: seq<InitialStorageWrite>,
    repeatedWrites: seq<RepeatedStorageWrite>)

  // ---------------------------------------------------------------- What a column says

  ghost predicate NodesHave32Bytes(column: Column) {
    forall p :: NodeKey(p) in column ==> |column[NodeKey(p)]| == 32
  }

  /** The stored hash of a node, or the default of its level. */
  function StoredNode(config: Config, column: Column, level: nat, idx: nat): ZkHash
    requires config.Valid() && level <= config.depth && NodesHave32Bytes(column)
  {
    var key := NodeKey(LevelIndex(level, idx));
    if key in column then FromBytes(column[key]) else config.emptyTree[level].hash
  }

  /** The stored nodes and the defaults together are the nodes of the tree with these leaves. */
  ghost predicate HoldsTree(config: Config, column: Column, leaves: Leaves)
    requires config.Valid()
  {
    && NodesHave32Bytes(column)
    && forall level: nat, idx: nat :: level <= config.depth ==>
         StoredNode(config, column, level, idx) == Node(config.hasher, leaves, config.depth - level, idx)
  }

  /** The column holds exactly the indices of the numbered leaves. */
  ghost predicate HoldsLeafKeys(column: Column, e: Enumeration) {
    && (forall k :: LeafKey(ToBytes(k)) in column <==> k in e.indices)
    && (forall k :: k in e.indices ==> e.indices[k] < LIMB && column[LeafKey(ToBytes(k))] == ToBE(e.indices[k], 8))
  }

  /** The column holds exactly this numbering. */
  ghost predicate HoldsIndices(column: Column, e: Enumeration) {
    && HoldsLeafKeys(column, e)
    && e.next < LIMB
    && (if LeafIndexKey in column then column[LeafIndexKey] == ToBE(e.next, 8) else e.next == 1)
  }

  ghost predicate HoldsBlockNumber(stored: Option<seq<byte>>, n: nat) {
    n < U32_LIMIT && (if stored.Some? then stored.value == ToBE(n, 4) else n == 0)
  }

  lemma {:induction false} StoredBlockNumber(stored: Option<seq<byte>>, n: nat)
    requires HoldsBlockNumber(stored, n)
    ensures (if stored.Some? then FromBE(stored.value) else 0) == n
  {
    Pow256Values();
    DecodeEncode(n, 4);
  }

  function DeserializeLeafIndex(bytes: seq<byte>): nat {
    FromBE(bytes)
  }

  function Lookup(column: Column, key: DbKey): Option<seq<byte>> {
    if key in column then Some(column[key]) else None
  }

  lemma {:induction false} LeafLookup(column: Column, e: Enumeration, key: TreeKey)
    requires HoldsIndices(column, e)
    ensures Lookup(column, LeafKey(ToBytes(key))).Some? <==> key in e.indices
    ensures key in e.indices ==> DeserializeLeafIndex(column[LeafKey(ToBytes(key))]) == e.indices[key]
  {
    if key in e.indices {
      Pow256Values();
      DecodeEncode(e.indices[key], 8);
    }
  }

  /** Leaf indices and the counter are stored in eight bytes, most significant first. */
  lemma {:induction false} StoredIndexPlaces(column: Column, e: Enumeration, key: TreeKey, i: nat)
    requires HoldsIndices(column, e) && i < 8
    ensures key in e.indices ==>
              var stored := column[LeafKey(ToBytes(key))];
              |stored| == 8 && stored[7 - i] == e.indices[key] / Pow256(i) % 256
    ensures LeafIndexKey in column ==>
              |column[LeafIndexKey]| == 8 && column[LeafIndexKey][7 - i] == e.next / Pow256(i) % 256
  {
    hide ToBE, Pow256;
    BytePlaces(e.next, 8, i);
    if key in e.indices {
      BytePlaces(e.indices[key], 8, i);
    }
  }

  lemma {:induction false} CounterLookup(column: Column, e: Enumeration)
    requires HoldsIndices(column, e)
    ensures LeafIndexKey in column ==> DeserializeLeafIndex(column[LeafIndexKey]) == e.next
    ensures LeafIndexKey !in column ==> e.next == 1
  {
    Pow256Values();
    DecodeEncode(e.next, 8);
  }

  /** The keys the batch itself has numbered so far. */
  ghost predicate IsNewWrites(e: Enumeration, now: Enumeration, newWrites: map<TreeKey, nat>) {
    && (forall k :: k in newWrites <==> k in now.indices && k !in e.indices)
    && (forall k :: k in newWrites ==> newWrites[k] == now.indices[k])
  }

  /** The indices reported for the operations so far. */
  ghost predicate IsLeafIndices(now: Enumeration, ops: seq<KeyedOp>, leafIndices: map<TreeKey, nat>) {
    && (forall i :: 0 <= i < |ops| ==> ops[i].0 in leafIndices)
    && (forall k :: k in leafIndices ==> leafIndices[k] == IndexOf(now, k))
  }

  lemma ReportedIndices(now: Enumeration, ops: seq<KeyedOp>, leafIndices: map<TreeKey, nat>)
    requires IsLeafIndices(now, ops, leafIndices)
    ensures forall i :: 0 <= i < |ops| ==>
              && ops[i].0 in leafIndices
              && leafIndices[ops[i].0] == if ops[i].0 in now.indices then now.indices[ops[i].0] else 0
  {
  }

  ghost predicate SameNodes(column: Column, column': Column) {
    forall p :: (NodeKey(p) in column <==> NodeKey(p) in column') && (NodeKey(p) in column ==>
          column[NodeKey(p)] == column'[NodeKey(p)])
  }

  lemma {:induction false} NumberLeaf(column: Column, e: Enumeration, key: TreeKey, index: nat)
    requires HoldsLeafKeys(column, e) && index < LIMB
    ensures HoldsLeafKeys(column[LeafKey(ToBytes(key)) := ToBE(index, 8)],
                          Enumeration(e.indices[key := index], index + 1))
  {
    forall k ensures ToBytes(k) == ToBytes(key) <==> k == key {
      KeyBytesRoundTrip(k);
      KeyBytesRoundTrip(key);
    }
  }

  /** The variables the walk over a block's operations updates. */
  datatype Numbering = Numbering(
    currentIndex: nat,
    putBatch: Column,
    newWrites: map<TreeKey, nat>,
    initialWrites: seq<InitialStorageWrite>,
    repeatedWrites: seq<RepeatedStorageWrite>)

  /** They agree with the specification after `ops`. The database numbers by `e`; with the patch of
      earlier blocks on top, which is `pending`, it holds `staged`. */
  ghost predicate IsNumbering(e: Enumeration, staged: Enumeration, column: Column, pending: Column,
      ops: seq<KeyedOp>, acc: Numbering)
  {
    var now := After(e, ops);
    && acc.currentIndex == now.next <= e.next + |ops|
    && acc.initialWrites == InitialWrites(e, ops) && acc.repeatedWrites == RepeatedWrites(e, ops)
    && IsNewWrites(e, now, acc.newWrites)
    && (forall k :: k in e.indices ==> k in now.indices && now.indices[k] == e.indices[k])
    && SameNodes(pending, acc.putBatch)
    && HoldsLeafKeys(column + acc.putBatch, Overlay(staged, now))
  }

  /** The patch numbers the saved leaves as the database does. */
  ghost predicate Extends(staged: Enumeration, e: Enumeration) {
    forall k :: k in e.indices ==> k in staged.indices && staged.indices[k] == e.indices[k]
  }

  /** What a lookup in the database, then among the new writes, gives for a key. */
  lemma {:induction false} KnownIndex(e: Enumeration, column: Column, now: Enumeration, newWrites: map<TreeKey, nat>,
      key: TreeKey)
    requires HoldsIndices(column, e) && IsNewWrites(e, now, newWrites)
    requires forall k :: k in e.indices ==> k in now.indices && now.indices[k] == e.indices[k]
    ensures var raw := Lookup(column, LeafKey(ToBytes(key)));
            && (raw.Some? ==> key in now.indices && now.indices[key] == DeserializeLeafIndex(raw.value))
            && (raw.None? && key in newWrites ==> key in now.indices && now.indices[key] == newWrites[key])
            && (raw.None? && key !in newWrites ==> key !in now.indices)
  {
    LeafLookup(column, e, key);
  }

  lemma NothingNumbered(e: Enumeration, staged: Enumeration, column: Column, start: Numbering)
    requires start == Numbering(e.next, start.putBatch, map[], [], [])
    requires HoldsLeafKeys(column + start.putBatch, staged) && Extends(staged, e)
    ensures IsNumbering(e, staged, column, start.putBatch, [], start) && IsLeafIndices(After(e, []), [], map[])
  {
    assert Overlay(staged, e).indices == staged.indices;
    SameLeafKeys(column + start.putBatch, staged, Overlay(staged, e));
    hide HoldsLeafKeys;
  }

  lemma SameLeafKeys(column: Column, e: Enumeration, f: Enumeration)
    requires e.indices == f.indices && HoldsLeafKeys(column, e)
    ensures HoldsLeafKeys(column, f)
  {
  }

  /** A read, or a write of a numbered key. */
  lemma {:induction false} KnownStep(e: Enumeration, staged: Enumeration, column: Column, pending: Column,
      ops: seq<KeyedOp>, acc: Numbering, last: KeyedOp)
    requires IsNumbering(e, staged, column, pending, ops, acc)
    requires last.1.Read? || last.0 in After(e, ops).indices
    ensures After(e, ops + [last]) == After(e, ops)
    ensures IsNumbering(e, staged, column, pending, ops + [last],
              acc.(repeatedWrites := acc.repeatedWrites
                + (if last.1.Write?
                   then [RepeatedStorageWrite(After(e, ops).indices[last.0], ToBytes(last.1.value))] else [])))
  {
    assert (ops + [last])[..|ops|] == ops;
  }

  lemma {:induction false} PutLeaf(column: Column, putBatch: Column, staged: Enumeration, now: Enumeration,
      key: TreeKey)
    requires now.next < LIMB && HoldsLeafKeys(column + putBatch, Overlay(staged, now))
    ensures var putBatch' := putBatch[LeafKey(ToBytes(key)) := ToBE(now.next, 8)];
            && SameNodes(putBatch, putBatch')
            && HoldsLeafKeys(column + putBatch',
                 Overlay(staged, Enumeration(now.indices[key := now.next], now.next + 1)))
  {
    hide HoldsLeafKeys, ToBytes, ToBE;
    var entry, bytes := LeafKey(ToBytes(key)), ToBE(now.next, 8);
    NumberLeaf(column + putBatch, Overlay(staged, now), key, now.next);
    assert (column + putBatch)[entry := bytes] == column + putBatch[entry := bytes];
    assert (staged.indices + now.indices)[key := now.next] == staged.indices + now.indices[key := now.next];
  }

  lemma {:induction false} SameNodesTransitive(a: Column, b: Column, c: Column)
    requires SameNodes(a, b) && SameNodes(b, c)
    ensures SameNodes(a, c)
  {
  }

  /** The first write of a key. */
  lemma {:induction false} FirstStep(e: Enumeration, staged: Enumeration, column: Column, pending: Column,
      ops: seq<KeyedOp>, acc: Numbering, last: KeyedOp)
    requires IsNumbering(e, staged, column, pending, ops, acc) && acc.currentIndex < LIMB
    requires last.1.Write? && last.0 !in After(e, ops).indices && last.0 !in e.indices
    ensures After(e, ops + [last]).indices == After(e, ops).indices[last.0 := acc.currentIndex]
    ensures IsNumbering(e, staged, column, pending, ops + [last],
              Numbering(acc.currentIndex + 1, acc.putBatch[LeafKey(ToBytes(last.0)) := ToBE(acc.currentIndex, 8)],
                        acc.newWrites[last.0 := acc.currentIndex],
                        acc.initialWrites + [InitialStorageWrite(acc.currentIndex, ToU256(last.0),
                                                                 ToBytes(last.1.value))],
                        acc.repeatedWrites))
  {
    hide ToU256, ToBytes, ToBE, Overlay, HoldsLeafKeys, SameNodes;
    assert (ops + [last])[..|ops|] == ops;
    var now := After(e, ops);
    PutLeaf(column, acc.putBatch, staged, now, last.0);
    SameNodesTransitive(pending, acc.putBatch, acc.putBatch[LeafKey(ToBytes(last.0)) := ToBE(now.next, 8)]);
    assert After(e, ops + [last]) == Enumeration(now.indices[last.0 := now.next], now.next + 1);
  }

  lemma {:induction false} PutCounter(column: Column, putBatch: Column, now: Enumeration)
    requires now.next < LIMB && HoldsLeafKeys(column + putBatch, now)
    ensures var putBatch' := putBatch[LeafIndexKey := ToBE(now.next, 8)];
            SameNodes(putBatch, putBatch') && HoldsIndices(column + putBatch', now)
  {
  }

  lemma {:induction false} LeafIndicesStep(e: Enumeration, ops: seq<KeyedOp>, last: KeyedOp,
      leafIndices: map<TreeKey, nat>, index: nat)
    requires IsLeafIndices(After(e, ops), ops, leafIndices)
    requires forall k :: k != last.0 ==> IndexOf(After(e, ops + [last]), k) == IndexOf(After(e, ops), k)
    requires index == IndexOf(After(e, ops + [last]), last.0)
    ensures IsLeafIndices(After(e, ops + [last]), ops + [last], leafIndices[last.0 := index])
  {
  }

  class Storage {
    const db: RocksDb
    var putPendingPatch: Column

    constructor (db: RocksDb)
      ensures this.db == db && putPendingPatch == map[]
    {
      this.db, putPendingPatch := db, map[];
    }

    /** One operation of the walk. */
    method NumberOne(acc: Numbering, leaf: TreeKey, op: TreeOperation, ghost e: Enumeration,
        ghost staged: Enumeration, ghost pending: Column, ghost ops: seq<KeyedOp>)
      returns (acc': Numbering, leafIndex: nat)
      requires HoldsIndices(db.column, e) && e.next + |ops| + 1 < LIMB
      requires IsNumbering(e, staged, db.column, pending, ops, acc)
      ensures IsNumbering(e, staged, db.column, pending, ops + [(leaf, op)], acc')
      ensures leafIndex == IndexOf(After(e, ops + [(leaf, op)]), leaf)
      ensures forall k :: k != leaf ==> IndexOf(After(e, ops + [(leaf, op)]), k) == IndexOf(After(e, ops), k)
    {
      hide ToU256, ToBytes, ToBE;
      ghost var now := After(e, ops);
      KnownIndex(e, db.column, now, acc.newWrites, leaf);
      var rawData := Lookup(db.column, LeafKey(ToBytes(leaf)));
      match op {
        case Write(value, _) =>
          if rawData.Some? || leaf in acc.newWrites {
            leafIndex := if rawData.Some? then DeserializeLeafIndex(rawData.value) else acc.newWrites[leaf];
            KnownStep(e, staged, db.column, pending, ops, acc, (leaf, op));
            acc' := acc.(repeatedWrites := acc.repeatedWrites + [RepeatedStorageWrite(leafIndex, ToBytes(value))]);
          } else {
            leafIndex := acc.currentIndex;
            FirstStep(e, staged, db.column, pending, ops, acc, (leaf, op));
            acc' := Numbering(acc.currentIndex + 1, acc.putBatch[LeafKey(ToBytes(leaf)) := ToBE(leafIndex, 8)],
                              acc.newWrites[leaf := leafIndex],
                              acc.initialWrites + [InitialStorageWrite(leafIndex, ToU256(leaf), ToBytes(value))],
                              acc.repeatedWrites);
          }
        case Read(_) =>
          leafIndex := if rawData.Some? then DeserializeLeafIndex(rawData.value)
                       else if leaf in acc.newWrites then acc.newWrites[leaf] else 0;
          KnownStep(e, staged, db.column, pending, ops, acc, (leaf, op));
          acc' := acc;
          assert acc' == acc.(repeatedWrites := acc.repeatedWrites + []);
      }
    }

    /** The walk over all operations of a block. */
    method NumberAll(logs: seq<KeyedOp>, start: Numbering, ghost e: Enumeration, ghost staged: Enumeration)
      returns (acc: Numbering, leafIndices: map<TreeKey, nat>)
      requires HoldsIndices(db.column, e) && e.next + |logs| < LIMB
      requires start == Numbering(e.next, start.putBatch, map[], [], [])
      requires HoldsLeafKeys(db.column + start.putBatch, staged) && Extends(staged, e)
      ensures IsNumbering(e, staged, db.column, start.putBatch, logs, acc)
      ensures IsLeafIndices(After(e, logs), logs, leafIndices)
    {
      hide *;
      acc, leafIndices := start, map[];
      NothingNumbered(e, staged, db.column, start);
      for i := 0 to |logs|
        invariant IsNumbering(e, staged, db.column, start.putBatch, logs[..i], acc)
        invariant IsLeafIndices(After(e, logs[..i]), logs[..i], leafIndices)
      {
        var (leaf, op) := logs[i];
        TakeNext(logs, i);
        var leafIndex;
        acc, leafIndex := NumberOne(acc, leaf, op, e, staged, start.putBatch, logs[..i]);
        LeafIndicesStep(e, logs[..i], (leaf, op), leafIndices, leafIndex);
        leafIndices := leafIndices[leaf := leafIndex];
      }
      TakeAll(logs);
    }

    /** Numbers the leaves of a block, reading only what is in the database; what earlier blocks left
        in the pending patch, `staged`, is written over. */
    method ProcessLeafIndices(logs: seq<KeyedOp>, ghost e: Enumeration, ghost staged: Enumeration)
      returns (result: LeafIndices)
      requires HoldsIndices(db.column, e) && e.next + |logs| < LIMB
      requires HoldsLeafKeys(db.column + putPendingPatch, staged) && Extends(staged, e)
      modifies this`putPendingPatch
      ensures result.initialWrites == InitialWrites(e, logs) && result.repeatedWrites == RepeatedWrites(e, logs)
      ensures result.previousIndex == e.next && result.lastIndex == After(e, logs).next
      ensures LeafIndexKey !in db.column ==> result.previousIndex == 1
      ensures IsLeafIndices(After(e, logs), logs, result.leafIndices)
      ensures forall i :: 0 <= i < |logs| ==>
                var indices := After(e, logs).indices;
                && logs[i].0 in result.leafIndices
                && result.leafIndices[logs[i].0] == if logs[i].0 in indices then indices[logs[i].0] else 0
      ensures SameNodes(old(putPendingPatch), putPendingPatch) && LeafIndexKey in putPendingPatch
      ensures HoldsIndices(db.column + putPendingPatch, Overlay(staged, After(e, logs)))
    {
      hide HoldsLeafKeys, IsLeafIndices, SameNodes, Extends, InitialWrites, RepeatedWrites;
      CounterLookup(db.column, e);
      var stored := Lookup(db.column, LeafIndexKey);
      var currentIndex := if stored.Some? then DeserializeLeafIndex(stored.value) else 1;
      var acc, leafIndices := NumberAll(logs, Numbering(currentIndex, putPendingPatch, map[], [], []), e, staged);
      ReportedIndices(After(e, logs), logs, leafIndices);
      PutCounter(db.column, acc.putBatch, Overlay(staged, After(e, logs)));
      SameNodesTransitive(putPendingPatch, acc.putBatch, acc.putBatch[LeafIndexKey := ToBE(acc.currentIndex, 8)]);
      putPendingPatch := acc.putBatch[LeafIndexKey := ToBE(acc.currentIndex, 8)];
      result := LeafIndices(leafIndices, acc.currentIndex, currentIndex, acc.initialWrites, acc.repeatedWrites);
    }

    /** Adds the changed nodes to the pending patch, in any order. */
    method PreSave(branches: map<LevelIndex, ZkHash>)
      modifies this`putPendingPatch
      ensures forall p :: p in branches ==>
                NodeKey(p) in putPendingPatch && putPendingPatch[NodeKey(p)] == ToBytes(branches[p])
      ensures forall key: DbKey :: !(key.NodeKey? && key.position in branches) ==>
                && (key in putPendingPatch <==> key in old(putPendingPatch))
                && (key in putPendingPatch ==> putPendingPatch[key] == old(putPendingPatch)[key])
    {
      var todo := branches.Keys;
      while todo != {}
        invariant todo <= branches.Keys
        invariant forall p :: p in branches && p !in todo ==>
              NodeKey(p) in putPendingPatch && putPendingPatch[NodeKey(p)] == ToBytes(branches[p])
        invariant forall key: DbKey :: !(key.NodeKey? && key.position in branches) ==>
                    && (key in putPendingPatch <==> key in old(putPendingPatch))
                    && (key in putPendingPatch ==> putPendingPatch[key] == old(putPendingPatch)[key])
        decreases todo
      {
        var p :| p in todo;
        putPendingPatch := putPendingPatch[NodeKey(p) := ToBytes(branches[p])];
        todo := todo - {p};
      }
    }

    /** One atomic write of the pending patch and the block number. The patch is kept. */
    method Save(blockNumber: nat) returns (r: Result<(), TreeError>)
      modifies db
      ensures r.Failure? <==> putPendingPatch == map[]
      ensures r.Failure? ==> db.column == old(db.column) && db.blockNumber == old(db.blockNumber)
      ensures r.Success? ==>
                db.column == old(db.column) + putPendingPatch && db.blockNumber == Some(ToBE(blockNumber, 4))
    {
      if putPendingPatch == map[] {
        return Failure(EmptyPatch);
      }
      db.column := db.column + putPendingPatch;
      db.blockNumber := Some(ToBE(blockNumber, 4));
      r := Success(());
    }

    /** `fetch_metadata`, and what the tree makes of a missing root hash. */
    method FetchMetadata(ghost config: Config, ghost leaves: Leaves, ghost n: nat)
      returns (rootHash: Option<ZkHash>, blockNumber: nat)
      requires config.Valid() && HoldsTree(config, db.column, leaves) && HoldsBlockNumber(db.blockNumber, n)
      ensures (if rootHash.Some? then rootHash.value else config.DefaultRootHash())
           == Root(config.hasher, leaves, config.depth)
      ensures rootHash.None? ==> NodeKey(LevelIndex(0, 0)) !in db.column
      ensures blockNumber == n
    {
      assert StoredNode(config, db.column, 0, 0) == Root(config.hasher, leaves, config.depth);
      StoredBlockNumber(db.blockNumber, n);
      var root := Lookup(db.column, NodeKey(LevelIndex(0, 0)));
      blockNumber := if db.blockNumber.Some? then FromBE(db.blockNumber.value) else 0;
      rootHash := if root.Some? then Some(FromBytes(root.value)) else None;
    }
  }
}
