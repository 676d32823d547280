/** The storage logs in Postgres, read as queries over an ordered log
    (dal/src/storage_logs_dal.rs, dal/src/blocks_dal.rs). */
module StorageHistory {
  import opened Wrappers
  import opened TreeTypes

  /** 32 bytes as four words: the same shape as a tree key. */
  type H256 = TreeKey

  const ZERO: H256 := DEFAULT_KEY

  datatype StorageKey = StorageKey(address: H256, key: H256)

  datatype StorageLog = StorageLog(key: StorageKey, value: H256)

  /** A row of `storage_logs`; its hashed key is computed from the key. */
  datatype Row = Row(key: StorageKey, value: H256, miniblock: nat, operation: nat)

  type Slots = map<StorageKey, H256>

  function Value(slots: Slots, k: StorageKey): (v: H256)
    ensures v == if k in slots then slots[k] else TreeKey(0, 0, 0, 0)
  {
    if k in slots then slots[k] else ZERO
  }

  /** ORDER BY miniblock_number, operation_number. */
  predicate Before(r: Row, s: Row) {
    r.miniblock < s.miniblock || (r.miniblock == s.miniblock && r.operation < s.operation)
  }

  ghost predicate Ordered(rows: seq<Row>) {
    forall i, j :: 0 <= i < j < |rows| ==> Before(rows[i], rows[j])
  }

  // ---------------------------------------------------------------- Writing the log

  function NumberedRows(logs: seq<StorageLog>, miniblock: nat): (rows: seq<Row>)
    ensures |rows| == |logs|
    ensures forall i :: 0 <= i < |logs| ==> rows[i] == Row(logs[i].key, logs[i].value, miniblock, i)
  {
    seq(|logs|, i requires 0 <= i < |logs| => Row(logs[i].key, logs[i].value, miniblock, i))
  }

  /** `insert_storage_logs`: the operation number runs through all transactions of the miniblock. */
  method InsertStorageLogs(table: seq<Row>, miniblock: nat, txs: seq<seq<StorageLog>>) returns (table': seq<Row>)
    requires Ordered(table) && forall i :: 0 <= i < |table| ==> table[i].miniblock < miniblock
    ensures table' == table + NumberedRows(Flatten(txs), miniblock) && Ordered(table')
  {
    table' := table;
    var operation := 0;
    for t := 0 to |txs|
      invariant operation == |Flatten(txs[..t])|
      invariant table' == table + NumberedRows(Flatten(txs[..t]), miniblock)
    {
      assert txs[..t + 1][..t] == txs[..t];
      for l := 0 to |txs[t]|
        invariant operation == |Flatten(txs[..t])| + l
        invariant table' == table + NumberedRows(Flatten(txs[..t]) + txs[t][..l], miniblock)
      {
        var log := txs[t][l];
        table' := table' + [Row(log.key, log.value, miniblock, operation)];
        operation := operation + 1;
        assert txs[t][..l + 1] == txs[t][..l] + [log];
      }
      assert txs[t][..|txs[t]|] == txs[t];
    }
    assert txs[..|txs|] == txs;
  }

  // ---------------------------------------------------------------- Reading the log

  /** The rows with `lo <= miniblock_number < hi`. */
  function Between(rows: seq<Row>, lo: nat, hi: nat): seq<Row> {
    if rows == [] then []
    else
      var r := rows[|rows| - 1];
      Between(rows[..|rows| - 1], lo, hi) + (if lo <= r.miniblock < hi then [r] else [])
  }

  /** Collecting rows into a map: a later row of a key replaces an earlier one. */
  function Replay(rows: seq<Row>): Slots {
    if rows == [] then map[] else Replay(rows[..|rows| - 1])[rows[|rows| - 1].key := rows[|rows| - 1].value]
  }

  /** ORDER BY miniblock_number DESC, operation_number DESC LIMIT 1, among the rows of a hashed key. */
  function LastValue(hash: StorageKey -> H256, rows: seq<Row>, h: H256): Option<H256> {
    if rows == [] then None
    else if hash(rows[|rows| - 1].key) == h then Some(rows[|rows| - 1].value)
    else LastValue(hash, rows[..|rows| - 1], h)
  }

  ghost predicate NoCollision(hash: StorageKey -> H256, keys: set<StorageKey>) {
    forall a, b :: a in keys && b in keys && hash(a) == hash(b) ==> a == b
  }

  lemma {:induction false} ReplayKeys(rows: seq<Row>, k: StorageKey)
    ensures k in Replay(rows) <==> exists i :: 0 <= i < |rows| && rows[i].key == k
  {
    if rows != [] {
      var n := |rows| - 1;
      ReplayKeys(rows[..n], k);
      if k in Replay(rows[..n]) {
        var i :| 0 <= i < n && rows[..n][i].key == k;
        assert rows[i].key == k;
      }
      if exists i :: 0 <= i < n && rows[i].key == k {
        var i :| 0 <= i < n && rows[i].key == k;
        assert rows[..n][i].key == k;
      }
      assert rows[n].key == k ==> k in Replay(rows);
    }
  }

  /** Looking a slot up by its hashed key finds what replaying the log leaves there. */
  lemma {:induction false} LastValueIsReplay(hash: StorageKey -> H256, rows: seq<Row>, k: StorageKey)
    requires forall i :: 0 <= i < |rows| && hash(rows[i].key) == hash(k) ==> rows[i].key == k
    ensures LastValue(hash, rows, hash(k)) == if k in Replay(rows) then Some(Replay(rows)[k]) else None
  {
    if rows != [] {
      var n := |rows| - 1;
      assert forall i :: 0 <= i < n ==> rows[..n][i] == rows[i];
      LastValueIsReplay(hash, rows[..n], k);
    }
  }

  lemma {:induction false} ReplayConcat(rows: seq<Row>, more: seq<Row>)
    ensures Replay(rows + more) == Replay(rows) + Replay(more)
  {
    if more == [] {
      assert rows + more == rows;
    } else {
      var n := |more| - 1;
      assert (rows + more)[..|rows| + n] == rows + more[..n];
      ReplayConcat(rows, more[..n]);
    }
  }

  lemma {:induction false} BetweenMembers(rows: seq<Row>, lo: nat, hi: nat)
    ensures forall r :: r in Between(rows, lo, hi) <==> r in rows && lo <= r.miniblock < hi
  {
    if rows != [] {
      var n := |rows| - 1;
      BetweenMembers(rows[..n], lo, hi);
      assert rows == rows[..n] + [rows[n]];
    }
  }

  /** The last row of a slot below `hi` decides the slot's value. */
  lemma {:induction false} LastRowWins(rows: seq<Row>, hi: nat, i: nat)
    requires i < |rows| && rows[i].miniblock < hi
    requires forall j :: i < j < |rows| && rows[j].key == rows[i].key ==> rows[j].miniblock >= hi
    ensures Value(Replay(Between(rows, 0, hi)), rows[i].key) == rows[i].value
  {
    var n := |rows| - 1;
    var part, r := Between(rows[..n], 0, hi), rows[n];
    assert (part + [r])[..|part|] == part && part + [] == part;
    if i < n {
      LastRowWins(rows[..n], hi, i);
    }
  }

  lemma {:induction false} BetweenEmpty(rows: seq<Row>, lo: nat, hi: nat)
    requires forall i :: 0 <= i < |rows| ==> !(lo <= rows[i].miniblock < hi)
    ensures Between(rows, lo, hi) == []
  {
    if rows != [] {
      BetweenEmpty(rows[..|rows| - 1], lo, hi);
    }
  }

  /** A slot is in the state that a range leads to exactly if it has a row in the range. */
  lemma {:induction false} RangeKey(rows: seq<Row>, lo: nat, hi: nat, k: StorageKey)
    ensures k in Replay(Between(rows, lo, hi)) <==> exists r :: r in rows && r.key == k && lo <= r.miniblock < hi
  {
    var part := Between(rows, lo, hi);
    BetweenMembers(rows, lo, hi);
    ReplayKeys(part, k);
    hide Replay, Between;
    if r :| r in rows && r.key == k && lo <= r.miniblock < hi {
      assert r in part;
      var i :| 0 <= i < |part| && part[i] == r;
      assert part[i].key == k;
    }
  }

  lemma {:induction false} ReplayedKeys(rows: seq<Row>, lo: nat, hi: nat)
    ensures Replay(Between(rows, lo, hi)).Keys <= set r | r in rows :: r.key
  {
    var part := Between(rows, lo, hi);
    BetweenMembers(rows, lo, hi);
    forall k | k in Replay(part) ensures exists r :: r in rows && r.key == k {
      ReplayKeys(part, k);
      var i :| 0 <= i < |part| && part[i].key == k;
      assert part[i] in part;
    }
  }

  lemma {:induction false} NothingLater(rows: seq<Row>, mid: nat, hi: nat)
    requires Ordered(rows) && rows != [] && rows[|rows| - 1].miniblock < mid
    ensures Between(rows[..|rows| - 1], mid, hi) == []
  {
    var n := |rows| - 1;
    forall i | 0 <= i < n ensures rows[..n][i].miniblock < mid {
      assert Before(rows[i], rows[n]);
    }
    BetweenEmpty(rows[..n], mid, hi);
  }

  /** In an ordered log the rows of a range come apart where the range does. */
  lemma {:induction false} BetweenSplits(rows: seq<Row>, lo: nat, mid: nat, hi: nat)
    requires Ordered(rows) && lo <= mid <= hi
    ensures Between(rows, lo, hi) == Between(rows, lo, mid) + Between(rows, mid, hi)
  {
    if rows != [] {
      var n := |rows| - 1;
      BetweenSplits(rows[..n], lo, mid, hi);
      var r := rows[n];
      if r.miniblock < mid {
        NothingLater(rows, mid, hi);
      }
    }
  }

  // ---------------------------------------------------------------- Batches

  /** How many miniblocks belong to batches below `b`. */
  function CountBelow(batchOf: seq<nat>, b: nat): nat {
    if batchOf == [] then 0
    else CountBelow(batchOf[..|batchOf| - 1], b) + (if batchOf[|batchOf| - 1] < b then 1 else 0)
  }

  ghost predicate NonDecreasing(batchOf: seq<nat>) {
    forall i, j :: 0 <= i < j < |batchOf| ==> batchOf[i] <= batchOf[j]
  }

  lemma {:induction false} CountBelowSplits(batchOf: seq<nat>, b: nat)
    requires NonDecreasing(batchOf)
    ensures CountBelow(batchOf, b) <= |batchOf|
    ensures forall i :: 0 <= i < |batchOf| ==> (i < CountBelow(batchOf, b) <==> batchOf[i] < b)
  {
    if batchOf != [] {
      var n := |batchOf| - 1;
      CountBelowSplits(batchOf[..n], b);
      forall i | 0 <= i < n ensures (i < CountBelow(batchOf, b) <==> batchOf[i] < b) {
        assert batchOf[..n][i] == batchOf[i];
      }
    }
  }

  lemma {:induction false} CountsGrow(batchOf: seq<nat>, b: nat)
    ensures CountBelow(batchOf, 0) == 0 && CountBelow(batchOf, b) <= CountBelow(batchOf, b + 1) <= |batchOf|
  {
    if batchOf != [] {
      CountsGrow(batchOf[..|batchOf| - 1], b);
    }
  }

  type FactoryDeps = map<H256, seq<nat>>

  /** `batchOf` gives the L1 batch of every miniblock that belongs to a sealed one. */
  datatype Postgres = Postgres(
    rows: seq<Row>,
    batchOf: seq<nat>,
    headers: set<nat>,
    protectiveReads: map<nat, set<StorageKey>>,
    factoryDeps: map<nat, FactoryDeps>)
  {
    ghost predicate Valid() {
      Ordered(rows) && NonDecreasing(batchOf)
    }

    /** The first miniblock that does not belong to a batch below `b`. */
    function Start(b: nat): nat {
      CountBelow(batchOf, b)
    }

    /** `get_miniblock_range_of_l1_batch`: MIN and MAX of the miniblock numbers of a batch. */
    function MiniblockRange(b: nat): Option<(nat, nat)> {
      if Start(b) < Start(b + 1) then Some((Start(b), Start(b + 1) - 1)) else None
    }

    /** `get_touched_slots_for_l1_batch`. */
    function TouchedSlots(b: nat): Slots {
      match MiniblockRange(b)
      case None => map[]
      case Some(range) => Replay(Between(rows, range.0, range.1 + 1))
    }

    /** `get_storage_values`. */
    function StorageValues(hash: StorageKey -> H256, hashes: set<H256>, miniblock: nat): map<H256, Option<H256>> {
      map h | h in hashes :: LastValue(hash, Between(rows, 0, miniblock + 1), h)
    }

    function ProtectiveReads(b: nat): set<StorageKey> {
      if b in protectiveReads then protectiveReads[b] else {}
    }

    function FactoryDepsOf(b: nat): FactoryDeps {
      if b in factoryDeps then factoryDeps[b] else map[]
    }

    /** All storage logs of the batches below `b`, replayed. */
    ghost function StateBefore(b: nat): Slots {
      Replay(Between(rows, 0, Start(b)))
    }

    ghost function Keys(): set<StorageKey> {
      set r | r in rows :: r.key
    }

    /** At the end of some batch below `b` the slot holds a value. */
    ghost predicate EverSet(b: nat, k: StorageKey) {
      exists i: nat :: i <= b && Value(StateBefore(i), k) != ZERO
    }

    /** The hashed keys of the slots that were ever set before `b`. */
    ghost function SetKeys(hash: StorageKey -> H256, b: nat): set<H256> {
      set k | k in Keys() && EverSet(b, k) :: hash(k)
    }

    /** A slot comes to be set in the first batch that changes it. */
    lemma EverSetStep(b: nat, k: StorageKey)
      ensures EverSet(b + 1, k) <==> EverSet(b, k) || Value(StateBefore(b), k) != Value(StateBefore(b + 1), k)
      ensures EverSet(b + 1, k) <==> EverSet(b, k) || Value(StateBefore(b + 1), k) != ZERO
    {
      if EverSet(b + 1, k) {
        var i: nat :| i <= b + 1 && Value(StateBefore(i), k) != ZERO;
        assert i <= b ==> EverSet(b, k);
      }
      if EverSet(b, k) {
        var i: nat :| i <= b && Value(StateBefore(i), k) != ZERO;
        assert i <= b + 1;
      }
      assert Value(StateBefore(b), k) != ZERO ==> EverSet(b, k);
    }

    /** A slot without a row in the batches below `b` holds zero before `b`. */
    lemma {:induction false} NeverWritten(b: nat, k: StorageKey)
      requires Valid()
      requires forall r :: r in rows && r.key == k && r.miniblock < |batchOf| ==> batchOf[r.miniblock] >= b
      ensures k !in StateBefore(b)
    {
      CountBelowSplits(batchOf, b);
      RangeKey(rows, 0, Start(b), k);
    }

    /** Otherwise the row with the greatest miniblock and operation number in those batches says
        what the slot holds. */
    lemma {:induction false} LatestRow(b: nat, i: nat)
      requires Valid() && i < |rows| && rows[i].miniblock < |batchOf| && batchOf[rows[i].miniblock] < b
      requires forall j | 0 <= j < |rows| && rows[j].key == rows[i].key
                          && rows[j].miniblock < |batchOf| && batchOf[rows[j].miniblock] < b ::
                 || rows[j].miniblock < rows[i].miniblock
                 || (rows[j].miniblock == rows[i].miniblock && rows[j].operation <= rows[i].operation)
      ensures Value(StateBefore(b), rows[i].key) == rows[i].value
    {
      CountBelowSplits(batchOf, b);
      forall j | i < j < |rows| && rows[j].key == rows[i].key ensures rows[j].miniblock >= Start(b) {
        assert Before(rows[i], rows[j]);
      }
      LastRowWins(rows, Start(b), i);
    }

    lemma MiniblockOf(b: nat, m: nat)
      requires Valid()
      ensures Start(b) <= m < Start(b + 1) <==> m < |batchOf| && batchOf[m] == b
    {
      CountBelowSplits(batchOf, b);
      CountBelowSplits(batchOf, b + 1);
    }

    lemma TouchedRange(b: nat)
      ensures TouchedSlots(b) == Replay(Between(rows, Start(b), Start(b + 1)))
    {
      CountsGrow(batchOf, b);
      if MiniblockRange(b).None? {
        BetweenEmpty(rows, Start(b), Start(b + 1));
      }
    }

    /** The touched slots of a batch are those with a row in it. */
    lemma {:induction false} TouchedIffRow(b: nat, k: StorageKey)
      requires Valid()
      ensures k in TouchedSlots(b) <==>
                exists r :: r in rows && r.key == k && r.miniblock < |batchOf| && batchOf[r.miniblock] == b
    {
      TouchedRange(b);
      RangeKey(rows, Start(b), Start(b + 1), k);
      hide *;
      forall r | r in rows
        ensures Start(b) <= r.miniblock < Start(b + 1) <==> r.miniblock < |batchOf| && batchOf[r.miniblock] == b
      {
        MiniblockOf(b, r.miniblock);
      }
    }

    /** The range is what MIN and MAX ask for. */
    lemma {:induction false} RangeIsMinMax(b: nat)
      requires Valid()
      ensures MiniblockRange(b).None? <==> b !in batchOf
      ensures MiniblockRange(b).Some? ==>
                var (lo, hi) := MiniblockRange(b).value;
                && lo <= hi < |batchOf| && batchOf[lo] == b == batchOf[hi]
                && forall i :: 0 <= i < |batchOf| && batchOf[i] == b ==> lo <= i <= hi
    {
      CountBelowSplits(batchOf, b);
      CountBelowSplits(batchOf, b + 1);
      if b in batchOf {
        var i :| 0 <= i < |batchOf| && batchOf[i] == b;
        assert Start(b) <= i < Start(b + 1);
      }
    }

    /** A batch changes the state by exactly its touched slots. */
    lemma {:induction false} BatchStep(b: nat)
      requires Valid()
      ensures StateBefore(b + 1) == StateBefore(b) + TouchedSlots(b)
    {
      CountsGrow(batchOf, b);
      BetweenSplits(rows, 0, Start(b), Start(b + 1));
      ReplayConcat(Between(rows, 0, Start(b)), Between(rows, Start(b), Start(b + 1)));
      TouchedRange(b);
    }

    /** Every slot of the state before a batch comes from a row of the log. */
    lemma {:induction false} StateKeys(b: nat)
      ensures StateBefore(b).Keys <= Keys()
    {
      ReplayedKeys(rows, 0, Start(b));
    }

    /** Every touched slot comes from a row as well. */
    lemma {:induction false} TouchedKeys(b: nat)
      ensures TouchedSlots(b).Keys <= Keys()
    {
      if MiniblockRange(b).Some? {
        var (lo, hi) := MiniblockRange(b).value;
        ReplayedKeys(rows, lo, hi + 1);
      }
    }

    /** A slot that was ever set has a row. */
    lemma EverSetIsKey(b: nat, k: StorageKey)
      requires EverSet(b, k)
      ensures k in Keys()
    {
      var i: nat :| i <= b && Value(StateBefore(i), k) != ZERO;
      StateKeys(i);
    }

    /** Before any batch there is nothing. */
    lemma NothingBeforeGenesis()
      ensures StateBefore(0) == map[]
    {
      CountsGrow(batchOf, 0);
      BetweenEmpty(rows, 0, 0);
    }
  }

  // ---------------------------------------------------------------- A growing history

  /** `pg'` is `pg` some time later: miniblocks, batches above `latest` and their logs are added. */
  ghost predicate Grown(pg: Postgres, pg': Postgres, latest: nat) {
    && pg.batchOf <= pg'.batchOf
    && Between(pg'.rows, 0, |pg.batchOf|) == Between(pg.rows, 0, |pg.batchOf|)
    && (forall i :: |pg.batchOf| <= i < |pg'.batchOf| ==> pg'.batchOf[i] > latest)
    && (forall b: nat :: b <= latest ==> pg'.FactoryDepsOf(b) == pg.FactoryDepsOf(b))
  }

  lemma {:induction false} CountOfPrefix(batchOf: seq<nat>, batchOf': seq<nat>, b: nat)
    requires batchOf <= batchOf' && forall i :: |batchOf| <= i < |batchOf'| ==> batchOf'[i] >= b
    ensures CountBelow(batchOf', b) == CountBelow(batchOf, b)
    decreases |batchOf'|
  {
    if |batchOf| < |batchOf'| {
      CountOfPrefix(batchOf, batchOf'[..|batchOf'| - 1], b);
    } else {
      assert batchOf == batchOf';
    }
  }

  lemma {:induction false} BetweenNested(rows: seq<Row>, mid: nat, hi: nat)
    requires hi <= mid
    ensures Between(Between(rows, 0, mid), 0, hi) == Between(rows, 0, hi)
  {
    if rows != [] {
      var n := |rows| - 1;
      BetweenNested(rows[..n], mid, hi);
      var part := Between(rows[..n], 0, mid);
      if rows[n].miniblock < mid {
        assert (part + [rows[n]])[..|part|] == part;
      } else {
        assert part + [] == part;
      }
    }
  }

  /** Batches that were sealed keep the state they lead to. */
  lemma {:induction false} PastStays(pg: Postgres, pg': Postgres, latest: nat, b: nat)
    requires Grown(pg, pg', latest) && b <= latest + 1
    ensures pg'.StateBefore(b) == pg.StateBefore(b)
  {
    CountOfPrefix(pg.batchOf, pg'.batchOf, b);
    CountsGrow(pg.batchOf, b);
    BetweenNested(pg.rows, |pg.batchOf|, pg.Start(b));
    BetweenNested(pg'.rows, |pg.batchOf|, pg.Start(b));
  }

  lemma {:induction false} PastEverSet(pg: Postgres, pg': Postgres, latest: nat, b: nat, k: StorageKey)
    requires Grown(pg, pg', latest) && b <= latest + 1
    ensures pg'.EverSet(b, k) <==> pg.EverSet(b, k)
  {
    forall i: nat | i <= b ensures Value(pg'.StateBefore(i), k) == Value(pg.StateBefore(i), k) {
      PastStays(pg, pg', latest, i);
    }
  }

  lemma {:induction false} PastSetKeys(pg: Postgres, pg': Postgres, hash: StorageKey -> H256, latest: nat, b: nat)
    requires Grown(pg, pg', latest) && b <= latest + 1
    ensures pg'.SetKeys(hash, b) == pg.SetKeys(hash, b)
  {
    forall k ensures k in pg'.Keys() && pg'.EverSet(b, k) <==> k in pg.Keys() && pg.EverSet(b, k) {
      PastEverSet(pg, pg', latest, b, k);
      if pg.EverSet(b, k) {
        pg.EverSetIsKey(b, k);
        pg'.EverSetIsKey(b, k);
      }
    }
  }
}
