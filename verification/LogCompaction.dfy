/** From the storage logs of a batch to the operations on the state tree
    (`get_logs_for_l1_batch`, `filter_block_logs`, ola_core/src/metadata_calculator/helpers.rs). */
module LogCompaction {
  import opened Wrappers
  import opened Bytes
  import opened TreeTypes
  import opened SparseTree
  import opened StorageHistory

  datatype WitnessLog = WitnessLog(key: StorageKey, isWrite: bool, value: H256, previousValue: H256)

  // ---------------------------------------------------------------- Key order

  /** The derived order of keys: by address, then by key, both as byte strings. */
  predicate Less(a: StorageKey, b: StorageKey) {
    ToU256(a.address) < ToU256(b.address) || (a.address == b.address && ToU256(a.key) < ToU256(b.key))
  }

  lemma LexCompare(a: nat, b: nat, c: nat, d: nat, m: nat)
    requires b < m && d < m
    ensures a * m + b < c * m + d <==> a < c || (a == c && b < d)
  {
    if a < c {
      assert c * m == a * m + (c - a) * m;
      MultipleGrows(c - a, m);
    } else if c < a {
      assert a * m == c * m + (a - c) * m;
      MultipleGrows(a - c, m);
    }
  }

  /** That is the order of the 64 bytes, address first, compared from the first byte on. */
  lemma LessIsByteOrder(a: StorageKey, b: StorageKey)
    ensures Less(a, b)
       <==> FromBE(ToBytes(a.address) + ToBytes(a.key)) < FromBE(ToBytes(b.address) + ToBytes(b.key))
  {
    hide ToBytes, FromBE, ToU256, Pow256;
    FromBEConcat(ToBytes(a.address), ToBytes(a.key));
    FromBEConcat(ToBytes(b.address), ToBytes(b.key));
    KeyAsBytes(a.address);
    KeyAsBytes(a.key);
    KeyAsBytes(b.address);
    KeyAsBytes(b.key);
    KeyWidth();
    U256OfKey(a.address);
    U256OfKey(b.address);
    U256OfKey(a.key);
    U256OfKey(b.key);
    LexCompare(ToU256(a.address), ToU256(a.key), ToU256(b.address), ToU256(b.key), U256_LIMIT);
  }

  lemma LessIsTotal(a: StorageKey, b: StorageKey)
    ensures a == b || Less(a, b) || Less(b, a)
  {
    U256OfKey(a.address);
    U256OfKey(b.address);
    U256OfKey(a.key);
    U256OfKey(b.key);
  }

  lemma LessIsTransitive(a: StorageKey, b: StorageKey, c: StorageKey)
    ensures Less(a, b) && Less(b, c) ==> Less(a, c)
  {
  }

  ghost predicate Ascending(logs: seq<WitnessLog>) {
    forall i, j :: 0 <= i < j < |logs| ==> Less(logs[i].key, logs[j].key)
  }

  lemma {:induction false} AscendingBytes(logs: seq<WitnessLog>)
    ensures Ascending(logs) <==>
              forall i, j :: 0 <= i < j < |logs| ==>
                FromBE(ToBytes(logs[i].key.address) + ToBytes(logs[i].key.key))
                < FromBE(ToBytes(logs[j].key.address) + ToBytes(logs[j].key.key))
  {
    hide Less, ToBytes, FromBE;
    forall i, j | 0 <= i < j < |logs|
      ensures Less(logs[i].key, logs[j].key) <==>
                FromBE(ToBytes(logs[i].key.address) + ToBytes(logs[i].key.key))
                < FromBE(ToBytes(logs[j].key.address) + ToBytes(logs[j].key.key))
    {
      LessIsByteOrder(logs[i].key, logs[j].key);
    }
  }

  method FirstKey(keys: set<StorageKey>) returns (k: StorageKey)
    requires keys != {}
    ensures k in keys && forall j :: j in keys && j != k ==> Less(k, j)
  {
    k :| k in keys;
    var rest := keys - {k};
    while rest != {}
      invariant rest < keys && k in keys - rest
      invariant forall j :: j in keys - rest && j != k ==> Less(k, j)
    {
      var next :| next in rest;
      LessIsTotal(k, next);
      if Less(next, k) {
        forall j | j in keys - rest && j != k ensures Less(next, j) {
          LessIsTransitive(next, k, j);
        }
        k := next;
      }
      rest := rest - {next};
    }
  }

  /** `BTreeMap::into_values`. */
  method IntoValues(m: map<StorageKey, WitnessLog>) returns (logs: seq<WitnessLog>)
    requires forall k :: k in m ==> m[k].key == k
    ensures Ascending(logs) && forall log :: log in logs <==> log.key in m && m[log.key] == log
    ensures forall i, j :: 0 <= i < j < |logs| ==>
              FromBE(ToBytes(logs[i].key.address) + ToBytes(logs[i].key.key))
              < FromBE(ToBytes(logs[j].key.address) + ToBytes(logs[j].key.key))
  {
    hide ToBytes, FromBE;
    logs := [];
    var rest := m.Keys;
    while rest != {}
      invariant rest <= m.Keys && Ascending(logs)
      invariant forall log :: log in logs <==> log.key in m.Keys - rest && m[log.key] == log
      invariant forall log, k :: log in logs && k in rest ==> Less(log.key, k)
    {
      var k := FirstKey(rest);
      logs := logs + [m[k]];
      rest := rest - {k};
    }
    AscendingBytes(logs);
  }

  // ---------------------------------------------------------------- What compaction must deliver

  /** The logs of a batch that leads from `before` to `after`: in key order, one write for every
      slot that changed, one read for every other slot that asks for a protective read. */
  ghost predicate IsCompaction(before: Slots, after: Slots, protective: set<StorageKey>, logs: seq<WitnessLog>) {
    && Ascending(logs)
    && forall log :: log in logs <==>
         && (log.isWrite || log.key in protective)
         && log.isWrite == (Value(before, log.key) != Value(after, log.key))
         && log.value == Value(after, log.key) && log.previousValue == Value(before, log.key)
  }

  /** What that says of a single slot. */
  lemma CompactionOfSlot(before: Slots, after: Slots, protective: set<StorageKey>, logs: seq<WitnessLog>, k: StorageKey)
    requires IsCompaction(before, after, protective, logs)
    ensures var v := if k in before then before[k] else TreeKey(0, 0, 0, 0);
            var v' := if k in after then after[k] else TreeKey(0, 0, 0, 0);
            && (WitnessLog(k, true, v', v) in logs <==> v != v')
            && (WitnessLog(k, false, v, v) in logs <==> v == v' && k in protective)
            && forall log :: log in logs && log.key == k ==>
                 log == WitnessLog(k, true, v', v) || log == WitnessLog(k, false, v, v)
  {
  }

  function ReplayLogs(slots: Slots, logs: seq<WitnessLog>): Slots {
    if logs == [] then slots
    else
      var log := logs[|logs| - 1];
      var slots' := ReplayLogs(slots, logs[..|logs| - 1]);
      if log.isWrite then slots'[log.key := log.value] else slots'
  }

  /** `filter_block_logs`. */
  function FilterBlockLogs(logs: seq<WitnessLog>): seq<WitnessLog> {
    if logs == [] then []
    else FilterBlockLogs(logs[..|logs| - 1]) + (if logs[|logs| - 1].isWrite then [logs[|logs| - 1]] else [])
  }

  lemma {:induction false} UnwrittenSlot(slots: Slots, logs: seq<WitnessLog>, k: StorageKey)
    requires forall i :: 0 <= i < |logs| && logs[i].isWrite ==> logs[i].key != k
    ensures Value(ReplayLogs(slots, logs), k) == Value(slots, k)
  {
    if logs != [] {
      UnwrittenSlot(slots, logs[..|logs| - 1], k);
    }
  }

  lemma {:induction false} WrittenSlot(slots: Slots, logs: seq<WitnessLog>, i: nat)
    requires Ascending(logs) && i < |logs| && logs[i].isWrite
    ensures Value(ReplayLogs(slots, logs), logs[i].key) == logs[i].value
  {
    var n := |logs| - 1;
    if i < n {
      WrittenSlot(slots, logs[..n], i);
      assert Less(logs[i].key, logs[n].key);
    }
  }

  /** Replaying the compacted logs gives every slot the value that replaying all logs gives it. */
  lemma {:induction false} CompactionReplays(before: Slots, after: Slots, protective: set<StorageKey>,
      logs: seq<WitnessLog>, k: StorageKey)
    requires IsCompaction(before, after, protective, logs)
    ensures Value(ReplayLogs(before, logs), k) == Value(after, k)
  {
    if Value(before, k) != Value(after, k) {
      assert WitnessLog(k, true, Value(after, k), Value(before, k)) in logs;
      var i :| 0 <= i < |logs| && logs[i] == WitnessLog(k, true, Value(after, k), Value(before, k));
      WrittenSlot(before, logs, i);
    } else {
      forall i | 0 <= i < |logs| && logs[i].isWrite ensures logs[i].key != k {
        assert logs[i] in logs;
      }
      UnwrittenSlot(before, logs, k);
    }
  }

  lemma {:induction false} FilterMembers(logs: seq<WitnessLog>)
    ensures forall log :: log in FilterBlockLogs(logs) <==> log in logs && log.isWrite
  {
    if logs != [] {
      var n := |logs| - 1;
      FilterMembers(logs[..n]);
      assert logs == logs[..n] + [logs[n]];
    }
  }

  /** Dropping the reads changes nothing. */
  lemma {:induction false} FilterReplays(slots: Slots, logs: seq<WitnessLog>)
    ensures ReplayLogs(slots, FilterBlockLogs(logs)) == ReplayLogs(slots, logs)
  {
    if logs != [] {
      var n := |logs| - 1;
      FilterReplays(slots, logs[..n]);
      var kept := FilterBlockLogs(logs[..n]);
      if logs[n].isWrite {
        assert FilterBlockLogs(logs) == kept + [logs[n]];
        assert (kept + [logs[n]])[..|kept|] == kept;
      } else {
        assert FilterBlockLogs(logs) == kept;
      }
    }
  }

  lemma {:induction false} FilterAscends(logs: seq<WitnessLog>)
    requires Ascending(logs)
    ensures Ascending(FilterBlockLogs(logs))
  {
    if logs != [] {
      var n := |logs| - 1;
      var kept := FilterBlockLogs(logs[..n]);
      FilterAscends(logs[..n]);
      FilterMembers(logs[..n]);
      forall i | 0 <= i < |kept| ensures Less(kept[i].key, logs[n].key) {
        assert kept[i] in logs[..n];
        var j :| 0 <= j < n && logs[..n][j] == kept[i];
        assert logs[j] == kept[i];
      }
    }
  }

  // ---------------------------------------------------------------- The computation

  datatype Outcome = NoHeader | Stopped | Logs(logs: seq<WitnessLog>)

  /** `get_previous_storage_values`, without the lookup of the miniblock range. */
  function PreviousStorageValues(pg: Postgres, hash: StorageKey -> H256, hashes: set<H256>,
      firstMiniblock: nat): map<H256, Option<H256>> {
    if firstMiniblock == 0 then map h | h in hashes :: None
    else pg.StorageValues(hash, hashes, firstMiniblock - 1)
  }

  function OrDefault(v: Option<H256>): (r: H256)
    ensures r == if v.Some? then v.value else TreeKey(0, 0, 0, 0)
  {
    if v.Some? then v.value else ZERO
  }

  lemma {:induction false} PreviousValue(pg: Postgres, hash: StorageKey -> H256, hashes: set<H256>, b: nat,
      k: StorageKey)
    requires pg.MiniblockRange(b).Some? && hash(k) in hashes && NoCollision(hash, pg.Keys() + {k})
    ensures var values := PreviousStorageValues(pg, hash, hashes, pg.MiniblockRange(b).value.0);
            hash(k) in values && OrDefault(values[hash(k)]) == Value(pg.StateBefore(b), k)
  {
    var rows := Between(pg.rows, 0, pg.Start(b));
    BetweenMembers(pg.rows, 0, pg.Start(b));
    forall i | 0 <= i < |rows| && hash(rows[i].key) == hash(k) ensures rows[i].key == k {
      assert rows[i] in pg.rows;
    }
    LastValueIsReplay(hash, rows, k);
    if pg.Start(b) == 0 {
      BetweenEmpty(pg.rows, 0, 0);
    }
  }

  lemma CollisionFreePart(hash: StorageKey -> H256, keys: set<StorageKey>, part: set<StorageKey>)
    requires NoCollision(hash, keys) && part <= keys
    ensures NoCollision(hash, part)
  {
  }

  /** The previous values of all keys, each looked up by its hash. */
  ghost predicate PreviousValuesRight(hash: StorageKey -> H256, values: map<H256, Option<H256>>, before: Slots,
      keys: set<StorageKey>) {
    forall k :: k in keys ==> hash(k) in values && OrDefault(values[hash(k)]) == Value(before, k)
  }

  method PreviousValues(pg: Postgres, hash: StorageKey -> H256, keys: set<StorageKey>, b: nat)
    returns (values: map<H256, Option<H256>>)
    requires pg.MiniblockRange(b).Some? && NoCollision(hash, pg.Keys() + keys)
    ensures PreviousValuesRight(hash, values, pg.StateBefore(b), keys)
  {
    var hashes := set k | k in keys :: hash(k);
    values := PreviousStorageValues(pg, hash, hashes, pg.MiniblockRange(b).value.0);
    forall k | k in keys ensures hash(k) in values && OrDefault(values[hash(k)]) == Value(pg.StateBefore(b), k) {
      CollisionFreePart(hash, pg.Keys() + keys, pg.Keys() + {k});
      PreviousValue(pg, hash, hashes, b, k);
    }
  }

  /** The read log of every protective read; none if one of their slots changed. */
  method ProtectiveLogs(hash: StorageKey -> H256, values: map<H256, Option<H256>>, protective: set<StorageKey>,
      touched: Slots, ghost before: Slots)
    returns (logs: Option<map<StorageKey, WitnessLog>>)
    requires PreviousValuesRight(hash, values, before, protective)
    ensures logs.None? <==> exists k :: k in protective && Value(before, k) != Value(before + touched, k)
    ensures logs.Some? ==>
              logs.value == map k | k in protective :: WitnessLog(k, false, Value(before, k), Value(before, k))
  {
    var m: map<StorageKey, WitnessLog> := map[];
    var rest := protective;
    while rest != {}
      invariant rest <= protective
      invariant forall k :: k in protective - rest ==> Value(before, k) == Value(before + touched, k)
      invariant m == map k | k in protective - rest :: WitnessLog(k, false, Value(before, k), Value(before, k))
    {
      var k :| k in rest;
      var previousValue := OrDefault(values[hash(k)]);
      if k in touched && previousValue != touched[k] {
        return None;
      }
      m := m[k := WitnessLog(k, false, previousValue, previousValue)];
      rest := rest - {k};
    }
    logs := Some(m);
  }

  /** The write log of every slot whose value changed. */
  method WriteLogs(hash: StorageKey -> H256, values: map<H256, Option<H256>>, readLogs: map<StorageKey, WitnessLog>,
      touched: Slots, ghost before: Slots)
    returns (m: map<StorageKey, WitnessLog>)
    requires PreviousValuesRight(hash, values, before, touched.Keys)
    ensures forall k :: k in m <==> k in readLogs || (k in touched && touched[k] != Value(before, k))
    ensures forall k :: k in m ==>
              m[k] == if k in touched && touched[k] != Value(before, k)
                      then WitnessLog(k, true, touched[k], Value(before, k)) else readLogs[k]
  {
    m := readLogs;
    var rest := touched.Keys;
    while rest != {}
      invariant rest <= touched.Keys
      invariant forall k :: k in m <==> k in readLogs || (k in touched.Keys - rest && touched[k] != Value(before, k))
      invariant forall k :: k in m ==>
        m[k] == if k in touched.Keys - rest && touched[k] != Value(before, k)
                then WitnessLog(k, true, touched[k], Value(before, k)) else readLogs[k]
    {
      var k :| k in rest;
      var previousValue := OrDefault(values[hash(k)]);
      if previousValue != touched[k] {
        m := m[k := WitnessLog(k, true, touched[k], previousValue)];
      }
      rest := rest - {k};
    }
  }

  /** `get_logs_for_l1_batch`. */
  method GetLogsForL1Batch(pg: Postgres, hash: StorageKey -> H256, b: nat) returns (r: Outcome)
    requires pg.Valid() && NoCollision(hash, pg.Keys() + pg.ProtectiveReads(b))
    ensures r.NoHeader? <==> b !in pg.headers
    ensures r.Stopped? <==>
              && b in pg.headers
              && (b in pg.batchOf ==>
                    exists k ::
                      k in pg.ProtectiveReads(b) && Value(pg.StateBefore(b), k) != Value(pg.StateBefore(b + 1), k))
    ensures r.Logs? ==> IsCompaction(pg.StateBefore(b), pg.StateBefore(b + 1), pg.ProtectiveReads(b), r.logs)
    ensures r.Logs? ==>
              forall i, j :: 0 <= i < j < |r.logs| ==>
                FromBE(ToBytes(r.logs[i].key.address) + ToBytes(r.logs[i].key.key))
                < FromBE(ToBytes(r.logs[j].key.address) + ToBytes(r.logs[j].key.key))
    ensures r.Logs? ==> forall log :: log in r.logs && !log.isWrite ==>
              b in pg.protectiveReads && log.key in pg.protectiveReads[b]
    ensures r.Logs? && b in pg.protectiveReads ==> forall k :: k in pg.protectiveReads[b] ==>
              WitnessLog(k, false, Value(pg.StateBefore(b), k), Value(pg.StateBefore(b), k)) in r.logs
  {
    hide ToBytes, FromBE;
    if b !in pg.headers {
      return NoHeader;
    }
    pg.RangeIsMinMax(b);
    var protective, touched := pg.ProtectiveReads(b), pg.TouchedSlots(b);
    if pg.MiniblockRange(b).None? {
      return Stopped;
    }
    ghost var before := pg.StateBefore(b);
    pg.BatchStep(b);
    pg.TouchedKeys(b);
    CollisionFreePart(hash, pg.Keys() + protective, pg.Keys() + (protective + touched.Keys));
    var values := PreviousValues(pg, hash, protective + touched.Keys, b);
    var readLogs := ProtectiveLogs(hash, values, protective, touched, before);
    if readLogs.None? {
      return Stopped;
    }
    var m := WriteLogs(hash, values, readLogs.value, touched, before);
    var logs := IntoValues(m);
    CompactionOfMap(before, touched, protective, m, logs);
    r := Logs(logs);
  }

  lemma {:induction false} CompactionOfMap(before: Slots, touched: Slots, protective: set<StorageKey>,
      m: map<StorageKey, WitnessLog>, logs: seq<WitnessLog>)
    requires forall k :: k in protective ==> Value(before, k) == Value(before + touched, k)
    requires forall k :: k in m <==> k in protective || (k in touched && touched[k] != Value(before, k))
    requires forall k :: k in m ==>
      m[k] == if k in touched && touched[k] != Value(before, k) then WitnessLog(k, true, touched[k], Value(before, k))
              else WitnessLog(k, false, Value(before, k), Value(before, k))
    requires Ascending(logs) && forall log :: log in logs <==> log.key in m && m[log.key] == log
    ensures IsCompaction(before, before + touched, protective, logs)
  {
  }
}
