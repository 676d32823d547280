/** The sequencer's local copy of the storage (state/src/rocksdb.rs). */
module RocksdbStorage {
  import opened Wrappers
  import opened Bytes
  import opened TreeTypes
  import opened StorageHistory

  /** The database: everything a write batch contains becomes durable at once. */
  class SequencerDb {
    var state: map<H256, H256>
    var blockNumber: Option<seq<byte>>
    var factoryDeps: FactoryDeps

    constructor ()
      ensures state == map[] && blockNumber == None && factoryDeps == map[]
    {
      state, blockNumber, factoryDeps := map[], None, map[];
    }
  }

  // ---------------------------------------------------------------- What the database must hold

  /** The values of the slots that were ever set before batch `n`, by hashed key. */
  ghost predicate HoldsSlots(pg: Postgres, hash: StorageKey -> H256, state: map<H256, H256>, n: nat) {
    && state.Keys == pg.SetKeys(hash, n)
    && forall k :: k in pg.Keys() && pg.EverSet(n, k) ==>
          hash(k) in state && state[hash(k)] == Value(pg.StateBefore(n), k)
  }

  ghost function DepsBefore(pg: Postgres, n: nat): FactoryDeps {
    if n == 0 then map[] else DepsBefore(pg, n - 1) + pg.FactoryDepsOf(n - 1)
  }

  /** A bytecode is known exactly if some batch below `n` brings it. */
  lemma {:induction false} DepsKnown(pg: Postgres, n: nat, h: H256)
    ensures h !in DepsBefore(pg, n) <==> forall b: nat :: b < n && b in pg.factoryDeps ==> h !in pg.factoryDeps[b]
  {
    if n > 0 {
      DepsKnown(pg, n - 1, h);
      assert h in DepsBefore(pg, n) <==>
          h in DepsBefore(pg, n - 1) || (n - 1 in pg.factoryDeps && h in pg.factoryDeps[n - 1]);
    }
  }

  /** The last of these batches counts. */
  lemma {:induction false} DepsLatest(pg: Postgres, n: nat, h: H256, b: nat)
    requires b < n && b in pg.factoryDeps && h in pg.factoryDeps[b]
    requires forall c: nat :: b < c < n && c in pg.factoryDeps ==> h !in pg.factoryDeps[c]
    ensures h in DepsBefore(pg, n) && DepsBefore(pg, n)[h] == pg.factoryDeps[b][h]
  {
    if b < n - 1 {
      DepsLatest(pg, n - 1, h, b);
      assert n - 1 in pg.factoryDeps ==> h !in pg.factoryDeps[n - 1];
    }
  }

  ghost predicate HoldsNumber(stored: Option<seq<byte>>, n: nat) {
    n < U32_LIMIT && (if stored.Some? then stored.value == ToLE(n, 4) else n == 0)
  }

  ghost predicate Holds(pg: Postgres, hash: StorageKey -> H256, db: SequencerDb, n: nat)
    reads db
  {
    HoldsSlots(pg, hash, db.state, n) && db.factoryDeps == DepsBefore(pg, n) && HoldsNumber(db.blockNumber, n)
  }

  /** What of a batch's touched slots goes into the patch: a slot set to zero only if it is there. */
  ghost predicate IsPatch(hash: StorageKey -> H256, state: map<H256, H256>, touched: Slots, patch: Slots) {
    && (forall k :: k in patch <==> k in touched && (touched[k] != ZERO || hash(k) in state))
    && (forall k :: k in patch ==> patch[k] == touched[k])
  }

  ghost predicate IsPatched(hash: StorageKey -> H256, state: map<H256, H256>, patch: Slots, state': map<H256, H256>) {
    && (forall h :: h in state' <==> h in state || exists k :: k in patch && hash(k) == h)
    && (forall k :: k in patch ==> state'[hash(k)] == patch[k])
    && (forall h :: h in state && (forall k :: k in patch ==> hash(k) != h) ==> state'[h] == state[h])
  }

  /** Whether a slot is present after a batch: it was, or the batch leaves it nonzero. */
  lemma {:induction false} PresenceStep(pg: Postgres, hash: StorageKey -> H256, state: map<H256, H256>, n: nat,
      patch: Slots, k: StorageKey)
    requires pg.Valid() && NoCollision(hash, pg.Keys()) && HoldsSlots(pg, hash, state, n)
    requires IsPatch(hash, state, pg.TouchedSlots(n), patch) && k in pg.Keys()
    ensures pg.EverSet(n + 1, k) <==> pg.EverSet(n, k) || k in patch
    ensures k in patch ==> patch[k] == Value(pg.StateBefore(n + 1), k)
    ensures k !in patch && pg.EverSet(n, k) ==> Value(pg.StateBefore(n + 1), k) == Value(pg.StateBefore(n), k)
  {
    pg.BatchStep(n);
    pg.EverSetStep(n, k);
    assert !pg.EverSet(n, k) ==> Value(pg.StateBefore(n), k) == ZERO;
    if hash(k) in state {
      var j :| j in pg.Keys() && pg.EverSet(n, j) && hash(j) == hash(k);
      assert j == k;
    }
  }

  lemma {:induction false} KeysStep(pg: Postgres, hash: StorageKey -> H256, state: map<H256, H256>, n: nat,
      patch: Slots, h: H256)
    requires pg.Valid() && NoCollision(hash, pg.Keys()) && HoldsSlots(pg, hash, state, n)
    requires IsPatch(hash, state, pg.TouchedSlots(n), patch) && patch.Keys <= pg.Keys()
    ensures h in pg.SetKeys(hash, n + 1) <==> h in state || exists k :: k in patch && hash(k) == h
  {
    if h in pg.SetKeys(hash, n) {
      var k :| k in pg.Keys() && pg.EverSet(n, k) && hash(k) == h;
      PresenceStep(pg, hash, state, n, patch, k);
    }
    if k :| k in patch && hash(k) == h {
      PresenceStep(pg, hash, state, n, patch, k);
    }
    if h in pg.SetKeys(hash, n + 1) {
      var k :| k in pg.Keys() && pg.EverSet(n + 1, k) && hash(k) == h;
      PresenceStep(pg, hash, state, n, patch, k);
    }
  }

  lemma {:induction false} ValueStep(pg: Postgres, hash: StorageKey -> H256, state: map<H256, H256>, n: nat,
      patch: Slots, state': map<H256, H256>, k: StorageKey)
    requires pg.Valid() && NoCollision(hash, pg.Keys()) && HoldsSlots(pg, hash, state, n)
    requires IsPatch(hash, state, pg.TouchedSlots(n), patch) && patch.Keys <= pg.Keys()
    requires IsPatched(hash, state, patch, state')
    requires k in pg.Keys() && pg.EverSet(n + 1, k)
    ensures hash(k) in state' && state'[hash(k)] == Value(pg.StateBefore(n + 1), k)
  {
    PresenceStep(pg, hash, state, n, patch, k);
    if k !in patch {
      forall j | j in patch ensures hash(j) != hash(k) {
        assert j in pg.Keys();
      }
    }
  }

  /** Writing the patch of a batch takes the slots one batch further. */
  lemma {:induction false} SlotsStep(pg: Postgres, hash: StorageKey -> H256, state: map<H256, H256>, n: nat,
      patch: Slots, state': map<H256, H256>)
    requires pg.Valid() && NoCollision(hash, pg.Keys()) && HoldsSlots(pg, hash, state, n)
    requires IsPatch(hash, state, pg.TouchedSlots(n), patch) && patch.Keys <= pg.Keys()
    requires IsPatched(hash, state, patch, state')
    ensures HoldsSlots(pg, hash, state', n + 1)
  {
    hide Postgres.EverSet;
    forall h ensures h in state' <==> h in pg.SetKeys(hash, n + 1) {
      KeysStep(pg, hash, state, n, patch, h);
    }
    forall k | k in pg.Keys() && pg.EverSet(n + 1, k)
      ensures hash(k) in state' && state'[hash(k)] == Value(pg.StateBefore(n + 1), k)
    {
      ValueStep(pg, hash, state, n, patch, state', k);
    }
  }

  lemma NumberRoundTrip(n: nat)
    requires n < U32_LIMIT
    ensures FromBE(Reversed(ToLE(n, 4))) == n
  {
    var s := ToBE(n, 4);
    assert Reversed(Reversed(s)) == s;
    Pow256Values();
    DecodeEncode(n, 4);
  }

  /** How far a process gets that lives to see `saves` saves. */
  function ReachedBy(n: nat, latest: Option<nat>, saves: nat): nat {
    if latest.None? || n > latest.value then n
    else if n + saves <= latest.value then n + saves
    else latest.value + 1
  }

  lemma ReachedByCases(n: nat, latest: nat, saves: nat)
    ensures ReachedBy(n, None, saves) == n
    ensures n > latest ==> ReachedBy(n, Some(latest), saves) == n
    ensures n + saves <= latest ==> ReachedBy(n, Some(latest), saves) == n + saves
    ensures n <= latest < n + saves ==> ReachedBy(n, Some(latest), saves) == latest + 1
  {
  }

  datatype UpdateError = BeforeGenesis | AheadOfPostgres | Killed

  class RocksdbStorage {
    const db: SequencerDb
    const hash: StorageKey -> H256
    var pendingState: Slots
    var pendingDeps: FactoryDeps

    constructor (db: SequencerDb, hash: StorageKey -> H256)
      ensures this.db == db && this.hash == hash && pendingState == map[] && pendingDeps == map[]
    {
      this.db, this.hash, pendingState, pendingDeps := db, hash, map[], map[];
    }

    method L1BatchNumber(ghost pg: Postgres, ghost n: nat) returns (r: nat)
      requires Holds(pg, hash, db, n)
      ensures r == n
    {
      if db.blockNumber.Some? {
        NumberRoundTrip(n);
        r := FromBE(Reversed(db.blockNumber.value));
      } else {
        r := 0;
      }
    }

    function ReadValueInner(k: StorageKey): Option<H256>
      reads this, db
    {
      if hash(k) in db.state then Some(db.state[hash(k)]) else None
    }

    /** `process_transaction_logs`, in whatever order the map is walked. */
    method ProcessTransactionLogs(updates: Slots)
      requires pendingState == map[]
      modifies this`pendingState
      ensures IsPatch(hash, db.state, updates, pendingState)
    {
      var rest := updates.Keys;
      while rest != {}
        invariant rest <= updates.Keys
        invariant forall k :: k in pendingState <==>
              k in updates.Keys - rest && (updates[k] != ZERO || hash(k) in db.state)
        invariant forall k :: k in pendingState ==> pendingState[k] == updates[k]
      {
        var k :| k in rest;
        if updates[k] != ZERO || ReadValueInner(k).Some? {
          pendingState := pendingState[k := updates[k]];
        }
        rest := rest - {k};
      }
    }

    method StoreFactoryDeps(deps: FactoryDeps)
      modifies this`pendingDeps
      ensures pendingDeps == old(pendingDeps) + deps
    {
      var rest := deps.Keys;
      while rest != {}
        invariant rest <= deps.Keys
        invariant pendingDeps == old(pendingDeps) + (map h | h in deps.Keys - rest :: deps[h])
      {
        var h :| h in rest;
        pendingDeps := pendingDeps[h := deps[h]];
        rest := rest - {h};
      }
      assert (map h | h in deps.Keys - rest :: deps[h]) == deps;
    }

    /** The write batch for the slots. */
    method SerializedState(patch: Slots) returns (batch: map<H256, H256>)
      requires NoCollision(hash, patch.Keys)
      ensures forall h :: h in batch <==> exists k :: k in patch && hash(k) == h
      ensures forall k :: k in patch ==> batch[hash(k)] == patch[k]
    {
      batch := map[];
      var rest := patch.Keys;
      while rest != {}
        invariant rest <= patch.Keys
        invariant forall h :: h in batch <==> exists k :: k in patch.Keys - rest && hash(k) == h
        invariant forall k :: k in patch.Keys - rest ==> batch[hash(k)] == patch[k]
      {
        var k :| k in rest;
        ghost var done := patch.Keys - rest;
        forall j | j in done ensures hash(j) != hash(k) {
        }
        batch := batch[hash(k) := patch[k]];
        rest := rest - {k};
        assert patch.Keys - rest == done + {k};
      }
    }

    /** `save`: the pending patch is taken and written together with the new number. */
    method Save(n: nat)
      requires n < U32_LIMIT && NoCollision(hash, pendingState.Keys)
      modifies this, db
      ensures pendingState == map[] && pendingDeps == map[]
      ensures IsPatched(hash, old(db.state), old(pendingState), db.state)
      ensures db.factoryDeps == old(db.factoryDeps) + old(pendingDeps) && HoldsNumber(db.blockNumber, n)
      ensures db.blockNumber.Some? && |db.blockNumber.value| == 4
      ensures forall i :: 0 <= i < 4 ==> db.blockNumber.value[i] == n / Pow256(i) % 256
    {
      forall i: nat | i < 4 ensures ToLE(n, 4)[i] == n / Pow256(i) % 256 {
        BytePlaces(n, 4, i);
      }
      var state, deps := pendingState, pendingDeps;
      pendingState, pendingDeps := map[], map[];
      var batch := SerializedState(state);
      db.blockNumber := Some(ToLE(n, 4));
      db.state := db.state + batch;
      db.factoryDeps := db.factoryDeps + deps;
    }

    /** Fills the pending patch with the changes of one batch. */
    method StageBatch(pg: Postgres, n: nat)
      requires pendingState == map[] && pendingDeps == map[]
      modifies this`pendingState, this`pendingDeps
      ensures IsPatch(hash, db.state, pg.TouchedSlots(n), pendingState) && pendingDeps == pg.FactoryDepsOf(n)
    {
      ProcessTransactionLogs(pg.TouchedSlots(n));
      StoreFactoryDeps(pg.FactoryDepsOf(n));
    }

    method SaveBatch(pg: Postgres, n: nat)
      requires pg.Valid() && NoCollision(hash, pg.Keys()) && Holds(pg, hash, db, n) && n + 1 < U32_LIMIT
      requires IsPatch(hash, db.state, pg.TouchedSlots(n), pendingState) && pendingDeps == pg.FactoryDepsOf(n)
      modifies this, db
      ensures Holds(pg, hash, db, n + 1) && pendingState == map[] && pendingDeps == map[]
    {
      pg.TouchedKeys(n);
      ghost var state, patch := db.state, pendingState;
      Save(n + 1);
      SlotsStep(pg, hash, state, n, patch, db.state);
    }

    /** `update_from_postgres`, of a process that lives to see `saves` saves. */
    method UpdateFromPostgres(pg: Postgres, latest: Option<nat>, saves: nat, ghost n: nat)
      returns (r: Result<nat, UpdateError>)
      requires pg.Valid() && NoCollision(hash, pg.Keys()) && Holds(pg, hash, db, n)
      requires pendingState == map[] && pendingDeps == map[] && (latest.Some? ==> latest.value + 1 < U32_LIMIT)
      modifies this, db
      ensures r.Failure? && r.error.BeforeGenesis? <==> latest == None
      ensures r.Failure? && r.error.AheadOfPostgres? <==> latest.Some? && n > latest.value + 1
      ensures r.Failure? && r.error.Killed? <==> latest.Some? && n + saves <= latest.value
      ensures r.Success? ==> r.value == latest.value + 1
      ensures Holds(pg, hash, db, ReachedBy(n, latest, saves))
      ensures r.Success? ==> Holds(pg, hash, db, latest.value + 1)
      ensures r.Failure? && r.error.Killed? ==> Holds(pg, hash, db, n + saves)
      ensures r.Failure? && !r.error.Killed? ==> Holds(pg, hash, db, n)
    {
      hide *;
      ReachedByCases(n, if latest.Some? then latest.value else 0, saves);
      if latest.None? {
        return Failure(BeforeGenesis);
      }
      var current := L1BatchNumber(pg, n);
      if current > latest.value + 1 {
        return Failure(AheadOfPostgres);
      }
      var left := saves;
      while current <= latest.value
        invariant n <= current <= latest.value + 1 && left == saves - (current - n)
        invariant Holds(pg, hash, db, current) && pendingState == map[] && pendingDeps == map[]
      {
        StageBatch(pg, current);
        if left == 0 {
          return Failure(Killed);
        }
        SaveBatch(pg, current);
        current, left := current + 1, left - 1;
      }
      r := Success(current);
    }

    /** `read_value`. */
    method ReadValue(k: StorageKey, ghost pg: Postgres, ghost n: nat) returns (v: H256)
      requires Holds(pg, hash, db, n) && NoCollision(hash, pg.Keys() + {k})
      ensures v == Value(pg.StateBefore(n), k)
      ensures (pg.Valid() && forall r | r in pg.rows && r.key == k && r.miniblock < |pg.batchOf| ::
                 pg.batchOf[r.miniblock] >= n) ==> v == TreeKey(0, 0, 0, 0)
    {
      if pg.Valid() && forall r | r in pg.rows && r.key == k && r.miniblock < |pg.batchOf| ::
           pg.batchOf[r.miniblock] >= n
      {
        pg.NeverWritten(n, k);
      }
      IsPresent(pg, n, k);
      var inner := ReadValueInner(k);
      v := if inner.Some? then inner.value else ZERO;
    }

    /** `is_write_initial`. */
    method IsWriteInitial(k: StorageKey, ghost pg: Postgres, ghost n: nat) returns (initial: bool)
      requires Holds(pg, hash, db, n) && NoCollision(hash, pg.Keys() + {k})
      ensures initial <==> forall i: nat :: i <= n ==> Value(pg.StateBefore(i), k) == TreeKey(0, 0, 0, 0)
    {
      IsPresent(pg, n, k);
      initial := ReadValueInner(k).None?;
    }

    lemma IsPresent(pg: Postgres, n: nat, k: StorageKey)
      requires Holds(pg, hash, db, n) && NoCollision(hash, pg.Keys() + {k})
      ensures ReadValueInner(k).Some? <==> pg.EverSet(n, k)
      ensures ReadValueInner(k).Some? ==> ReadValueInner(k).value == Value(pg.StateBefore(n), k)
      ensures ReadValueInner(k).None? ==> Value(pg.StateBefore(n), k) == ZERO
    {
      if pg.EverSet(n, k) {
        pg.EverSetIsKey(n, k);
      }
      if hash(k) in db.state {
        var j :| j in pg.Keys() && pg.EverSet(n, j) && hash(j) == hash(k);
        assert j == k;
      }
      assert !pg.EverSet(n, k) ==> Value(pg.StateBefore(n), k) == ZERO;
    }

    /** `load_factory_dep` looks into the pending patch first. */
    method LoadFactoryDep(h: H256, ghost pg: Postgres, ghost n: nat) returns (bytecode: Option<seq<nat>>)
      requires Holds(pg, hash, db, n)
      ensures var deps := DepsBefore(pg, n) + pendingDeps;
              bytecode == if h in deps then Some(deps[h]) else None
      ensures h in pendingDeps ==> bytecode == Some(pendingDeps[h])
      ensures h !in pendingDeps ==>
                (bytecode.None? <==> forall b: nat :: b < n && b in pg.factoryDeps ==> h !in pg.factoryDeps[b])
      ensures h !in pendingDeps ==>
                forall b: nat | b < n && b in pg.factoryDeps && h in pg.factoryDeps[b] ::
                  (forall c: nat :: b < c < n && c in pg.factoryDeps ==> h !in pg.factoryDeps[c]) ==>
                  bytecode == Some(pg.factoryDeps[b][h])
    {
      hide DepsBefore;
      DepsKnown(pg, n, h);
      forall b: nat | b < n && b in pg.factoryDeps && h in pg.factoryDeps[b]
                      && forall c: nat :: b < c < n && c in pg.factoryDeps ==> h !in pg.factoryDeps[c]
        ensures h in DepsBefore(pg, n) && DepsBefore(pg, n)[h] == pg.factoryDeps[b][h]
      {
        DepsLatest(pg, n, h, b);
      }
      if h in pendingDeps {
        return Some(pendingDeps[h]);
      }
      bytecode := if h in db.factoryDeps then Some(db.factoryDeps[h]) else None;
    }
  }
}
