/** The local copy over many processes: each updates from a longer history and may be stopped
    between any two saves (state/src/rocksdb.rs). */
module RocksdbRun {
  import opened Wrappers
  import opened Bytes
  import opened TreeTypes
  import opened StorageHistory
  import opened RocksdbStorage
  import SparseTree
  import TreeState
  import TreeHistory

  /** What the history has grown to, the last sealed batch, and how many saves the process lives to see. */
  datatype Session = Session(pg: Postgres, latest: nat, saves: nat)

  ghost predicate Sound(hash: StorageKey -> H256, s: Session) {
    s.pg.Valid() && NoCollision(hash, s.pg.Keys()) && s.latest + 1 < U32_LIMIT
  }

  ghost predicate Follow(s: Session, t: Session) {
    Grown(s.pg, t.pg, s.latest) && s.latest <= t.latest
  }

  ghost predicate IsRun(hash: StorageKey -> H256, run: seq<Session>) {
    && (forall i :: 0 <= i < |run| ==> Sound(hash, run[i]))
    && (forall i, j :: 0 <= i && j == i + 1 < |run| ==> Follow(run[i], run[j]))
  }

  /** The batch the copy has reached: each process adds what it saves, up to the last sealed batch. */
  function Reached(run: seq<Session>): nat {
    if run == [] then 0
    else ReachedBy(Reached(run[..|run| - 1]), Some(run[|run| - 1].latest), run[|run| - 1].saves)
  }

  lemma {:induction false} DepsStay(pg: Postgres, pg': Postgres, latest: nat, b: nat)
    requires Grown(pg, pg', latest) && b <= latest + 1
    ensures DepsBefore(pg', b) == DepsBefore(pg, b)
  {
    if b > 0 {
      DepsStay(pg, pg', latest, b - 1);
    }
  }

  /** What the copy holds stays right when the history grows. */
  lemma {:induction false} HoldsStays(pg: Postgres, pg': Postgres, hash: StorageKey -> H256, latest: nat,
      db: SequencerDb, n: nat)
    requires Grown(pg, pg', latest) && n <= latest + 1 && Holds(pg, hash, db, n)
    ensures Holds(pg', hash, db, n)
  {
    DepsStay(pg, pg', latest, n);
    PastSetKeys(pg, pg', hash, latest, n);
    forall k | k in pg'.Keys() && pg'.EverSet(n, k)
      ensures hash(k) in db.state && db.state[hash(k)] == Value(pg'.StateBefore(n), k)
    {
      PastEverSet(pg, pg', latest, n, k);
      PastStays(pg, pg', latest, n);
      pg.EverSetIsKey(n, k);
    }
  }

  lemma {:induction false} EmptyHolds(pg: Postgres, hash: StorageKey -> H256, db: SequencerDb)
    requires db.state == map[] && db.blockNumber == None && db.factoryDeps == map[]
    ensures Holds(pg, hash, db, 0)
  {
    pg.NothingBeforeGenesis();
    forall k ensures !pg.EverSet(0, k) {
    }
  }

  lemma {:induction false} ReachedNext(hash: StorageKey -> H256, run: seq<Session>, i: nat)
    requires IsRun(hash, run) && i < |run|
    ensures Reached(run[..i]) <= run[i].latest + 1
    ensures Reached(run[..i + 1]) == ReachedBy(Reached(run[..i]), Some(run[i].latest), run[i].saves)
    ensures Reached(run[..i + 1]) <= run[i].latest + 1
  {
    TakeNext(run, i);
    if i > 0 {
      ReachedNext(hash, run, i - 1);
      assert Follow(run[i - 1], run[i]);
    } else {
      assert run[..0] == [];
    }
  }

  lemma SessionSound(hash: StorageKey -> H256, run: seq<Session>, i: nat)
    requires IsRun(hash, run) && i < |run|
    ensures run[i].pg.Valid() && NoCollision(hash, run[i].pg.Keys()) && run[i].latest + 1 < U32_LIMIT
    ensures i + 1 < |run| ==> Grown(run[i].pg, run[i + 1].pg, run[i].latest)
  {
    assert Sound(hash, run[i]);
    assert i + 1 < |run| ==> Follow(run[i], run[i + 1]);
  }

  /** One process. It is never ahead of Postgres. */
  method RunSession(hash: StorageKey -> H256, db: SequencerDb, ghost run: seq<Session>, i: nat, session: Session)
    returns (r: Result<nat, UpdateError>)
    requires IsRun(hash, run) && i < |run| && run[i] == session && Holds(session.pg, hash, db, Reached(run[..i]))
    modifies db
    ensures Holds(session.pg, hash, db, Reached(run[..i + 1]))
    ensures i + 1 < |run| ==> Holds(run[i + 1].pg, hash, db, Reached(run[..i + 1]))
    ensures r
         == if Reached(run[..i]) + session.saves <= session.latest then Failure(Killed) else Success(session.latest + 1)
  {
    hide *;
    SessionSound(hash, run, i);
    ReachedNext(hash, run, i);
    var store := new RocksdbStorage(db, hash);
    r := store.UpdateFromPostgres(session.pg, Some(session.latest), session.saves, Reached(run[..i]));
    if i + 1 < |run| {
      HoldsStays(run[i].pg, run[i + 1].pg, hash, run[i].latest, db, Reached(run[..i + 1]));
    }
  }

  /** In every run the copy holds exactly the state of the batches it has reached, the number it
      stores included. */
  method RunSessions(hash: StorageKey -> H256, run: seq<Session>) returns (db: SequencerDb)
    requires IsRun(hash, run) && run != []
    ensures Holds(run[|run| - 1].pg, hash, db, Reached(run))
  {
    db := new SequencerDb();
    EmptyHolds(run[0].pg, hash, db);
    hide *;
    assert run[..0] == [];
    NothingReached();
    for i := 0 to |run|
      invariant fresh(db)
      invariant i < |run| ==> Holds(run[i].pg, hash, db, Reached(run[..i]))
      invariant i == |run| ==> Holds(run[|run| - 1].pg, hash, db, Reached(run[..i]))
    {
      var r := RunSession(hash, db, run, i, run[i]);
    }
    TakeAll(run);
  }

  lemma NothingReached()
    ensures Reached([]) == 0
  {
  }

  /** At the same batch the sequencer's copy and the state tree agree: the slots whose next write is
      not an initial one are exactly the numbered leaves, and both hold the same values. */
  lemma {:induction false} CopyAgreesWithTree(pg: Postgres, hash: StorageKey -> H256, state: map<H256, H256>,
      s: TreeState.State, n: nat)
    requires NoCollision(hash, pg.Keys()) && HoldsSlots(pg, hash, state, n) && TreeHistory.Follows(pg, hash, s, n)
    ensures state.Keys == s.numbering.indices.Keys
    ensures forall h :: h in state ==> state[h] == SparseTree.LeafValue(s.leaves, ToU256(h))
  {
    forall h | h in state ensures state[h] == SparseTree.LeafValue(s.leaves, ToU256(h)) {
      var k :| k in pg.Keys() && pg.EverSet(n, k) && hash(k) == h;
      pg.StateKeys(n);
      TreeHistory.MirroredValue(hash, s.leaves, pg.StateBefore(n), pg.Keys(), k);
    }
  }
}
