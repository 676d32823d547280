/** Leaf numbers when several batches are saved at once, in terms of the storage log: which slots
    get them, in which order (ola_core/src/metadata_calculator/updater.rs, merkle_tree/src/storage.rs). */
module TreeOrder {
  import opened Wrappers
  import opened LeafEnumeration
  import opened TreeState
  import opened UnsavedBlocks
  import opened StorageHistory
  import opened LogCompaction
  import opened TreeHistory
  import opened TreeBatches

  function Hashed(hash: StorageKey -> H256, slots: seq<StorageKey>): (keys: seq<H256>)
    ensures |keys| == |slots| && forall i :: 0 <= i < |slots| ==> keys[i] == hash(slots[i])
  {
    seq(|slots|, i requires 0 <= i < |slots| => hash(slots[i]))
  }

  lemma {:induction false} EverSetGrows(pg: Postgres, b: nat, c: nat, k: StorageKey)
    requires b <= c && pg.EverSet(b, k)
    ensures pg.EverSet(c, k)
  {
    if b < c {
      EverSetGrows(pg, b, c - 1, k);
      pg.EverSetStep(c - 1, k);
    }
  }

  lemma InjectiveSetKeys(pg: Postgres, hash: StorageKey -> H256, depth: nat, b: nat, k: StorageKey)
    requires HashesFit(pg, hash, depth) && k in pg.Keys()
    ensures hash(k) in pg.SetKeys(hash, b) <==> pg.EverSet(b, k)
  {
    CollisionFreePart(hash, pg.Keys() + pg.ProtectiveReads(b), pg.Keys());
    hide NoCollision, HashesFit;
    if hash(k) in pg.SetKeys(hash, b) {
      var l :| l in pg.Keys() && pg.EverSet(b, l) && hash(l) == hash(k);
      if l != k {
        DistinctHashes(hash, pg.Keys(), l, k);
      }
    }
  }

  // ---------------------------------------------------------------- The slots one batch numbers

  ghost predicate Sorted(slots: seq<StorageKey>) {
    forall i, j :: 0 <= i < j < |slots| ==> Less(slots[i], slots[j])
  }

  ghost predicate Wrote(writes: seq<WitnessLog>, k: StorageKey) {
    exists i :: 0 <= i < |writes| && writes[i].key == k
  }

  /** A write of a slot that is not numbered is a first write: no other one has its key. */
  lemma {:induction false} NewWrite(pg: Postgres, hash: StorageKey -> H256, depth: nat, e: Enumeration, f: nat,
      writes: seq<WitnessLog>, n: nat)
    requires HashesFit(pg, hash, depth) && e.indices.Keys == pg.SetKeys(hash, f)
    requires Ascending(writes) && (forall w :: w in writes ==> w.key in pg.Keys()) && n < |writes|
    ensures hash(writes[n].key) in LeafEnumeration.After(e, OpsOf(hash, writes[..n])).indices
       <==> pg.EverSet(f, writes[n].key)
  {
    var k, ops := writes[n].key, OpsOf(hash, writes[..n]);
    AfterKeys(e, ops);
    InjectiveSetKeys(pg, hash, depth, f, k);
    CollisionFreePart(hash, pg.Keys() + pg.ProtectiveReads(f), pg.Keys());
    hide HashesFit, NoCollision;
    forall i | 0 <= i < n ensures ops[i].0 != hash(k) {
      assert writes[i] in writes && writes[n] in writes && Less(writes[i].key, k);
      DistinctHashes(hash, pg.Keys(), writes[i].key, k);
    }
  }

  lemma {:induction false} SlotsOfWrites(pg: Postgres, hash: StorageKey -> H256, depth: nat, e: Enumeration, f: nat,
      writes: seq<WitnessLog>)
    returns (slots: seq<StorageKey>)
    requires HashesFit(pg, hash, depth) && e.indices.Keys == pg.SetKeys(hash, f)
    requires Ascending(writes) && forall w :: w in writes ==> w.key in pg.Keys() && w.isWrite
    ensures Hashed(hash, slots) == NewKeys(e, OpsOf(hash, writes))
    ensures Sorted(slots) && forall k :: k in slots <==> Wrote(writes, k) && !pg.EverSet(f, k)
  {
    if writes == [] {
      slots := [];
    } else {
      var n := |writes| - 1;
      var before := SlotsOfWrites(pg, hash, depth, e, f, writes[..n]);
      NewWrite(pg, hash, depth, e, f, writes, n);
      assert writes[n] in writes;
      assert OpsOf(hash, writes)[..n] == OpsOf(hash, writes[..n]);
      hide HashesFit, Wrote, Sorted, Ascending, Postgres.EverSet, LeafEnumeration.After;
      slots := if pg.EverSet(f, writes[n].key) then before else before + [writes[n].key];
      SlotsStep(pg, f, writes, before, slots);
    }
  }

  lemma {:induction false} SlotsStep(pg: Postgres, f: nat, writes: seq<WitnessLog>, before: seq<StorageKey>,
      slots: seq<StorageKey>)
    requires Ascending(writes) && writes != []
    requires Sorted(before) && forall k :: k in before <==> Wrote(writes[..|writes| - 1], k) && !pg.EverSet(f, k)
    requires slots == if pg.EverSet(f, writes[|writes| - 1].key) then before else before + [writes[|writes| - 1].key]
    ensures Sorted(slots) && forall k :: k in slots <==> Wrote(writes, k) && !pg.EverSet(f, k)
  {
    var n := |writes| - 1;
    forall k ensures Wrote(writes, k) <==> Wrote(writes[..n], k) || k == writes[n].key {
      if Wrote(writes, k) {
        var i :| 0 <= i < |writes| && writes[i].key == k;
        assert i < n ==> writes[..n][i].key == k;
      }
      if Wrote(writes[..n], k) {
        var i :| 0 <= i < n && writes[..n][i].key == k;
        assert writes[i].key == k;
      }
    }
    forall i | 0 <= i < |before| ensures Less(before[i], writes[n].key) {
      assert before[i] in before;
      var j :| 0 <= j < n && writes[..n][j].key == before[i];
      assert writes[j].key == before[i];
    }
  }

  /** A batch numbers the slots that it changes and that were not set before `f`, in key order. */
  lemma {:induction false} SlotsOfBatch(pg: Postgres, hash: StorageKey -> H256, depth: nat, e: Enumeration, f: nat,
      b: nat, ops: seq<KeyedOp>)
    returns (slots: seq<StorageKey>)
    requires HashesFit(pg, hash, depth) && e.indices.Keys == pg.SetKeys(hash, f) && IsBatch(pg, hash, b, ops)
    ensures Hashed(hash, slots) == NewKeys(e, ops)
    ensures Sorted(slots) && forall k :: k in slots <==> Changes(pg, b, k) && !pg.EverSet(f, k)
  {
    var writes: seq<WitnessLog> :|
      WritesOf(pg.StateBefore(b), pg.StateBefore(b + 1), writes) && ops == OpsOf(hash, writes);
    WritesAreChanges(pg, b, writes);
    hide IsBatch, WritesOf, HashesFit, Sorted;
    slots := SlotsOfWrites(pg, hash, depth, e, f, writes);
  }

  lemma {:induction false} WritesAreChanges(pg: Postgres, b: nat, writes: seq<WitnessLog>)
    requires WritesOf(pg.StateBefore(b), pg.StateBefore(b + 1), writes)
    ensures Ascending(writes) && forall w :: w in writes ==> w.key in pg.Keys() && w.isWrite
    ensures forall k :: Wrote(writes, k) <==> Changes(pg, b, k)
  {
    pg.StateKeys(b);
    pg.StateKeys(b + 1);
    forall k ensures Wrote(writes, k) <==> Changes(pg, b, k) {
      if Wrote(writes, k) {
        var i :| 0 <= i < |writes| && writes[i].key == k;
        assert writes[i] in writes;
      }
      if Changes(pg, b, k) {
        assert WitnessLog(k, true, Value(pg.StateBefore(b + 1), k), Value(pg.StateBefore(b), k)) in writes;
      }
    }
  }

  // ---------------------------------------------------------------- The slots a range numbers

  /** Slot `k` is set for the first time before slot `l`, in an earlier batch or earlier in the same. */
  ghost predicate Precedes(pg: Postgres, first: nat, n: nat, k: StorageKey, l: StorageKey) {
    || (exists b :: first <= b <= n && pg.EverSet(b, k) && !pg.EverSet(b, l))
    || (Less(k, l) && forall b :: first <= b <= n ==> (pg.EverSet(b, k) <==> pg.EverSet(b, l)))
  }

  ghost predicate InOrder(pg: Postgres, first: nat, n: nat, slots: seq<StorageKey>) {
    forall i, j :: 0 <= i < j < |slots| ==> Precedes(pg, first, n, slots[i], slots[j])
  }

  ghost predicate NewlySet(pg: Postgres, first: nat, n: nat, k: StorageKey) {
    !pg.EverSet(first, k) && pg.EverSet(n, k)
  }

  lemma {:induction false} PrecedesStays(pg: Postgres, first: nat, n: nat, k: StorageKey, l: StorageKey)
    requires first <= n && Precedes(pg, first, n, k, l) && pg.EverSet(n, k) && pg.EverSet(n, l)
    ensures Precedes(pg, first, n + 1, k, l)
  {
    pg.EverSetStep(n, k);
    pg.EverSetStep(n, l);
    hide Postgres.EverSet, Less;
  }

  lemma {:induction false} SameBatchPrecedes(pg: Postgres, first: nat, n: nat, k: StorageKey, l: StorageKey)
    requires first <= n && !pg.EverSet(n, k) && !pg.EverSet(n, l) && pg.EverSet(n + 1, k) && pg.EverSet(n + 1, l)
    requires Less(k, l)
    ensures Precedes(pg, first, n + 1, k, l)
  {
    forall b | first <= b <= n + 1 ensures pg.EverSet(b, k) <==> pg.EverSet(b, l) {
      if b <= n {
        if pg.EverSet(b, k) {
          EverSetGrows(pg, b, n, k);
        }
        if pg.EverSet(b, l) {
          EverSetGrows(pg, b, n, l);
        }
      }
    }
  }

  lemma {:induction false} OrderStep(pg: Postgres, first: nat, n: nat, setBefore: seq<StorageKey>,
      setNow: seq<StorageKey>)
    requires first <= n && InOrder(pg, first, n, setBefore) && forall k :: k in setBefore <==> NewlySet(pg, first, n, k)
    requires Sorted(setNow) && forall k :: k in setNow <==> Changes(pg, n, k) && !pg.EverSet(n, k)
    ensures InOrder(pg, first, n + 1, setBefore + setNow)
    ensures forall k :: k in setBefore + setNow <==> NewlySet(pg, first, n + 1, k)
  {
    forall k ensures k in setBefore + setNow <==> NewlySet(pg, first, n + 1, k) {
      pg.EverSetStep(n, k);
      if pg.EverSet(first, k) {
        EverSetGrows(pg, first, n, k);
      }
    }
    hide Postgres.EverSet, Changes, Less;
    forall i, j | 0 <= i < j < |setBefore + setNow|
      ensures Precedes(pg, first, n + 1, (setBefore + setNow)[i], (setBefore + setNow)[j])
    {
      OrderOfTwo(pg, first, n, setBefore, setNow, i, j);
    }
  }

  lemma {:induction false} OrderOfTwo(pg: Postgres, first: nat, n: nat, setBefore: seq<StorageKey>,
      setNow: seq<StorageKey>, i: nat, j: nat)
    requires first <= n && InOrder(pg, first, n, setBefore) && forall k :: k in setBefore <==> NewlySet(pg, first, n, k)
    requires Sorted(setNow) && forall k :: k in setNow <==> Changes(pg, n, k) && !pg.EverSet(n, k)
    requires i < j < |setBefore + setNow|
    ensures Precedes(pg, first, n + 1, (setBefore + setNow)[i], (setBefore + setNow)[j])
  {
    var k, l := (setBefore + setNow)[i], (setBefore + setNow)[j];
    pg.EverSetStep(n, k);
    pg.EverSetStep(n, l);
    hide Postgres.EverSet, Less;
    if j < |setBefore| {
      assert k in setBefore && l in setBefore;
      PrecedesStays(pg, first, n, k, l);
    } else if i < |setBefore| {
      assert k in setBefore && l in setNow;
      assert pg.EverSet(n, k) && !pg.EverSet(n, l);
    } else {
      assert k in setNow && l in setNow && Less(setNow[i - |setBefore|], setNow[j - |setBefore|]);
      SameBatchPrecedes(pg, first, n, k, l);
    }
  }

  /** The slots whose keys the blocks number, in the order of their numbers. */
  ghost predicate AreSlots(pg: Postgres, hash: StorageKey -> H256, e: Enumeration, first: nat,
      blocks: seq<seq<KeyedOp>>, slots: seq<StorageKey>)
  {
    && Hashed(hash, slots) == NewKeys(e, Flatten(blocks))
    && InOrder(pg, first, first + |blocks|, slots)
    && forall k :: k in slots <==> NewlySet(pg, first, first + |blocks|, k)
  }

  lemma NoSlots(pg: Postgres, hash: StorageKey -> H256, e: Enumeration, first: nat)
    ensures AreSlots(pg, hash, e, first, [], [])
  {
  }

  lemma {:induction false} SlotsOfNext(pg: Postgres, hash: StorageKey -> H256, depth: nat, e: Enumeration, first: nat,
      blocks: seq<seq<KeyedOp>>, ops: seq<KeyedOp>, earlier: seq<StorageKey>)
    returns (slots: seq<StorageKey>)
    requires HashesFit(pg, hash, depth) && AreSlots(pg, hash, e, first, blocks, earlier)
    requires LeafEnumeration.After(e, Flatten(blocks)).indices.Keys == pg.SetKeys(hash, first + |blocks|)
    requires IsBatch(pg, hash, first + |blocks|, ops)
    ensures AreSlots(pg, hash, e, first, blocks + [ops], slots)
  {
    hide HashesFit, IsBatch, Sorted, InOrder, NewlySet, Changes;
    var n := first + |blocks|;
    var last := SlotsOfBatch(pg, hash, depth, LeafEnumeration.After(e, Flatten(blocks)), n, n, ops);
    OrderStep(pg, first, n, earlier, last);
    NewKeysConcat(e, Flatten(blocks), ops);
    HashedConcat(hash, earlier, last);
    assert (blocks + [ops])[..|blocks|] == blocks;
    slots := earlier + last;
  }

  /** If each batch of a range is saved on its own, the slots newly set get their numbers in the
      order in which they are first set. */
  lemma {:induction false} SlotsOfRange(pg: Postgres, hash: StorageKey -> H256, depth: nat, s: TreeState.State,
      first: nat, blocks: seq<seq<KeyedOp>>)
    returns (slots: seq<StorageKey>)
    requires pg.Valid() && HashesFit(pg, hash, depth) && Follows(pg, hash, s, first)
    requires AreBatches(pg, hash, first, blocks)
    ensures AreSlots(pg, hash, s.numbering, first, blocks, slots)
  {
    hide *;
    if blocks == [] {
      NoSlots(pg, hash, s.numbering, first);
      slots := [];
    } else {
      var n := |blocks| - 1;
      AllButLast(pg, hash, first, blocks);
      NumberedBefore(pg, hash, depth, s, first, blocks[..n]);
      var earlier := SlotsOfRange(pg, hash, depth, s, first, blocks[..n]);
      slots := SlotsOfNext(pg, hash, depth, s.numbering, first, blocks[..n], blocks[n], earlier);
      assert blocks[..n] + [blocks[n]] == blocks;
    }
  }

  lemma NumberedBefore(pg: Postgres, hash: StorageKey -> H256, depth: nat, s: TreeState.State, first: nat,
      blocks: seq<seq<KeyedOp>>)
    requires pg.Valid() && HashesFit(pg, hash, depth) && Follows(pg, hash, s, first)
    requires AreBatches(pg, hash, first, blocks)
    ensures LeafEnumeration.After(s.numbering, Flatten(blocks)).indices.Keys == pg.SetKeys(hash, first + |blocks|)
  {
    BlocksFollow(pg, hash, depth, s, first, blocks);
  }

  lemma HashedConcat(hash: StorageKey -> H256, a: seq<StorageKey>, b: seq<StorageKey>)
    ensures Hashed(hash, a + b) == Hashed(hash, a) + Hashed(hash, b)
  {
  }

  // ---------------------------------------------------------------- When the numbering is right

  /** Every slot that the earlier batches set for the first time is changed again by the last one, and
      a slot set for the first time before another one comes before it in key order. */
  ghost predicate NumbersKept(pg: Postgres, first: nat, last: nat) {
    && (forall k :: NewlySet(pg, first, last, k) ==> Changes(pg, last, k))
    && (forall k, l, b :: first <= b <= last && NewlySet(pg, first, b, k) && NewlySet(pg, b, last + 1, l) ==>
          Less(k, l))
  }

  lemma SortedIndex(ks: seq<StorageKey>, i: nat, j: nat)
    requires Sorted(ks) && i < |ks| && j < |ks|
    ensures Less(ks[i], ks[j]) <==> i < j
  {
  }

  lemma {:induction false} PrefixOfSorted(ks: seq<StorageKey>, ls: seq<StorageKey>)
    requires Sorted(ks) && Sorted(ls) && forall k :: k in ks ==> k in ls
    requires forall k, l :: k in ks && l in ls && l !in ks ==> Less(k, l)
    ensures ks <= ls
  {
    if ks != [] {
      var n := |ks| - 1;
      forall k ensures k in ks <==> k in ks[..n] || k == ks[n] {
        InLast(ks, k);
      }
      forall k | k in ks[..n] ensures Less(k, ks[n]) {
        var i :| 0 <= i < n && ks[i] == k;
      }
      PrefixOfSorted(ks[..n], ls);
      assert ks[n] in ks;
      var m :| 0 <= m < |ls| && ls[m] == ks[n];
      NextInSorted(ks, ls, m);
    }
  }

  /** All of `ks` but its last member come first in `ls`; then so does the last one, unless something
      lies between. */
  lemma {:induction false} NextInSorted(ks: seq<StorageKey>, ls: seq<StorageKey>, m: nat)
    requires Sorted(ks) && Sorted(ls) && ks != [] && ks[..|ks| - 1] <= ls && m < |ls| && ls[m] == ks[|ks| - 1]
    requires forall l :: l in ls && l !in ks[..|ks| - 1] ==> l == ks[|ks| - 1] || Less(ks[|ks| - 1], l)
    ensures ks <= ls
  {
    var n := |ks| - 1;
    if n > 0 {
      SortedIndex(ls, n - 1, m);
      assert ls[n - 1] == ks[n - 1];
    }
    SortedIndex(ls, m, n);
    forall i | 0 <= i < n ensures ks[..n][i] != ls[n] {
      SortedIndex(ls, i, n);
      assert ls[i] == ks[..n][i];
    }
    assert ls[n] in ls;
  }

  lemma HashesDistinguish(hash: StorageKey -> H256, keys: set<StorageKey>, a: StorageKey, b: StorageKey)
    requires NoCollision(hash, keys) && a in keys && b in keys
    ensures hash(a) == hash(b) <==> a == b
  {
  }

  lemma HashedPrefix(pg: Postgres, hash: StorageKey -> H256, depth: nat, ks: seq<StorageKey>, ls: seq<StorageKey>)
    requires HashesFit(pg, hash, depth) && forall k :: k in ks || k in ls ==> k in pg.Keys()
    ensures Hashed(hash, ks) <= Hashed(hash, ls) <==> ks <= ls
  {
    CollisionFreePart(hash, pg.Keys() + pg.ProtectiveReads(0), pg.Keys());
    hide NoCollision, HashesFit;
    if Hashed(hash, ks) <= Hashed(hash, ls) {
      forall i | 0 <= i < |ks| ensures ks[i] == ls[i] {
        assert ks[i] in ks && ls[i] in ls && Hashed(hash, ks)[i] == Hashed(hash, ls)[i];
        HashesDistinguish(hash, pg.Keys(), ks[i], ls[i]);
      }
    }
  }

  /** The members of both lists, as slots. */
  ghost predicate AreNumbered(pg: Postgres, first: nat, last: nat, ks: seq<StorageKey>, ls: seq<StorageKey>) {
    && InOrder(pg, first, last, ks) && (forall k :: k in ks <==> NewlySet(pg, first, last, k))
    && Sorted(ls) && (forall k :: k in ls <==> Changes(pg, last, k) && !pg.EverSet(first, k))
  }

  lemma {:induction false} LaterSet(pg: Postgres, first: nat, last: nat, b: nat, k: StorageKey)
    requires first <= b <= last
    ensures NewlySet(pg, first, b, k) ==> NewlySet(pg, first, last, k)
    ensures NewlySet(pg, b, last + 1, k) ==> !pg.EverSet(first, k) && (pg.EverSet(last, k) || Changes(pg, last, k))
  {
    pg.EverSetStep(last, k);
    if pg.EverSet(b, k) {
      EverSetGrows(pg, b, last, k);
    }
    if pg.EverSet(first, k) {
      EverSetGrows(pg, first, b, k);
    }
  }

  lemma {:induction false} KeptIsPrefix(pg: Postgres, first: nat, last: nat, ks: seq<StorageKey>, ls: seq<StorageKey>)
    requires first <= last && AreNumbered(pg, first, last, ks, ls) && NumbersKept(pg, first, last)
    ensures ks <= ls
  {
    forall i, j | 0 <= i < j < |ks| ensures Less(ks[i], ks[j]) {
      assert ks[i] in ks && ks[j] in ks && Precedes(pg, first, last, ks[i], ks[j]);
      KeptIsLess(pg, first, last, ks[i], ks[j]);
    }
    forall k, l | k in ks && l in ls && l !in ks ensures Less(k, l) {
      pg.EverSetStep(last, l);
      assert NewlySet(pg, first, last, k) && NewlySet(pg, last, last + 1, l);
    }
    PrefixOfSorted(ks, ls);
  }

  lemma {:induction false} KeptIsLess(pg: Postgres, first: nat, last: nat, k: StorageKey, l: StorageKey)
    requires first <= last && NumbersKept(pg, first, last) && Precedes(pg, first, last, k, l)
    requires NewlySet(pg, first, last, k) && NewlySet(pg, first, last, l)
    ensures Less(k, l)
  {
    pg.EverSetStep(last, l);
    hide Postgres.EverSet, Less;
    if exists b :: first <= b <= last && pg.EverSet(b, k) && !pg.EverSet(b, l) {
      var b :| first <= b <= last && pg.EverSet(b, k) && !pg.EverSet(b, l);
      assert NewlySet(pg, first, b, k) && NewlySet(pg, b, last + 1, l);
    }
  }

  lemma OrderedIndex(pg: Postgres, first: nat, last: nat, ks: seq<StorageKey>, i: nat, j: nat)
    requires InOrder(pg, first, last, ks) && i < |ks| && j < |ks|
    ensures i < j || i == j || Precedes(pg, first, last, ks[j], ks[i])
  {
  }

  lemma PrefixMember(ks: seq<StorageKey>, ls: seq<StorageKey>, j: nat)
    requires ks <= ls && j < |ls|
    ensures j < |ks| ==> ls[j] in ks
  {
    if j < |ks| {
      assert ls[j] == ks[j];
    }
  }

  lemma {:induction false} PrefixIsLess(pg: Postgres, first: nat, last: nat, ks: seq<StorageKey>, ls: seq<StorageKey>,
      k: StorageKey, l: StorageKey, b: nat)
    requires AreNumbered(pg, first, last, ks, ls) && ks <= ls && first <= b <= last
    requires NewlySet(pg, first, b, k) && NewlySet(pg, b, last + 1, l)
    ensures Less(k, l)
  {
    LaterSet(pg, first, last, b, k);
    LaterSet(pg, first, last, b, l);
    assert k in ks;
    var i :| 0 <= i < |ks| && ks[i] == k;
    assert ls[i] == k;
    if l in ks {
      var j :| 0 <= j < |ks| && ks[j] == l;
      assert ls[j] == l;
      NotPreceded(pg, first, last, b, k, l);
      OrderedIndex(pg, first, last, ks, i, j);
      SortedIndex(ls, i, j);
    } else {
      assert l in ls;
      var j :| 0 <= j < |ls| && ls[j] == l;
      PrefixMember(ks, ls, j);
      SortedIndex(ls, i, j);
    }
  }

  lemma {:induction false} NotPreceded(pg: Postgres, first: nat, last: nat, b: nat, k: StorageKey, l: StorageKey)
    requires first <= b <= last && pg.EverSet(b, k) && !pg.EverSet(b, l)
    ensures !Precedes(pg, first, last, l, k) && k != l
  {
    forall c | first <= c <= last ensures pg.EverSet(c, l) ==> pg.EverSet(c, k) {
      if pg.EverSet(c, l) && c <= b {
        EverSetGrows(pg, c, b, l);
      }
      if c > b {
        EverSetGrows(pg, b, c, k);
      }
    }
  }

  lemma {:induction false} PrefixIsKept(pg: Postgres, first: nat, last: nat, ks: seq<StorageKey>, ls: seq<StorageKey>)
    requires first <= last && AreNumbered(pg, first, last, ks, ls) && ks <= ls
    ensures NumbersKept(pg, first, last)
  {
    forall k | NewlySet(pg, first, last, k) ensures Changes(pg, last, k) {
      assert k in ks;
      var i :| 0 <= i < |ks| && ks[i] == k;
      assert ls[i] in ls;
    }
    forall k, l, b | first <= b <= last && NewlySet(pg, first, b, k) && NewlySet(pg, b, last + 1, l)
      ensures Less(k, l)
    {
      PrefixIsLess(pg, first, last, ks, ls, k, l, b);
    }
  }

  /** The keys that the earlier batches of a range number are the first ones that the last batch
      numbers exactly if the numbers are kept. */
  lemma {:induction false} NumbersFirstIffKept(pg: Postgres, hash: StorageKey -> H256, depth: nat, s: TreeState.State,
      first: nat, last: nat, earlier: seq<seq<KeyedOp>>, ops: seq<KeyedOp>)
    requires IsRange(pg, hash, depth, s, first, last, earlier, ops)
    ensures NewKeys(s.numbering, Flatten(earlier)) <= NewKeys(s.numbering, ops) <==> NumbersKept(pg, first, last)
  {
    var ks := SlotsOfRange(pg, hash, depth, s, first, earlier);
    var ls := SlotsOfBatch(pg, hash, depth, s.numbering, first, last, ops);
    forall k | k in ks || k in ls ensures k in pg.Keys() {
      SetIsKey(pg, first, last, k);
    }
    assert AreNumbered(pg, first, last, ks, ls);
    hide HashesFit, Follows, AreBatches, IsBatch, AreNumbered, NumbersKept, Flatten;
    HashedPrefix(pg, hash, depth, ks, ls);
    if NumbersKept(pg, first, last) {
      KeptIsPrefix(pg, first, last, ks, ls);
    }
    if ks <= ls {
      PrefixIsKept(pg, first, last, ks, ls);
    }
  }

  lemma SetIsKey(pg: Postgres, first: nat, last: nat, k: StorageKey)
    requires NewlySet(pg, first, last, k) || Changes(pg, last, k)
    ensures k in pg.Keys()
  {
    if NewlySet(pg, first, last, k) {
      pg.EverSetIsKey(last, k);
    }
    pg.StateKeys(last);
    pg.StateKeys(last + 1);
  }
}
