/** The cache of storage values and its updater (state/src/postgres.rs). */
module ValuesCache {
  import opened Wrappers
  import opened TreeTypes
  import opened StorageHistory

  const MAX_MINIBLOCKS_LAG := 5

  /** `modified_keys_in_miniblocks`, for the miniblocks after `from` up to `to`. */
  function ModifiedKeys(hash: StorageKey -> H256, rows: seq<Row>, from: nat, to: nat): set<H256> {
    set r | r in rows && from < r.miniblock <= to :: hash(r.key)
  }

  /** The value of a slot at the end of a miniblock. */
  function ValueAt(hash: StorageKey -> H256, rows: seq<Row>, h: H256, miniblock: nat): H256 {
    var v := LastValue(hash, Between(rows, 0, miniblock + 1), h);
    if v.Some? then v.value else ZERO
  }

  datatype Content = Content(validFor: nat, values: map<H256, H256>)

  /** Every cached value is the storage value at the miniblock the cache is valid for. */
  ghost predicate Correct(hash: StorageKey -> H256, rows: seq<Row>, c: Content) {
    forall h :: h in c.values ==> c.values[h] == ValueAt(hash, rows, h, c.validFor)
  }

  /** What the updater fetches before it takes the lock: nothing if it is going to clear the cache. */
  function Fetch(hash: StorageKey -> H256, rows: seq<Row>, from: nat, to: nat): Option<set<H256>> {
    if to > from + MAX_MINIBLOCKS_LAG then None else Some(ModifiedKeys(hash, rows, from, to))
  }

  function Moved(c: Content, to: nat, fetched: Option<set<H256>>): Content {
    Content(to, if fetched.None? then map[] else c.values - fetched.value)
  }

  /** The value of a slot is zero before its first row, and from then on that of its row with the
      greatest miniblock and operation number up to the miniblock asked for. */
  lemma {:induction false} ValueIsLatestRow(hash: StorageKey -> H256, rows: seq<Row>, h: H256, miniblock: nat)
    requires Ordered(rows)
    ensures (forall r :: r in rows && hash(r.key) == h ==> r.miniblock > miniblock) ==>
              ValueAt(hash, rows, h, miniblock) == TreeKey(0, 0, 0, 0)
    ensures forall r | r in rows && hash(r.key) == h && r.miniblock <= miniblock ::
              (forall s :: s in rows && hash(s.key) == h && s.miniblock <= miniblock ==>
                 s.miniblock < r.miniblock || (s.miniblock == r.miniblock && s.operation <= r.operation)) ==>
              ValueAt(hash, rows, h, miniblock) == r.value
  {
    var part := Between(rows, 0, miniblock + 1);
    BetweenMembers(rows, 0, miniblock + 1);
    NoLastValue(hash, part, h);
    if exists r :: r in rows && hash(r.key) == h && r.miniblock <= miniblock {
      var latest := LastValueIsRow(hash, rows, h, miniblock);
    }
  }

  lemma LastRowFirst(hash: StorageKey -> H256, rows: seq<Row>, h: H256, miniblock: nat)
    requires rows != []
    ensures var last := rows[|rows| - 1];
            LastValue(hash, Between(rows, 0, miniblock + 1), h)
            == if hash(last.key) == h && last.miniblock <= miniblock then Some(last.value)
               else LastValue(hash, Between(rows[..|rows| - 1], 0, miniblock + 1), h)
  {
    var last, part := rows[|rows| - 1], Between(rows[..|rows| - 1], 0, miniblock + 1);
    assert (part + [last])[..|part|] == part && part + [] == part;
  }

  lemma {:induction false} LastValueIsRow(hash: StorageKey -> H256, rows: seq<Row>, h: H256, miniblock: nat)
    returns (r: Row)
    requires Ordered(rows) && exists s :: s in rows && hash(s.key) == h && s.miniblock <= miniblock
    ensures r in rows && hash(r.key) == h && r.miniblock <= miniblock
    ensures LastValue(hash, Between(rows, 0, miniblock + 1), h) == Some(r.value)
    ensures forall s :: s in rows && hash(s.key) == h && s.miniblock <= miniblock ==> s == r || Before(s, r)
  {
    var n := |rows| - 1;
    var last := rows[n];
    LastRowFirst(hash, rows, h, miniblock);
    hide LastValue, Between;
    assert rows == rows[..n] + [last];
    if hash(last.key) == h && last.miniblock <= miniblock {
      r := last;
      forall s | s in rows[..n] ensures Before(s, r) {
        var i :| 0 <= i < n && rows[..n][i] == s;
        assert rows[i] == s;
      }
    } else {
      r := LastValueIsRow(hash, rows[..n], h, miniblock);
    }
  }

  // ---------------------------------------------------------------- Slots that do not change

  lemma {:induction false} LastValueConcat(hash: StorageKey -> H256, rows: seq<Row>, more: seq<Row>, h: H256)
    ensures LastValue(hash, rows + more, h)
         == if LastValue(hash, more, h).Some? then LastValue(hash, more, h) else LastValue(hash, rows, h)
  {
    if more == [] {
      assert rows + more == rows;
    } else {
      assert (rows + more)[..|rows + more| - 1] == rows + more[..|more| - 1];
      LastValueConcat(hash, rows, more[..|more| - 1], h);
    }
  }

  lemma {:induction false} NoLastValue(hash: StorageKey -> H256, rows: seq<Row>, h: H256)
    ensures LastValue(hash, rows, h).None? <==> forall r :: r in rows ==> hash(r.key) != h
  {
    if rows != [] {
      NoLastValue(hash, rows[..|rows| - 1], h);
      assert rows == rows[..|rows| - 1] + [rows[|rows| - 1]];
    }
  }

  /** A slot without a row between two miniblocks has the same value at both. */
  lemma {:induction false} Unmodified(hash: StorageKey -> H256, rows: seq<Row>, h: H256, from: nat, to: nat)
    requires Ordered(rows) && from <= to && h !in ModifiedKeys(hash, rows, from, to)
    ensures ValueAt(hash, rows, h, to) == ValueAt(hash, rows, h, from)
  {
    BetweenSplits(rows, 0, from + 1, to + 1);
    LastValueConcat(hash, Between(rows, 0, from + 1), Between(rows, from + 1, to + 1), h);
    BetweenMembers(rows, from + 1, to + 1);
    NoLastValue(hash, Between(rows, from + 1, to + 1), h);
  }

  /** Moving the cache on keeps every value that stays in it right, in both branches. */
  lemma {:induction false} MovedIsCorrect(hash: StorageKey -> H256, rows: seq<Row>, c: Content, to: nat)
    requires Ordered(rows) && Correct(hash, rows, c) && c.validFor <= to
    ensures Correct(hash, rows, Moved(c, to, Fetch(hash, rows, c.validFor, to)))
  {
    var fetched := Fetch(hash, rows, c.validFor, to);
    if fetched.Some? {
      forall h | h in c.values && h !in fetched.value ensures c.values[h] == ValueAt(hash, rows, h, to) {
        Unmodified(hash, rows, h, c.validFor, to);
      }
    }
  }

  // ---------------------------------------------------------------- The object

  class ValuesCache {
    var validFor: nat
    var values: map<H256, H256>

    function View(): Content
      reads this
    {
      Content(validFor, values)
    }

    constructor ()
      ensures View() == Content(0, map[])
    {
      validFor, values := 0, map[];
    }

    /** `update`. The two preconditions are the assertion of the source and its subtraction. */
    method Update(hash: StorageKey -> H256, rows: seq<Row>, from: nat, to: nat)
      requires Ordered(rows) && Correct(hash, rows, View())
      requires validFor == from <= to
      modifies this
      ensures View() == Moved(old(View()), to, Fetch(hash, rows, from, to)) && Correct(hash, rows, View())
      ensures validFor == to && forall h :: h in values ==> h in old(values) && values[h] == old(values)[h]
      ensures to - from > 5 ==> values == map[]
      ensures to - from <= 5 ==> forall h :: h in old(values) ==>
                (h in values <==> forall r :: r in rows && from < r.miniblock <= to ==> hash(r.key) != h)
    {
      MovedIsCorrect(hash, rows, View(), to);
      if to - from > MAX_MINIBLOCKS_LAG {
        validFor := to;
        values := map[];
      } else {
        var modifiedKeys := ModifiedKeys(hash, rows, from, to);
        validFor := to;
        var rest := modifiedKeys;
        while rest != {}
          invariant rest <= modifiedKeys && validFor == to
          invariant values == old(values) - (modifiedKeys - rest)
        {
          var key :| key in rest;
          values := values - {key};
          rest := rest - {key};
        }
        assert modifiedKeys - {} == modifiedKeys;
      }
    }

    /** The loop of the updater over the commands it receives: the cache moves to the largest. */
    method Updater(hash: StorageKey -> H256, rows: seq<Row>, commands: seq<nat>)
      requires Ordered(rows) && Correct(hash, rows, View())
      modifies this
      ensures Correct(hash, rows, View())
      ensures validFor >= old(validFor) && (validFor == old(validFor) || validFor in commands)
      ensures forall i :: 0 <= i < |commands| ==> commands[i] <= validFor
    {
      var currentMiniblock := validFor;
      for i := 0 to |commands|
        invariant currentMiniblock == validFor && Correct(hash, rows, View())
        invariant validFor >= old(validFor) && (validFor == old(validFor) || validFor in commands)
        invariant forall j :: 0 <= j < i ==> commands[j] <= validFor
      {
        var toMiniblock := commands[i];
        if toMiniblock <= currentMiniblock {
          continue;
        }
        Update(hash, rows, currentMiniblock, toMiniblock);
        currentMiniblock := toMiniblock;
      }
    }
  }
}
