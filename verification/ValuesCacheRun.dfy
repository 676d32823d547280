/** The cache among concurrent readers, senders of commands and the updater, while the log grows
    (state/src/postgres.rs). Each locked section, query or channel operation is one step. */
module ValuesCacheRun {
  import opened Wrappers
  import opened StorageHistory
  import opened ValuesCache

  /** The updater waits for a command, or has fetched what it needs for one. */
  datatype Updater = Waiting | Fetched(to: nat, keys: Option<set<H256>>)

  datatype System = System(rows: seq<Row>, sealed: nat, cache: Content, queue: seq<nat>, current: nat, updater: Updater)

  datatype Step =
    | Seal(logs: seq<StorageLog>)  // the next miniblock is sealed
    | Schedule(to: nat)            // a command is sent, unless it is a no-op already
    | Receive                      // the updater takes a command, and queries the modified keys
    | Finish                       // the updater takes the lock and moves the cache
    | Fill(h: H256)                // a reader caches the value it has read
    | Forget(h: H256)              // the cache evicts an entry

  const INITIAL: System := System([], 0, Content(0, map[]), [], 0, Waiting)

  predicate Enabled(s: System, step: Step) {
    match step
    case Receive => s.updater.Waiting? && s.queue != []
    case Finish => s.updater.Fetched?
    case _ => true
  }

  function Next(hash: StorageKey -> H256, s: System, step: Step): System
    requires Enabled(s, step)
  {
    match step
    case Seal(logs) => s.(rows := s.rows + NumberedRows(logs, s.sealed + 1), sealed := s.sealed + 1)
    case Schedule(to) => if s.cache.validFor < to then s.(queue := s.queue + [to]) else s
    case Receive =>
      var to, rest := s.queue[0], s.queue[1..];
      if to <= s.current then s.(queue := rest)
      else s.(queue := rest, updater := Fetched(to, Fetch(hash, s.rows, s.current, to)))
    case Finish =>
      s.(cache := Moved(s.cache, s.updater.to, s.updater.keys), current := s.updater.to, updater := Waiting)
    case Fill(h) => s.(cache := s.cache.(values := s.cache.values[h := ValueAt(hash, s.rows, h, s.cache.validFor)]))
    case Forget(h) => s.(cache := s.cache.(values := s.cache.values - {h}))
  }

  /** The assertion under the lock: nobody else has moved the cache. */
  predicate AssertionHolds(s: System, step: Step) {
    step.Finish? ==> s.cache.validFor == s.current
  }

  ghost predicate Inv(hash: StorageKey -> H256, s: System) {
    && Ordered(s.rows) && (forall i :: 0 <= i < |s.rows| ==> s.rows[i].miniblock <= s.sealed)
    && s.current == s.cache.validFor <= s.sealed
    && Correct(hash, s.rows, s.cache)
    && (s.updater.Fetched? ==>
          s.current < s.updater.to <= s.sealed && s.updater.keys == Fetch(hash, s.rows, s.current, s.updater.to))
  }

  lemma {:induction false} BetweenConcat(rows: seq<Row>, more: seq<Row>, lo: nat, hi: nat)
    ensures Between(rows + more, lo, hi) == Between(rows, lo, hi) + Between(more, lo, hi)
  {
    if more == [] {
      assert rows + more == rows;
    } else {
      assert (rows + more)[..|rows + more| - 1] == rows + more[..|more| - 1];
      BetweenConcat(rows, more[..|more| - 1], lo, hi);
    }
  }

  /** Rows of a later miniblock change nothing about earlier ones. */
  lemma {:induction false} LaterRows(hash: StorageKey -> H256, rows: seq<Row>, more: seq<Row>, sealed: nat)
    requires forall i :: 0 <= i < |more| ==> more[i].miniblock > sealed
    ensures forall h, m: nat :: m <= sealed ==> ValueAt(hash, rows + more, h, m) == ValueAt(hash, rows, h, m)
    ensures forall from: nat, to: nat :: to <= sealed ==>
              Fetch(hash, rows + more, from, to) == Fetch(hash, rows, from, to)
  {
    forall h, m: nat | m <= sealed ensures ValueAt(hash, rows + more, h, m) == ValueAt(hash, rows, h, m) {
      BetweenConcat(rows, more, 0, m + 1);
      BetweenEmpty(more, 0, m + 1);
      assert Between(rows, 0, m + 1) + [] == Between(rows, 0, m + 1);
    }
    forall from: nat, to: nat | to <= sealed ensures Fetch(hash, rows + more, from, to) == Fetch(hash, rows, from, to) {
      assert ModifiedKeys(hash, rows + more, from, to) == ModifiedKeys(hash, rows, from, to);
    }
  }

  lemma {:induction false} SealKeepsInv(hash: StorageKey -> H256, s: System, logs: seq<StorageLog>)
    requires Inv(hash, s)
    ensures Inv(hash, Next(hash, s, Seal(logs)))
  {
    LaterRows(hash, s.rows, NumberedRows(logs, s.sealed + 1), s.sealed);
  }

  /** A command that is taken names a sealed miniblock. Whoever sends it has to see to that. */
  predicate TakesSealed(s: System, step: Step) {
    step.Receive? && s.queue != [] ==> s.queue[0] <= s.sealed
  }

  /** Every step, whatever the interleaving, keeps the invariant exactly if it takes no command for a
      miniblock that is not sealed. */
  lemma {:induction false} StepKeepsInv(hash: StorageKey -> H256, s: System, step: Step)
    requires Inv(hash, s) && Enabled(s, step)
    ensures Inv(hash, Next(hash, s, step)) <==> TakesSealed(s, step)
  {
    if step.Seal? {
      SealKeepsInv(hash, s, step.logs);
    } else if step.Finish? {
      MovedIsCorrect(hash, s.rows, s.cache, s.updater.to);
    }
  }

  /** What the assertion rests on: nobody but the updater moves the cache, and only forward. */
  predicate Paired(s: System) {
    s.current == s.cache.validFor && (s.updater.Fetched? ==> s.current < s.updater.to)
  }

  lemma {:induction false} StepKeepsPaired(hash: StorageKey -> H256, s: System, step: Step)
    requires Paired(s) && Enabled(s, step)
    ensures Paired(Next(hash, s, step)) && AssertionHolds(s, step)
    ensures s.cache.validFor <= Next(hash, s, step).cache.validFor
  {
  }

  ghost predicate StepAt(hash: StorageKey -> H256, states: seq<System>, steps: seq<Step>, i: nat)
    requires |states| == |steps| + 1 && i < |steps|
  {
    Enabled(states[i], steps[i]) && states[i + 1] == Next(hash, states[i], steps[i])
  }

  ghost predicate IsRun(hash: StorageKey -> H256, states: seq<System>, steps: seq<Step>) {
    && |states| == |steps| + 1 && states[0] == INITIAL
    && forall i: nat :: i < |steps| ==> StepAt(hash, states, steps, i)
  }

  /** In every run, with any commands, `validFor` never decreases and the assertion never fails. */
  lemma {:induction false} RunsStayPaired(hash: StorageKey -> H256, states: seq<System>, steps: seq<Step>, i: nat,
      j: nat)
    requires IsRun(hash, states, steps) && i <= j <= |steps|
    ensures Paired(states[j]) && states[i].cache.validFor <= states[j].cache.validFor
    ensures j < |steps| && steps[j].Finish? ==> states[j].cache.validFor == states[j].current
    decreases j
  {
    if j > 0 {
      RunsStayPaired(hash, states, steps, if i < j then i else j - 1, j - 1);
      assert StepAt(hash, states, steps, j - 1);
      StepKeepsPaired(hash, states[j - 1], steps[j - 1]);
    }
    if j < |steps| {
      assert StepAt(hash, states, steps, j);
      StepKeepsPaired(hash, states[j], steps[j]);
    }
  }

  /** A command is done, waits in the channel, or is overtaken by one the updater is at. */
  predicate Followed(s: System, to: nat) {
    to <= s.cache.validFor || to in s.queue || (s.updater.Fetched? && to <= s.updater.to)
  }

  lemma FollowedStep(hash: StorageKey -> H256, s: System, step: Step, to: nat)
    requires Paired(s) && Enabled(s, step) && (Followed(s, to) || step == Schedule(to))
    ensures Followed(Next(hash, s, step), to)
  {
    hide Fetch, Moved, ValueAt, NumberedRows;
    assert s.queue != [] ==> s.queue == [s.queue[0]] + s.queue[1..];
    if step.Finish? {
      MovesTo(s.cache, s.updater.to, s.updater.keys);
    }
  }

  lemma MovesTo(c: Content, to: nat, keys: Option<set<H256>>)
    ensures Moved(c, to, keys).validFor == to
  {
  }

  /** No command is lost: once the channel is empty and the updater waits, the cache is valid for every
      miniblock ever asked for, or a later one. */
  lemma {:induction false} CommandsAreFollowed(hash: StorageKey -> H256, states: seq<System>, steps: seq<Step>,
      i: nat, j: nat, to: nat)
    requires IsRun(hash, states, steps) && i < j <= |steps| && steps[i] == Schedule(to)
    ensures to <= states[j].cache.validFor || to in states[j].queue
            || (states[j].updater.Fetched? && to <= states[j].updater.to)
    ensures states[j].queue == [] && states[j].updater == Waiting ==> to <= states[j].cache.validFor
    decreases j
  {
    RunsStayPaired(hash, states, steps, i, j - 1);
    assert StepAt(hash, states, steps, j - 1);
    if i < j - 1 {
      CommandsAreFollowed(hash, states, steps, i, j - 1, to);
    }
    FollowedStep(hash, states[j - 1], steps[j - 1], to);
  }

  /** The commands that were no no-ops when they were sent, in the order of sending. */
  ghost function Sent(states: seq<System>, steps: seq<Step>, n: nat): seq<nat>
    requires n <= |steps| < |states|
  {
    if n == 0 then []
    else if steps[n - 1].Schedule? && steps[n - 1].to > states[n - 1].cache.validFor
    then Sent(states, steps, n - 1) + [steps[n - 1].to]
    else Sent(states, steps, n - 1)
  }

  function Received(steps: seq<Step>, n: nat): nat
    requires n <= |steps|
  {
    if n == 0 then 0 else Received(steps, n - 1) + (if steps[n - 1].Receive? then 1 else 0)
  }

  /** The updater receives every command that was sent once, in the order of sending. */
  lemma {:induction false} ReceivedInOrder(hash: StorageKey -> H256, states: seq<System>, steps: seq<Step>, n: nat)
    requires IsRun(hash, states, steps) && n <= |steps|
    ensures Received(steps, n) <= |Sent(states, steps, n)|
    ensures states[n].queue == Sent(states, steps, n)[Received(steps, n)..]
    ensures n < |steps| && steps[n].Receive? ==>
              Received(steps, n) < |Sent(states, steps, n)|
              && states[n].queue[0] == Sent(states, steps, n)[Received(steps, n)]
  {
    if n > 0 {
      ReceivedInOrder(hash, states, steps, n - 1);
      assert StepAt(hash, states, steps, n - 1);
      hide Fetch, Moved, ValueAt, NumberedRows;
    }
    if n < |steps| {
      assert StepAt(hash, states, steps, n);
    }
  }

  ghost predicate Scheduled(steps: seq<Step>, n: nat, to: nat)
    requires n <= |steps|
  {
    exists i: nat :: i < n && steps[i] == Schedule(to)
  }

  /** The cache is only ever valid for 0 or a miniblock that was asked for. */
  lemma {:induction false} OnlyCommandsMove(hash: StorageKey -> H256, states: seq<System>, steps: seq<Step>, j: nat)
    requires IsRun(hash, states, steps) && j <= |steps|
    ensures states[j].cache.validFor == 0 || Scheduled(steps, j, states[j].cache.validFor)
    ensures forall to :: to in states[j].queue ==> Scheduled(steps, j, to)
    ensures states[j].updater.Fetched? ==> Scheduled(steps, j, states[j].updater.to)
  {
    if j > 0 {
      OnlyCommandsMove(hash, states, steps, j - 1);
      assert StepAt(hash, states, steps, j - 1);
      forall to ensures Scheduled(steps, j, to) <==> Scheduled(steps, j - 1, to) || steps[j - 1] == Schedule(to) {
        if Scheduled(steps, j - 1, to) {
          var i: nat :| i < j - 1 && steps[i] == Schedule(to);
          assert i < j;
        }
      }
      hide Scheduled, Fetch, ValueAt, NumberedRows;
      var queue := states[j - 1].queue;
      assert queue != [] ==> queue == [queue[0]] + queue[1..];
    }
  }

  /** In every run: as long as only commands for sealed miniblocks are taken, all cached values are at
      each moment those of the storage at `validFor`. */
  lemma {:induction false} RunsStayCorrect(hash: StorageKey -> H256, states: seq<System>, steps: seq<Step>, j: nat)
    requires IsRun(hash, states, steps) && j <= |steps|
    requires forall i :: 0 <= i < j ==> TakesSealed(states[i], steps[i])
    ensures Inv(hash, states[j])
  {
    if j > 0 {
      RunsStayCorrect(hash, states, steps, j - 1);
      assert StepAt(hash, states, steps, j - 1);
      StepKeepsInv(hash, states[j - 1], steps[j - 1]);
    }
  }

  lemma {:induction false} ValueOfLastRow(hash: StorageKey -> H256, rows: seq<Row>, row: Row, miniblock: nat)
    requires row.miniblock <= miniblock
    ensures ValueAt(hash, rows + [row], hash(row.key), miniblock) == row.value
  {
    var all := Between(rows + [row], 0, miniblock + 1);
    assert (rows + [row])[..|rows|] == rows;
    assert all == Between(rows, 0, miniblock + 1) + [row];
    assert all[|all| - 1] == row;
  }

  /** The steps that show it: the updater takes a command, moves the cache, a reader fills in a slot,
      and the next miniblock writes the slot. */
  function AfterEarly(hash: StorageKey -> H256, s: System, log: StorageLog): System
    requires s.updater.Waiting? && s.queue != [] && s.current < s.queue[0]
  {
    var moved := Next(hash, Next(hash, s, Receive), Finish);
    Next(hash, Next(hash, moved, Fill(hash(log.key))), Seal([log]))
  }

  lemma AfterEarlyShape(hash: StorageKey -> H256, s: System, log: StorageLog)
    requires s.updater.Waiting? && s.queue != [] && s.current < s.queue[0]
    ensures var after, h, to := AfterEarly(hash, s, log), hash(log.key), s.queue[0];
            && after.rows == s.rows + NumberedRows([log], s.sealed + 1) && after.cache.validFor == to
            && h in after.cache.values && after.cache.values[h] == ValueAt(hash, s.rows, h, to)
  {
    hide ValueAt, Fetch, NumberedRows;
  }

  /** Otherwise the cache can go wrong: once a command for a later miniblock is taken, a cached value
      is wrong as soon as the next miniblock writes its slot. */
  lemma {:induction false} EarlyCommandBreaks(hash: StorageKey -> H256, s: System, log: StorageLog)
    requires Inv(hash, s) && Enabled(s, Receive) && !TakesSealed(s, Receive)
    requires log.value != ValueAt(hash, s.rows, hash(log.key), s.queue[0])
    ensures s.current < s.queue[0] && !Correct(hash, AfterEarly(hash, s, log).rows, AfterEarly(hash, s, log).cache)
  {
    AfterEarlyShape(hash, s, log);
    hide AfterEarly, ValueAt, Inv;
    var row := Row(log.key, log.value, s.sealed + 1, 0);
    assert NumberedRows([log], s.sealed + 1) == [row];
    ValueOfLastRow(hash, s.rows, row, s.queue[0]);
  }
}
