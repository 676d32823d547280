/** Whole runs of the mempool. */
module MempoolRun {
  import opened Wrappers
  import opened MempoolSpec

  datatype Event =
    | InsertOne(tx: Tx, initialNonces: map<nat, nat>)
    | TakeNext
    | RollBack(tx: Tx)
    | CollectGarbage(capacity: nat)

  /** What a caller has to respect: only rollbacks have a condition. */
  predicate Legal(p: Pool, event: Event) {
    event.RollBack? ==> event.tx.account in p.accounts && RollbackAllowed(p, event.tx)
  }

  /** The head that `next_transaction` takes, if there is one. */
  ghost function Head(p: Pool): Option<Tx> {
    if p.queue == {} then None
    else
      var a := Greatest(p.queue).account;
      if a in p.accounts && p.accounts[a].Ready() then Some(Top(p.accounts[a])) else None
  }

  ghost function Step(p: Pool, event: Event): Pool
    requires Inv(p) && Legal(p, event)
  {
    match event
    case InsertOne(tx, initialNonces) => Insert(p, tx, initialNonces)
    case TakeNext =>
      if p.queue == {} then p
      else
        NextFrom(p, Greatest(p.queue))
    case RollBack(tx) => Rollback(p, tx)
    case CollectGarbage(capacity) => Gc(p, capacity)
  }

  lemma {:induction false} StepKeepsInv(p: Pool, event: Event)
    requires Inv(p) && Legal(p, event)
    ensures Inv(Step(p, event))
  {
    match event
    case InsertOne(tx, initialNonces) => InsertKeepsInv(p, tx, initialNonces);
    case TakeNext =>
      if p.queue != {} {
        TakeKeepsInv(p);
      }
    case RollBack(tx) => RollbackKeepsInv(p, tx);
    case CollectGarbage(capacity) => GcKeepsInv(p, capacity);
  }

  /** A run: `states[i]` is the pool before event `i`, every event is legal where it happens. */
  ghost predicate IsLegalRun(states: seq<Pool>, events: seq<Event>) {
    && |states| == |events| + 1 && states[0] == EMPTY
    && forall i :: 0 <= i < |events| && Inv(states[i]) ==>
          Legal(states[i], events[i]) && states[i + 1] == Step(states[i], events[i])
  }

  /** A run in which every state is known to be valid. */
  ghost predicate IsRun(states: seq<Pool>, events: seq<Event>) {
    IsLegalRun(states, events) && forall i :: 0 <= i <= |events| ==> Inv(states[i])
  }

  lemma {:induction false} StateStaysValid(states: seq<Pool>, events: seq<Event>, n: nat)
    requires IsLegalRun(states, events) && n <= |events|
    ensures Inv(states[n])
  {
    if n == 0 {
      EmptyInv();
    } else {
      StateStaysValid(states, events, n - 1);
      StepKeepsInv(states[n - 1], events[n - 1]);
    }
  }

  /** Every reachable state is valid: the queue is the set of heads, the size is right, nothing is
      stashed. */
  lemma {:induction false} RunsStayValid(states: seq<Pool>, events: seq<Event>)
    requires IsLegalRun(states, events)
    ensures IsRun(states, events)
  {
    forall i | 0 <= i <= |events| ensures Inv(states[i]) {
      StateStaysValid(states, events, i);
    }
  }

  /** The head taken is, of all heads that are ready, the one received first; of several received
      at the same time, the one of the largest account. */
  lemma {:induction false} TakesEarliestHead(p: Pool, a: nat)
    requires Inv(p) && a in p.accounts && p.accounts[a].Ready()
    ensures Head(p).Some?
    ensures var head, other := Head(p).value, Top(p.accounts[a]);
            && (head.receivedAt < other.receivedAt || (head.receivedAt == other.receivedAt && head.account >= a))
            && head.account in p.accounts && head == Top(p.accounts[head.account])
  {
    var own := Score(a, Top(p.accounts[a]).receivedAt);
    assert PointsAtHead(p, own);
    assert own in p.queue && p.queue != {};
    var pointer := Greatest(p.queue);
    assert PointsAtHead(p, pointer);
    assert AccountOk(pointer.account, p.accounts[pointer.account]);
  }

  lemma {:induction false} NothingReadyNothingTaken(p: Pool)
    requires Inv(p)
    ensures Head(p) == None <==> forall a :: a in p.accounts ==> !p.accounts[a].Ready()
  {
    forall a | a in p.accounts && p.accounts[a].Ready() ensures Head(p).Some? {
      TakesEarliestHead(p, a);
    }
    if p.queue != {} {
      assert PointsAtHead(p, Greatest(p.queue));
    }
  }

  // ---------------------------------------------------------------- Nonces come out in order

  /** Neither a rollback nor garbage collection hits the account at this step. */
  ghost predicate LeavesAlone(p: Pool, event: Event, a: nat)
    requires Inv(p) && Legal(p, event)
  {
    && (event.RollBack? ==> event.tx.account != a)
    && (event.CollectGarbage? && a in p.accounts ==> a in Step(p, event).accounts)
  }

  /** The nonce that this step takes from account `a`, if it does. */
  ghost function TakenNonce(p: Pool, event: Event, a: nat): seq<nat> {
    if event.TakeNext? && Head(p).Some? && Head(p).value.account == a then [Head(p).value.nonce] else []
  }

  /** The nonces of the transactions of account `a` taken in the first `n` steps. */
  ghost function TakenNonces(states: seq<Pool>, events: seq<Event>, a: nat, n: nat): seq<nat>
    requires n <= |events| < |states|
  {
    if n == 0 then [] else TakenNonces(states, events, a, n - 1) + TakenNonce(states[n - 1], events[n - 1], a)
  }

  /** One step on an account that is left alone. */
  lemma {:induction false} NonceStep(p: Pool, event: Event, a: nat)
    requires Inv(p) && Legal(p, event) && LeavesAlone(p, event, a)
    ensures var taken, p' := TakenNonce(p, event, a), Step(p, event);
            && (taken != [] ==> a in p.accounts && taken == [p.accounts[a].nonce])
            && (a in p.accounts ==> a in p'.accounts && p'.accounts[a].nonce == p.accounts[a].nonce + |taken|)
  {
    if event.TakeNext? && p.queue != {} {
      var pointer := Greatest(p.queue);
      NothingIsSkipped(p);
      assert AccountOk(pointer.account, p.accounts[pointer.account]);
    }
  }

  /** `taken` are consecutive nonces, and the account goes on with the next one. */
  ghost predicate InOrder(p: Pool, a: nat, taken: seq<nat>) {
    && (forall j :: 0 <= j < |taken| ==> taken[j] == taken[0] + j)
    && (|taken| > 0 ==> a in p.accounts && p.accounts[a].nonce == taken[0] + |taken|)
  }

  lemma {:induction false} InOrderStep(p: Pool, event: Event, a: nat, taken: seq<nat>)
    requires Inv(p) && Legal(p, event) && LeavesAlone(p, event, a) && InOrder(p, a, taken)
    ensures InOrder(Step(p, event), a, taken + TakenNonce(p, event, a))
  {
    NonceStep(p, event, a);
    hide Inv, Legal, LeavesAlone, Step, Head;
  }

  lemma RunStep(states: seq<Pool>, events: seq<Event>, i: nat)
    requires IsRun(states, events) && i < |events|
    ensures Inv(states[i]) && Legal(states[i], events[i]) && states[i + 1] == Step(states[i], events[i])
  {
    hide Inv, Legal, Step;
  }

  /** As long as no rollback and no garbage collection hits an account, its transactions come out
      with consecutive nonces, and the account nonce is the one after the last of them. */
  lemma NoncesComeInOrder(states: seq<Pool>, events: seq<Event>, a: nat, n: nat)
    requires IsRun(states, events) && n <= |events|
    requires forall i :: 0 <= i < n ==> LeavesAlone(states[i], events[i], a)
    ensures var taken := TakenNonces(states, events, a, n);
            && (forall j :: 0 <= j < |taken| ==> taken[j] == taken[0] + j)
            && (taken != [] ==> a in states[n].accounts && states[n].accounts[a].nonce == taken[0] + |taken|)
  {
    TakenInOrder(states, events, a, n);
  }

  lemma {:induction false} TakenInOrder(states: seq<Pool>, events: seq<Event>, a: nat, n: nat)
    requires IsRun(states, events) && n <= |events|
    requires forall i :: 0 <= i < n ==> LeavesAlone(states[i], events[i], a)
    ensures InOrder(states[n], a, TakenNonces(states, events, a, n))
  {
    if n == 0 {
      assert TakenNonces(states, events, a, n) == [];
    } else {
      RunStep(states, events, n - 1);
      assert LeavesAlone(states[n - 1], events[n - 1], a);
      assert TakenNonces(states, events, a, n)
          == TakenNonces(states, events, a, n - 1) + TakenNonce(states[n - 1], events[n - 1], a);
      hide *;
      TakenInOrder(states, events, a, n - 1);
      InOrderStep(states[n - 1], events[n - 1], a, TakenNonces(states, events, a, n - 1));
    }
  }

  // ---------------------------------------------------------------- What a rollback can rely on

  /** Garbage collection drops the account at this step. */
  predicate Purges(p: Pool, event: Event, a: nat) {
    event.CollectGarbage? && p.size >= event.capacity && a in p.accounts && !p.accounts[a].Ready()
  }

  predicate InsertsFor(event: Event, a: nat) {
    event.InsertOne? && event.tx.account == a
  }

  /** An account is there after a step exactly if the step inserts for it, or it was there and is not
      purged. */
  lemma {:induction false} AccountStep(p: Pool, event: Event, a: nat)
    requires Inv(p) && Legal(p, event)
    ensures a in Step(p, event).accounts <==> InsertsFor(event, a) || (a in p.accounts && !Purges(p, event, a))
  {
    if event.TakeNext? && p.queue != {} {
      NothingIsSkipped(p);
    } else if event.CollectGarbage? && a in p.accounts {
      if p.accounts[a].Ready() {
        assert PointsAtHead(p, Score(a, Top(p.accounts[a]).receivedAt));
      }
      forall s | s in p.queue && s.account == a ensures p.accounts[a].Ready() {
        assert PointsAtHead(p, s);
      }
    }
  }

  /** Every purge of the account in these steps is followed by an insert for it. */
  ghost predicate PurgesMadeGood(states: seq<Pool>, events: seq<Event>, a: nat, from: nat, n: nat)
    requires n <= |events| < |states|
  {
    forall k :: from <= k < n && Purges(states[k], events[k], a) ==> exists j :: k < j < n && InsertsFor(events[j], a)
  }

  /** One more step: it inserts, or purges nothing that it leaves purged. */
  lemma {:induction false} MadeGoodStep(states: seq<Pool>, events: seq<Event>, a: nat, from: nat, n: nat)
    requires from <= n < |events| < |states|
    ensures PurgesMadeGood(states, events, a, from, n + 1)
       <==> InsertsFor(events[n], a) || (PurgesMadeGood(states, events, a, from, n) && !Purges(states[n], events[n], a))
  {
    if PurgesMadeGood(states, events, a, from, n + 1) && !InsertsFor(events[n], a) {
      forall k | from <= k < n && Purges(states[k], events[k], a)
        ensures exists j :: k < j < n && InsertsFor(events[j], a)
      {
        var j :| k < j < n + 1 && InsertsFor(events[j], a);
      }
    }
  }

  lemma NothingPurgedYet(states: seq<Pool>, events: seq<Event>, a: nat, from: nat)
    requires from <= |events| < |states|
    ensures PurgesMadeGood(states, events, a, from, from)
  {
  }

  lemma {:induction false} AccountOverSteps(states: seq<Pool>, events: seq<Event>, a: nat, from: nat, n: nat)
    requires IsRun(states, events) && from <= n <= |events| && a in states[from].accounts
    ensures a in states[n].accounts <==> PurgesMadeGood(states, events, a, from, n)
  {
    hide Inv, Legal, Step, PurgesMadeGood, Purges, InsertsFor;
    if n == from {
      NothingPurgedYet(states, events, a, from);
    } else {
      RunStep(states, events, n - 1);
      AccountOverSteps(states, events, a, from, n - 1);
      MadeGoodStep(states, events, a, from, n - 1);
      AccountStep(states[n - 1], events[n - 1], a);
    }
  }

  /** A rollback of a transaction taken at step `i` finds its account exactly if every garbage
      collection since then that purged the account was followed by an insert for it. */
  lemma {:induction false} RollbackFindsAccount(states: seq<Pool>, events: seq<Event>, i: nat, tx: Tx, n: nat)
    requires IsRun(states, events) && i < n <= |events| && events[i].TakeNext? && Head(states[i]) == Some(tx)
    ensures tx.account in states[n].accounts <==> PurgesMadeGood(states, events, tx.account, i + 1, n)
  {
    assert Inv(states[i]) && states[i + 1] == Step(states[i], events[i]);
    NothingIsSkipped(states[i]);
    assert AccountOk(Greatest(states[i].queue).account, states[i].accounts[Greatest(states[i].queue).account]);
    AccountOverSteps(states, events, tx.account, i + 1, n);
  }

  /** Two accounts with one transaction each. */
  function PoolOfTwo(): Pool {
    Insert(Insert(EMPTY, Tx(7, 0, 100, 0), map[]), Tx(8, 0, 101, 0), map[])
  }

  lemma PoolOfTwoHead()
    ensures Inv(PoolOfTwo()) && PoolOfTwo().queue != {} && Greatest(PoolOfTwo().queue) == Score(7, 100)
  {
    EmptyInv();
    InsertKeepsInv(EMPTY, Tx(7, 0, 100, 0), map[]);
    InsertKeepsInv(Insert(EMPTY, Tx(7, 0, 100, 0), map[]), Tx(8, 0, 101, 0), map[]);
    hide Inv;
    assert PoolOfTwo().queue == {Score(7, 100), Score(8, 101)};
    GreatestUnique(PoolOfTwo().queue, Score(7, 100), Greatest(PoolOfTwo().queue));
  }

  lemma PoolOfTwoTaken()
    ensures Inv(PoolOfTwo()) && Head(PoolOfTwo()) == Some(Tx(7, 0, 100, 0))
    ensures var q := Step(PoolOfTwo(), TakeNext);
            Inv(q) && q.size == 1 && 7 in q.accounts && !q.accounts[7].Ready()
  {
    PoolOfTwoHead();
    NothingIsSkipped(PoolOfTwo());
    TakeKeepsInv(PoolOfTwo());
    hide Inv, Core, NextFrom, Greatest;
  }

  /** The condition can fail: with the capacity reached by another account, garbage collection drops
      the account whose only transaction was just taken, and a rollback of it finds no account. */
  lemma TakenThenPurged()
    ensures Inv(PoolOfTwo()) && Head(PoolOfTwo()) == Some(Tx(7, 0, 100, 0))
    ensures Inv(Step(PoolOfTwo(), TakeNext))
    ensures 7 !in Step(Step(PoolOfTwo(), TakeNext), CollectGarbage(1)).accounts
  {
    PoolOfTwoTaken();
    AccountStep(Step(PoolOfTwo(), TakeNext), CollectGarbage(1), 7);
    hide Inv, Step, Head, PoolOfTwo;
  }
}
