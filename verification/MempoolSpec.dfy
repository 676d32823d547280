/** The mempool as a value (mempool/src/mempool_store.rs, mempool/src/types.rs): what every
    operation does, what all of them keep, and what follows for whole runs. */
module MempoolSpec {
  import opened Wrappers

  /** `payload` stands for everything the mempool does not look at. */
  datatype Tx = Tx(account: nat, nonce: nat, receivedAt: nat, payload: nat)

  datatype Score = Score(account: nat, receivedAt: nat)

  /** `MempoolScore::cmp`: an earlier time is greater, then the larger account. */
  predicate Less(a: Score, b: Score) {
    a.receivedAt > b.receivedAt || (a.receivedAt == b.receivedAt && a.account < b.account)
  }

  function ScoreOf(tx: Tx): Score {
    Score(tx.account, tx.receivedAt)
  }

  datatype Account = Account(transactions: map<nat, Tx>, nonce: nat) {
    predicate Ready() {
      nonce in transactions
    }
  }

  /** The transaction that leaves next. */
  function Top(acc: Account): Tx
    requires acc.Ready()
  {
    acc.transactions[acc.nonce]
  }

  datatype Pool = Pool(accounts: map<nat, Account>, queue: set<Score>, stashed: seq<nat>, size: int)

  const EMPTY: Pool := Pool(map[], {}, [], 0)

  // ---------------------------------------------------------------- Operations

  datatype InsertionMetadata = InsertionMetadata(newScore: Option<Score>, previousScore: Option<Score>, isNew: bool)

  function GetScore(acc: Account, nonce: nat): Option<Score> {
    if nonce in acc.transactions then Some(ScoreOf(acc.transactions[nonce])) else None
  }

  /** `AccountTransactions::insert`: an old transaction is skipped, one with the same nonce replaced. */
  function InsertTx(acc: Account, tx: Tx): (Account, InsertionMetadata) {
    if tx.nonce < acc.nonce then (acc, InsertionMetadata(None, None, false))
    else
      var previous := GetScore(acc, tx.nonce);
      (acc.(transactions := acc.transactions[tx.nonce := tx]),
       if tx.nonce == acc.nonce then InsertionMetadata(Some(ScoreOf(tx)), previous, previous.None?)
       else InsertionMetadata(None, None, previous.None?))
  }

  function Without(queue: set<Score>, score: Option<Score>): set<Score> {
    if score.Some? then queue - {score.value} else queue
  }

  function With(queue: set<Score>, score: Option<Score>): set<Score> {
    if score.Some? then queue + {score.value} else queue
  }

  function AccountFor(p: Pool, account: nat, initialNonces: map<nat, nat>): Account {
    if account in p.accounts then p.accounts[account]
    else Account(map[], if account in initialNonces then initialNonces[account] else 0)
  }

  function Insert(p: Pool, tx: Tx, initialNonces: map<nat, nat>): Pool {
    var (acc, metadata) := InsertTx(AccountFor(p, tx.account, initialNonces), tx);
    Pool(p.accounts[tx.account := acc],
         With(Without(p.queue, metadata.previousScore), metadata.newScore),
         p.stashed,
         if metadata.isNew then p.size + 1 else p.size)
  }

  function InsertAll(p: Pool, txs: seq<Tx>, initialNonces: map<nat, nat>): Pool {
    if txs == [] then p else Insert(InsertAll(p, txs[..|txs| - 1], initialNonces), txs[|txs| - 1], initialNonces)
  }

  ghost predicate IsGreatest(queue: set<Score>, s: Score) {
    s in queue && forall t :: t in queue && t != s ==> Less(t, s)
  }

  lemma {:induction false} GreatestExists(queue: set<Score>)
    requires queue != {}
    ensures exists s :: IsGreatest(queue, s)
    decreases queue
  {
    var s :| s in queue;
    var rest := queue - {s};
    if rest == {} {
      forall u | u in queue ensures u == s {
        assert u == s || u in rest;
      }
      assert IsGreatest(queue, s);
    } else {
      GreatestExists(rest);
      var t :| IsGreatest(rest, t);
      var greatest := if Less(t, s) then s else t;
      forall u | u in queue && u != greatest ensures Less(u, greatest) {
        assert u == s || u in rest;
      }
      assert IsGreatest(queue, greatest);
    }
  }

  lemma GreatestUnique(queue: set<Score>, s: Score, t: Score)
    requires IsGreatest(queue, s) && IsGreatest(queue, t)
    ensures s == t
  {
  }

  ghost function Greatest(queue: set<Score>): (s: Score)
    requires queue != {}
    ensures IsGreatest(queue, s)
  {
    GreatestExists(queue);
    var s :| IsGreatest(queue, s);
    s
  }

  /** The head of an account leaves; the pointer moves to the next nonce if it is there. */
  function TakeFrom(p: Pool, pointer: Score): Pool
    requires pointer.account in p.accounts && p.accounts[pointer.account].Ready()
  {
    var acc := p.accounts[pointer.account];
    var acc' := Account(acc.transactions - {acc.nonce}, acc.nonce + 1);
    Pool(p.accounts[pointer.account := acc'],
         With(p.queue - {pointer}, GetScore(acc', acc'.nonce)),
         p.stashed,
         p.size - 1)
  }

  /** What `split_off` cuts off: the pointer and everything greater. */
  function AtLeast(queue: set<Score>, pointer: Score): set<Score> {
    set s | s in queue && !Less(s, pointer)
  }

  /** A queue in ascending order. */
  ghost function Sorted(queue: set<Score>): (s: seq<Score>)
    ensures |s| == |queue| && forall t :: t in s <==> t in queue
    decreases queue
  {
    if queue == {} then [] else Sorted(queue - {Greatest(queue)}) + [Greatest(queue)]
  }

  /** Every account that a pointer names goes to the stash, with all its transactions. */
  function Stash(p: Pool, pointers: seq<Score>): Pool {
    if pointers == [] then p
    else
      var q, a := Stash(p, pointers[..|pointers| - 1]), pointers[|pointers| - 1].account;
      if a in q.accounts then
        q.(accounts := q.accounts - {a}, stashed := q.stashed + [a], size := q.size - |q.accounts[a].transactions|)
      else q
  }

  /** The pointers above the one that is taken. */
  ghost function Skipped(p: Pool, pointer: Score): seq<Score>
    requires pointer in p.queue
  {
    var tail := Sorted(AtLeast(p.queue, pointer));
    assert pointer in tail;
    tail[1..]
  }

  /** The pool once the pointers above the one taken are stashed. */
  ghost function Stashed(p: Pool, pointer: Score): Pool
    requires pointer in p.queue
  {
    Stash(p.(queue := p.queue - AtLeast(p.queue, pointer)), Skipped(p, pointer))
  }

  function Min(a: nat, b: nat): nat {
    if a < b then a else b
  }

  /** The nonce goes back to that of the transaction, and the pointer to its successor is removed. */
  function Rollback(p: Pool, tx: Tx): Pool
    requires tx.account in p.accounts
  {
    var acc := p.accounts[tx.account];
    p.(accounts := p.accounts[tx.account := acc.(nonce := Min(acc.nonce, tx.nonce))],
       queue := Without(p.queue, GetScore(acc, tx.nonce + 1)))
  }

  ghost function Total(accounts: map<nat, Account>): nat
    decreases accounts.Keys
  {
    if accounts == map[] then 0
    else
      var a :| a in accounts;
      assert (accounts - {a}).Keys == accounts.Keys - {a};
      |accounts[a].transactions| + Total(accounts - {a})
  }

  /** The accounts that the queue points at. */
  ghost function Kept(accounts: map<nat, Account>, queue: set<Score>): map<nat, Account> {
    map a | a in accounts && (exists s :: s in queue && s.account == a) :: accounts[a]
  }

  /** Above capacity, the accounts without a pointer are dropped. */
  ghost function Gc(p: Pool, capacity: nat): Pool {
    if p.size < capacity then p
    else
      var kept := Kept(p.accounts, p.queue);
      p.(accounts := kept, size := Total(kept))
  }

  // ---------------------------------------------------------------- The invariant

  /** Transactions sit under their own account and nonce, and none is older than the account. */
  ghost predicate AccountOk(a: nat, acc: Account) {
    forall n :: n in acc.transactions ==>
      n >= acc.nonce && acc.transactions[n].account == a && acc.transactions[n].nonce == n
  }

  /** The queue points at the head of an account, with the time of that head. */
  ghost predicate PointsAtHead(p: Pool, s: Score) {
    s.account in p.accounts && p.accounts[s.account].Ready()
    && p.accounts[s.account].transactions[p.accounts[s.account].nonce].receivedAt == s.receivedAt
  }

  ghost predicate AccountsOk(p: Pool) {
    forall a :: a in p.accounts ==> AccountOk(a, p.accounts[a])
  }

  ghost predicate QueueOk(p: Pool) {
    forall s :: s in p.queue <==> PointsAtHead(p, s)
  }

  /** Everything but the stash. */
  ghost predicate Core(p: Pool) {
    AccountsOk(p) && QueueOk(p) && p.size == Total(p.accounts)
  }

  ghost predicate Inv(p: Pool) {
    Core(p) && p.stashed == []
  }

  lemma WithoutTwo(accounts: map<nat, Account>, a: nat, b: nat)
    ensures accounts - {a} - {b} == accounts - {b} - {a}
  {
  }

  lemma {:induction false} TotalSplit(accounts: map<nat, Account>, a: nat)
    requires a in accounts
    ensures Total(accounts) == |accounts[a].transactions| + Total(accounts - {a})
    decreases accounts.Keys
  {
    var b :| b in accounts && Total(accounts) == |accounts[b].transactions| + Total(accounts - {b});
    if b != a {
      assert (accounts - {b}).Keys == accounts.Keys - {b};
      TotalSplit(accounts - {b}, a);
      assert (accounts - {a}).Keys == accounts.Keys - {a};
      TotalSplit(accounts - {a}, b);
      WithoutTwo(accounts, a, b);
    }
  }

  lemma {:induction false} TotalUpdate(accounts: map<nat, Account>, a: nat, acc: Account)
    ensures Total(accounts[a := acc])
         == Total(accounts) - (if a in accounts then |accounts[a].transactions| else 0) + |acc.transactions|
  {
    var after := accounts[a := acc];
    TotalSplit(after, a);
    assert after - {a} == accounts - {a};
    if a in accounts {
      TotalSplit(accounts, a);
    } else {
      assert accounts - {a} == accounts;
    }
  }

  lemma EmptyInv()
    ensures Inv(EMPTY)
  {
  }

  /** Only one account changed, and its pointer is right: then the queue is right. */
  lemma {:induction false} QueueFollows(p: Pool, p': Pool, a: nat, acc: Account)
    requires QueueOk(p) && p'.accounts == p.accounts[a := acc]
    requires forall s: Score :: s.account != a ==> (s in p'.queue <==> s in p.queue)
    requires forall s: Score :: s.account == a ==>
               (s in p'.queue <==> acc.Ready() && acc.transactions[acc.nonce].receivedAt == s.receivedAt)
    ensures QueueOk(p')
  {
    forall s ensures s in p'.queue <==> PointsAtHead(p', s) {
      assert s in p.queue <==> PointsAtHead(p, s);
    }
  }

  lemma {:induction false} InsertKeepsQueue(p: Pool, tx: Tx, initialNonces: map<nat, nat>)
    requires Inv(p)
    ensures QueueOk(Insert(p, tx, initialNonces))
  {
    var p' := Insert(p, tx, initialNonces);
    var acc := AccountFor(p, tx.account, initialNonces);
    assert tx.account in p.accounts ==> AccountOk(tx.account, acc);
    forall s: Score | s.account == tx.account
      ensures s in p.queue <==> acc.Ready() && acc.transactions[acc.nonce].receivedAt == s.receivedAt
    {
      assert s in p.queue <==> PointsAtHead(p, s);
    }
    QueueFollows(p, p', tx.account, p'.accounts[tx.account]);
  }

  lemma {:induction false} InsertKeepsSize(p: Pool, tx: Tx, initialNonces: map<nat, nat>)
    requires p.size == Total(p.accounts)
    ensures Insert(p, tx, initialNonces).size == Total(Insert(p, tx, initialNonces).accounts)
  {
    var acc := AccountFor(p, tx.account, initialNonces);
    var acc' := InsertTx(acc, tx).0;
    TotalUpdate(p.accounts, tx.account, acc');
    assert acc.transactions.Keys + {tx.nonce} == acc.transactions[tx.nonce := tx].Keys;
  }

  lemma {:induction false} InsertKeepsInv(p: Pool, tx: Tx, initialNonces: map<nat, nat>)
    requires Inv(p)
    ensures Inv(Insert(p, tx, initialNonces))
  {
    InsertKeepsSize(p, tx, initialNonces);
    InsertKeepsQueue(p, tx, initialNonces);
  }

  lemma {:induction false} TakeKeepsQueue(p: Pool, pointer: Score)
    requires Core(p) && PointsAtHead(p, pointer)
    ensures QueueOk(TakeFrom(p, pointer))
  {
    var p' := TakeFrom(p, pointer);
    var acc := p.accounts[pointer.account];
    assert AccountOk(pointer.account, acc);
    forall s: Score | s.account == pointer.account ensures s in p.queue <==> s == pointer {
      assert s in p.queue <==> PointsAtHead(p, s);
    }
    QueueFollows(p, p', pointer.account, p'.accounts[pointer.account]);
  }

  lemma RemoveOne(m: map<nat, Tx>, n: nat)
    requires n in m
    ensures |m - {n}| == |m| - 1
  {
    assert (m - {n}).Keys == m.Keys - {n};
    assert |m.Keys| == |m| && |(m - {n}).Keys| == |m - {n}|;
  }

  lemma {:induction false} TakeKeepsSize(p: Pool, pointer: Score)
    requires p.size == Total(p.accounts) && PointsAtHead(p, pointer)
    ensures TakeFrom(p, pointer).size == Total(TakeFrom(p, pointer).accounts)
  {
    var acc := p.accounts[pointer.account];
    var acc' := Account(acc.transactions - {acc.nonce}, acc.nonce + 1);
    RemoveOne(acc.transactions, acc.nonce);
    TotalUpdate(p.accounts, pointer.account, acc');
  }

  lemma {:induction false} SizeCoversAccount(accounts: map<nat, Account>, a: nat)
    requires a in accounts && accounts[a].Ready()
    ensures Total(accounts) >= 1
  {
    TotalSplit(accounts, a);
    assert accounts[a].nonce in accounts[a].transactions.Keys;
    assert |accounts[a].transactions.Keys| > 0;
  }

  /** In a valid pool a pointer is never dangling, so taking its head cannot fail. */
  lemma {:induction false} HeadKeepsCore(p: Pool, pointer: Score)
    requires Core(p) && pointer in p.queue
    ensures pointer.account in p.accounts && p.accounts[pointer.account].Ready()
    ensures Core(TakeFrom(p, pointer)) && p.size >= 1
  {
    assert PointsAtHead(p, pointer);
    TakeKeepsSize(p, pointer);
    SizeCoversAccount(p.accounts, pointer.account);
    TakeKeepsQueue(p, pointer);
    assert AccountOk(pointer.account, p.accounts[pointer.account]);
  }

  // ---------------------------------------------------------------- The operations in full

  /** What an insert does. An account that was not there starts at its initial nonce, or at 0. A
      transaction below the nonce of the account changes nothing else; any other one takes its place
      among the transactions, and the one that leaves next moves the pointer to its time. */
  lemma {:induction false} InsertInFull(p: Pool, tx: Tx, initialNonces: map<nat, nat>)
    ensures var q, a := Insert(p, tx, initialNonces), tx.account;
            var nonce := if a in p.accounts then p.accounts[a].nonce
                         else if a in initialNonces then initialNonces[a] else 0;
            var before := if a in p.accounts then p.accounts[a].transactions else map[];
            && q.accounts.Keys == p.accounts.Keys + {a}
            && (forall b :: b in p.accounts && b != a ==> q.accounts[b] == p.accounts[b])
            && q.accounts[a].nonce == nonce && q.stashed == p.stashed
            && (tx.nonce < nonce ==> q.accounts[a].transactions == before)
            && (tx.nonce >= nonce ==> q.accounts[a].transactions == before[tx.nonce := tx])
            && q.size == p.size + (if tx.nonce >= nonce && tx.nonce !in before then 1 else 0)
            && (tx.nonce != nonce ==> q.queue == p.queue)
            && (tx.nonce == nonce && nonce !in before ==> q.queue == p.queue + {Score(a, tx.receivedAt)})
            && (tx.nonce == nonce && nonce in before && before[nonce].account == a ==>
                  q.queue == p.queue - {Score(a, before[nonce].receivedAt)} + {Score(a, tx.receivedAt)})
  {
  }

  /** A list is inserted from the front to the back. */
  lemma {:induction false} InsertAllConcat(p: Pool, txs: seq<Tx>, more: seq<Tx>, initialNonces: map<nat, nat>)
    ensures InsertAll(p, txs + more, initialNonces) == InsertAll(InsertAll(p, txs, initialNonces), more, initialNonces)
  {
    if more == [] {
      assert txs + more == txs;
    } else {
      var n := |more| - 1;
      assert (txs + more)[..|txs| + n] == txs + more[..n];
      InsertAllConcat(p, txs, more[..n], initialNonces);
    }
  }

  /** Of several transactions in a list with the same account and nonce the last one stays, as long
      as the nonce is not below that of the account. */
  lemma {:induction false} LastInsertedStays(p: Pool, txs: seq<Tx>, initialNonces: map<nat, nat>, i: nat)
    requires i < |txs|
    requires forall j :: i < j < |txs| ==> txs[j].account != txs[i].account || txs[j].nonce != txs[i].nonce
    requires txs[i].nonce >= if txs[i].account in p.accounts then p.accounts[txs[i].account].nonce
                             else if txs[i].account in initialNonces then initialNonces[txs[i].account] else 0
    ensures var q := InsertAll(p, txs, initialNonces);
            && txs[i].account in q.accounts && txs[i].nonce in q.accounts[txs[i].account].transactions
            && q.accounts[txs[i].account].transactions[txs[i].nonce] == txs[i]
  {
    var n := |txs| - 1;
    var before := InsertAll(p, txs[..n], initialNonces);
    InsertInFull(before, txs[n], initialNonces);
    hide Insert;
    if i == n {
      NonceStays(p, txs[..n], initialNonces, txs[i].account);
    } else {
      LastInsertedStays(p, txs[..n], initialNonces, i);
    }
  }

  lemma {:induction false} NonceStays(p: Pool, txs: seq<Tx>, initialNonces: map<nat, nat>, a: nat)
    ensures var q := InsertAll(p, txs, initialNonces);
            && (a in p.accounts ==> a in q.accounts && q.accounts[a].nonce == p.accounts[a].nonce)
            && (a !in p.accounts && a in q.accounts ==>
                  q.accounts[a].nonce == if a in initialNonces then initialNonces[a] else 0)
  {
    if txs != [] {
      var n := |txs| - 1;
      NonceStays(p, txs[..n], initialNonces, a);
      InsertInFull(InsertAll(p, txs[..n], initialNonces), txs[n], initialNonces);
      hide Insert;
    }
  }

  /** What taking a head does: it leaves, the nonce goes up by one, and the pointer moves to the
      transaction with the new nonce, if there is one. */
  lemma {:induction false} TakeInFull(p: Pool, pointer: Score)
    requires Core(p) && pointer in p.queue && pointer.account in p.accounts && p.accounts[pointer.account].Ready()
    ensures var q, a, acc := TakeFrom(p, pointer), pointer.account, p.accounts[pointer.account];
            && q.accounts == p.accounts[a := Account(acc.transactions - {acc.nonce}, acc.nonce + 1)]
            && q.size == p.size - 1 && q.stashed == p.stashed
            && q.queue == (if acc.nonce + 1 in acc.transactions
                           then p.queue - {pointer} + {Score(a, acc.transactions[acc.nonce + 1].receivedAt)}
                           else p.queue - {pointer})
  {
    assert AccountOk(pointer.account, p.accounts[pointer.account]);
  }

  /** What a rollback does: the nonce goes back to that of the transaction unless it is below it, and a
      pointer with the time of the following transaction leaves the index. */
  lemma {:induction false} RollbackInFull(p: Pool, tx: Tx)
    requires Core(p) && tx.account in p.accounts
    ensures var q, a, acc := Rollback(p, tx), tx.account, p.accounts[tx.account];
            && q.accounts
               == p.accounts[a := Account(acc.transactions, if tx.nonce < acc.nonce then tx.nonce else acc.nonce)]
            && q.size == p.size && q.stashed == p.stashed
            && q.queue == (if tx.nonce + 1 in acc.transactions
                           then p.queue - {Score(a, acc.transactions[tx.nonce + 1].receivedAt)} else p.queue)
  {
    assert AccountOk(tx.account, p.accounts[tx.account]);
  }

  /** What garbage collection does: below the capacity nothing; otherwise exactly the accounts without
      their next transaction leave, and the rest of the pool stays. */
  lemma {:induction false} GcInFull(p: Pool, capacity: nat)
    requires Inv(p)
    ensures p.size < capacity ==> Gc(p, capacity) == p
    ensures var q := Gc(p, capacity);
            p.size >= capacity ==>
              && q.queue == p.queue && q.stashed == p.stashed
              && forall a :: (a in q.accounts <==> a in p.accounts && p.accounts[a].nonce in p.accounts[a].transactions)
                             && (a in q.accounts ==> q.accounts[a] == p.accounts[a])
  {
    forall a | a in p.accounts
      ensures p.accounts[a].nonce in p.accounts[a].transactions <==> exists s :: s in p.queue && s.account == a
    {
      if p.accounts[a].Ready() {
        assert PointsAtHead(p, Score(a, Top(p.accounts[a]).receivedAt));
      }
      if s :| s in p.queue && s.account == a {
        assert PointsAtHead(p, s);
      }
    }
  }

  // ---------------------------------------------------------------- Stashing

  /** The pointers name accounts that are there, each a different one. */
  predicate NameAccounts(accounts: map<nat, Account>, pointers: seq<Score>) {
    && (forall i :: 0 <= i < |pointers| ==> pointers[i].account in accounts)
    && (forall i, j :: 0 <= i < j < |pointers| ==> pointers[i].account != pointers[j].account)
  }

  function AccountsOf(pointers: seq<Score>): (r: seq<nat>)
    ensures |r| == |pointers| && forall i :: 0 <= i < |pointers| ==> r[i] == pointers[i].account
  {
    seq(|pointers|, i requires 0 <= i < |pointers| => pointers[i].account)
  }

  function NamedSet(pointers: seq<Score>): set<nat> {
    set s | s in pointers :: s.account
  }

  lemma NamedNext(pointers: seq<Score>)
    requires pointers != []
    ensures NamedSet(pointers) == NamedSet(pointers[..|pointers| - 1]) + {pointers[|pointers| - 1].account}
    ensures AccountsOf(pointers) == AccountsOf(pointers[..|pointers| - 1]) + [pointers[|pointers| - 1].account]
  {
    assert pointers == pointers[..|pointers| - 1] + [pointers[|pointers| - 1]];
  }

  /** The named accounts leave with all their transactions, and are stashed in order. */
  lemma {:induction false} StashEffect(p: Pool, pointers: seq<Score>)
    requires NameAccounts(p.accounts, pointers)
    ensures var q := Stash(p, pointers);
            && q.accounts == p.accounts - NamedSet(pointers)
            && q.queue == p.queue && q.stashed == p.stashed + AccountsOf(pointers)
            && q.size - Total(q.accounts) == p.size - Total(p.accounts)
  {
    hide Total;
    if pointers == [] {
      assert p.accounts - NamedSet([]) == p.accounts && p.stashed + AccountsOf([]) == p.stashed;
    } else {
      var n := |pointers| - 1;
      StashEffect(p, pointers[..n]);
      NamedNext(pointers);
      var q, a := Stash(p, pointers[..n]), pointers[n].account;
      assert a !in NamedSet(pointers[..n]) by {
        forall s | s in pointers[..n] ensures s.account != a {
          var i :| 0 <= i < n && pointers[..n][i] == s;
          assert pointers[i].account != pointers[n].account;
        }
      }
      TotalSplit(q.accounts, a);
      assert q.accounts - {a} == p.accounts - NamedSet(pointers);
    }
  }

  lemma StashNone(p: Pool)
    ensures Stash(p, []) == p
  {
  }

  /** One more pointer: its account is still there, and it is stashed. */
  lemma {:induction false} StashNext(p: Pool, pointers: seq<Score>, i: nat)
    requires NameAccounts(p.accounts, pointers) && i < |pointers|
    ensures var q, a := Stash(p, pointers[..i]), pointers[i].account;
            && a in q.accounts
            && Stash(p, pointers[..i + 1])
               == Pool(q.accounts - {a}, q.queue, q.stashed + [a], q.size - |q.accounts[a].transactions|)
  {
    StashEffect(p, pointers[..i]);
    forall s | s in pointers[..i] ensures s.account != pointers[i].account {
      var j :| 0 <= j < i && pointers[..i][j] == s;
      assert pointers[j].account != pointers[i].account;
    }
    assert pointers[..i + 1][..i] == pointers[..i];
  }

  lemma SortedNext(queue: set<Score>)
    requires queue != {}
    ensures Sorted(queue) == Sorted(queue - {Greatest(queue)}) + [Greatest(queue)]
  {
  }

  lemma {:induction false} SortedAscends(queue: set<Score>)
    ensures forall i, j :: 0 <= i < j < |Sorted(queue)| ==> Less(Sorted(queue)[i], Sorted(queue)[j])
    decreases queue
  {
    if queue != {} {
      var g := Greatest(queue);
      SortedAscends(queue - {g});
      forall i | 0 <= i < |queue| - 1 ensures Less(Sorted(queue)[i], g) {
        assert Sorted(queue - {g})[i] in queue - {g};
      }
    }
  }

  /** In ascending order the least element comes first, and the others are those above it. */
  lemma {:induction false} LeastFirst(tail: seq<Score>, least: Score)
    requires least in tail && forall s :: s in tail ==> s == least || Less(least, s)
    requires forall i, j :: 0 <= i < j < |tail| ==> Less(tail[i], tail[j])
    ensures tail[0] == least
    ensures forall s :: s in tail[1..] <==> s in tail && s != least
  {
    var n :| 0 <= n < |tail| && tail[n] == least;
    assert tail[0] in tail;
    assert tail == [tail[0]] + tail[1..];
    forall s | s in tail[1..] ensures s != least {
      var i :| 0 <= i < |tail[1..]| && tail[1..][i] == s;
      assert tail[i + 1] == s;
    }
  }

  /** The pointer that is taken comes first in the part cut off, and all others are greater. */
  lemma {:induction false} SkippedAreAbove(p: Pool, pointer: Score)
    requires pointer in p.queue
    ensures Sorted(AtLeast(p.queue, pointer)) == [pointer] + Skipped(p, pointer)
    ensures forall s :: s in Skipped(p, pointer) <==> s in p.queue && Less(pointer, s)
    ensures forall i, j :: 0 <= i < j < |Skipped(p, pointer)| ==> Less(Skipped(p, pointer)[i], Skipped(p, pointer)[j])
  {
    SortedAscends(AtLeast(p.queue, pointer));
    hide Sorted;
    var tail := Sorted(AtLeast(p.queue, pointer));
    assert pointer in tail;
    LeastFirst(tail, pointer);
    forall s ensures s in tail[1..] <==> s in p.queue && Less(pointer, s) {
      assert s in tail <==> s in AtLeast(p.queue, pointer);
    }
  }

  lemma {:induction false} DifferentAccounts(p: Pool, s: Score, t: Score)
    requires QueueOk(p) && s in p.queue && t in p.queue
    ensures s.account in p.accounts && (s != t ==> s.account != t.account)
  {
    assert PointsAtHead(p, s) && PointsAtHead(p, t);
  }

  /** In a valid pool the skipped pointers name different accounts that are there, none of them
      that of the pointer taken. */
  lemma {:induction false} SkippedNameAccounts(p: Pool, pointer: Score)
    requires QueueOk(p) && pointer in p.queue
    ensures NameAccounts(p.accounts, Skipped(p, pointer)) && pointer.account !in NamedSet(Skipped(p, pointer))
  {
    SkippedAreAbove(p, pointer);
    hide Skipped;
    var skipped := Skipped(p, pointer);
    forall i | 0 <= i < |skipped| ensures skipped[i] in p.queue && skipped[i].account in p.accounts {
      assert skipped[i] in skipped;
      DifferentAccounts(p, skipped[i], pointer);
    }
    forall i, j | 0 <= i < j < |skipped| ensures skipped[i].account != skipped[j].account {
      DifferentAccounts(p, skipped[i], skipped[j]);
    }
    forall s | s in skipped ensures s.account != pointer.account {
      DifferentAccounts(p, s, pointer);
    }
  }

  lemma {:induction false} StashedEffect(p: Pool, pointer: Score)
    requires Core(p) && pointer in p.queue
    ensures var q := Stashed(p, pointer);
            && q.accounts == p.accounts - NamedSet(Skipped(p, pointer))
            && q.queue == p.queue - AtLeast(p.queue, pointer)
            && q.stashed == p.stashed + AccountsOf(Skipped(p, pointer))
            && q.size == Total(q.accounts)
  {
    SkippedNameAccounts(p, pointer);
    StashEffect(p.(queue := p.queue - AtLeast(p.queue, pointer)), Skipped(p, pointer));
  }

  /** With the accounts above stashed and the pointer put back, the pool is valid but for the stash. */
  lemma {:induction false} StashedIsCore(p: Pool, pointer: Score)
    requires Core(p) && pointer in p.queue
    ensures var q := Stashed(p, pointer); Core(q.(queue := q.queue + {pointer}))
  {
    hide Stashed, Skipped, Total, NamedSet, AccountsOf;
    StashedEffect(p, pointer);
    SkippedNameAccounts(p, pointer);
    var q := Stashed(p, pointer);
    var r := q.(queue := q.queue + {pointer});
    hide AtLeast, NameAccounts, PointsAtHead, AccountOk;
    forall s ensures s in r.queue <==> PointsAtHead(r, s) {
      if s in p.queue {
        AboveIffNamed(p, pointer, s);
      }
      StaysHead(p, r, s, NamedSet(Skipped(p, pointer)));
    }
  }

  /** With some accounts gone, the heads of the others are still heads. */
  lemma StaysHead(p: Pool, r: Pool, s: Score, gone: set<nat>)
    requires r.accounts == p.accounts - gone
    ensures PointsAtHead(r, s) <==> PointsAtHead(p, s) && s.account !in gone
  {
  }

  /** A pointer of the queue is cut off and not put back exactly if its account is stashed. */
  lemma {:induction false} AboveIffNamed(p: Pool, pointer: Score, s: Score)
    requires QueueOk(p) && pointer in p.queue && s in p.queue
    ensures s.account in NamedSet(Skipped(p, pointer)) <==> s in AtLeast(p.queue, pointer) && s != pointer
  {
    SkippedAreAbove(p, pointer);
    forall t | t in Skipped(p, pointer) && t.account == s.account ensures t == s {
      DifferentAccounts(p, s, t);
    }
  }

  /** `next_transaction` with any pointer of the queue as the one found: the accounts of greater
      pointers are stashed in order, then the head is taken. */
  ghost function NextFrom(p: Pool, pointer: Score): Pool
    requires Core(p) && pointer in p.queue
  {
    StashedEffect(p, pointer);
    SkippedNameAccounts(p, pointer);
    assert PointsAtHead(p, pointer);
    TakeFrom(Stashed(p, pointer), pointer)
  }

  /** Whatever pointer is found, neither look-up of an account fails, the size covers what is
      removed, and the pool stays valid but for the stash, which gets the accounts skipped. */
  lemma {:induction false} TakeAnyKeepsCore(p: Pool, pointer: Score)
    requires Core(p) && pointer in p.queue
    ensures NameAccounts(p.accounts, Skipped(p, pointer))
    ensures pointer.account in p.accounts - NamedSet(Skipped(p, pointer)) && p.accounts[pointer.account].Ready()
    ensures Core(NextFrom(p, pointer)) && NextFrom(p, pointer).size >= 0
    ensures NextFrom(p, pointer).stashed == p.stashed + AccountsOf(Skipped(p, pointer))
  {
    StashedEffect(p, pointer);
    StashedIsCore(p, pointer);
    SkippedNameAccounts(p, pointer);
    assert PointsAtHead(p, pointer);
    var q := Stashed(p, pointer);
    HeadKeepsCore(q.(queue := q.queue + {pointer}), pointer);
    PointerLeaves(q, pointer);
    hide Skipped, Stashed, Total, Core, TakeFrom, NamedSet, AccountsOf, NameAccounts;
    TakenSize(p, pointer);
  }

  /** The steps of `next_transaction` one by one: what each of them needs, and where they lead. */
  lemma {:induction false} TakeAnySteps(p: Pool, pointer: Score)
    requires Core(p) && pointer in p.queue
    ensures var tail, cut := Sorted(AtLeast(p.queue, pointer)), p.(queue := p.queue - AtLeast(p.queue, pointer));
            && tail != [] && NameAccounts(p.accounts, tail[1..])
            && var q := Stash(cut, tail[1..]);
               && pointer.account in q.accounts && q.accounts[pointer.account] == p.accounts[pointer.account]
               && p.accounts[pointer.account].Ready() && q.size >= 1
               && TakeFrom(q.(size := p.size), pointer).(size := q.size - 1) == NextFrom(p, pointer)
  {
    SkippedAreAbove(p, pointer);
    StashedEffect(p, pointer);
    TakeAnyKeepsCore(p, pointer);
    TakenInSteps(p, pointer);
    var q := Stashed(p, pointer);
    assert q == Stash(p.(queue := p.queue - AtLeast(p.queue, pointer)), Skipped(p, pointer));
    hide *;
  }

  lemma TakenInSteps(p: Pool, pointer: Score)
    requires Core(p) && pointer in p.queue
    requires pointer.account in Stashed(p, pointer).accounts && Stashed(p, pointer).accounts[pointer.account].Ready()
    ensures var q := Stashed(p, pointer);
            && TakeFrom(q, pointer) == NextFrom(p, pointer) && NextFrom(p, pointer).size == q.size - 1
            && TakeFrom(q.(size := p.size), pointer).(size := q.size - 1) == TakeFrom(q, pointer)
  {
    hide Core, Stashed;
  }

  lemma TakenSize(p: Pool, pointer: Score)
    requires Core(p) && pointer in p.queue
    ensures Core(NextFrom(p, pointer)) ==> NextFrom(p, pointer).size >= 0
    ensures NextFrom(p, pointer).stashed == Stashed(p, pointer).stashed
  {
    hide Stashed, Skipped, AtLeast;
  }

  lemma PointerLeaves(q: Pool, pointer: Score)
    requires pointer.account in q.accounts && q.accounts[pointer.account].Ready()
    ensures TakeFrom(q.(queue := q.queue + {pointer}), pointer) == TakeFrom(q, pointer)
  {
    assert q.queue + {pointer} - {pointer} == q.queue - {pointer};
  }

  /** Nothing lies above the greatest pointer: the stash loop does not run. */
  lemma {:induction false} NothingIsSkipped(p: Pool)
    requires Core(p) && p.queue != {}
    ensures var pointer := Greatest(p.queue);
            && Skipped(p, pointer) == []
            && pointer.account in p.accounts && p.accounts[pointer.account].Ready()
            && NextFrom(p, pointer) == TakeFrom(p, pointer)
  {
    var pointer := Greatest(p.queue);
    SkippedAreAbove(p, pointer);
    EmptyIffNoMember(Skipped(p, pointer));
    assert AtLeast(p.queue, pointer) == {pointer};
    assert PointsAtHead(p, pointer);
    assert Stashed(p, pointer) == p.(queue := p.queue - {pointer});
    assert p.queue - {pointer} - {pointer} == p.queue - {pointer};
  }

  /** In every valid pool taking the next transaction keeps the invariant, the empty stash included. */
  lemma {:induction false} TakeKeepsInv(p: Pool)
    requires Inv(p) && p.queue != {}
    ensures Inv(NextFrom(p, Greatest(p.queue))) && p.size >= 1
  {
    TakeAnyKeepsCore(p, Greatest(p.queue));
    NothingIsSkipped(p);
    HeadKeepsCore(p, Greatest(p.queue));
  }

  lemma {:induction false} GcKeepsInv(p: Pool, capacity: nat)
    requires Inv(p)
    ensures Inv(Gc(p, capacity))
  {
    var p' := Gc(p, capacity);
    if p.size >= capacity {
      forall s ensures s in p'.queue <==> PointsAtHead(p', s) {
        assert s in p.queue <==> PointsAtHead(p, s);
      }
    }
  }

  /** The queue is empty exactly when no account has its next transaction. */
  lemma {:induction false} ReadyIffQueued(p: Pool)
    requires QueueOk(p)
    ensures p.queue != {} <==> exists a :: a in p.accounts && p.accounts[a].Ready()
  {
    forall a | a in p.accounts && p.accounts[a].Ready() ensures p.queue != {} {
      assert PointsAtHead(p, Score(a, Top(p.accounts[a]).receivedAt));
    }
    if p.queue != {} {
      var s :| s in p.queue;
      assert PointsAtHead(p, s);
    }
  }

  /** What a caller has to check before a rollback: the transaction is the last one taken from its
      account; or it is an earlier one and the account has nothing ready; or it was never taken and
      removing the pointer to its successor does not hit the account's own pointer. */
  predicate RollbackAllowed(p: Pool, tx: Tx)
    requires tx.account in p.accounts
  {
    var acc := p.accounts[tx.account];
    if tx.nonce < acc.nonce then acc.nonce == tx.nonce + 1 || !acc.Ready()
    else !(acc.Ready() && tx.nonce + 1 in acc.transactions
           && acc.transactions[tx.nonce + 1].receivedAt == acc.transactions[acc.nonce].receivedAt)
  }

  lemma {:induction false} AllowedRollbackKeepsInv(p: Pool, tx: Tx)
    requires Inv(p) && tx.account in p.accounts && RollbackAllowed(p, tx)
    ensures QueueOk(Rollback(p, tx))
  {
    var p' := Rollback(p, tx);
    assert AccountOk(tx.account, p.accounts[tx.account]);
    forall s ensures s in p'.queue <==> PointsAtHead(p', s) {
      assert s in p.queue <==> PointsAtHead(p, s);
    }
  }

  lemma {:induction false} OtherRollbackBreaksInv(p: Pool, tx: Tx)
    requires Inv(p) && tx.account in p.accounts && !RollbackAllowed(p, tx)
    ensures !QueueOk(Rollback(p, tx))
  {
    var p' := Rollback(p, tx);
    var acc := p.accounts[tx.account];
    assert AccountOk(tx.account, acc);
    var own := Score(tx.account, acc.transactions[acc.nonce].receivedAt);
    assert PointsAtHead(p, own);
    assert own in p.queue;
    assert own in p'.queue <==> tx.nonce < acc.nonce;
    assert PointsAtHead(p', own) <==> tx.nonce >= acc.nonce;
  }

  /** A rollback keeps the pool valid exactly when it is allowed. */
  lemma {:induction false} RollbackKeepsInv(p: Pool, tx: Tx)
    requires Inv(p) && tx.account in p.accounts
    ensures Inv(Rollback(p, tx)) <==> RollbackAllowed(p, tx)
  {
    assert AccountOk(tx.account, p.accounts[tx.account]);
    TotalUpdate(p.accounts, tx.account, Rollback(p, tx).accounts[tx.account]);
    if RollbackAllowed(p, tx) {
      AllowedRollbackKeepsInv(p, tx);
    } else {
      OtherRollbackBreaksInv(p, tx);
    }
  }

  /** A transaction taken, then a second one of the same account, then the first rolled back: the
      pointer of the third is left dangling. */
  lemma RollbackOfEarlierTxDangles()
    ensures var t := (n: nat) => Tx(7, n, 100 + n, 0);
            var p := Insert(Insert(Insert(EMPTY, t(0), map[]), t(1), map[]), t(2), map[]);
            var q := TakeFrom(TakeFrom(p, Score(7, 100)), Score(7, 101));
            && !RollbackAllowed(q, t(0))
            && Score(7, 102) in Rollback(q, t(0)).queue && !Rollback(q, t(0)).accounts[7].Ready()
  {
  }

  // ---------------------------------------------------------------- Taking and putting back

  lemma {:induction false} HeadRollbackInsert(p: Pool, initialNonces: map<nat, nat>)
    requires Inv(p) && p.queue != {}
    ensures var pointer := Greatest(p.queue);
            && pointer.account in p.accounts && p.accounts[pointer.account].Ready()
            && var tx := p.accounts[pointer.account].transactions[p.accounts[pointer.account].nonce];
               && RollbackAllowed(TakeFrom(p, pointer), tx)
               && Insert(Rollback(TakeFrom(p, pointer), tx), tx, initialNonces) == p
  {
    var pointer := Greatest(p.queue);
    assert PointsAtHead(p, pointer);
    var acc := p.accounts[pointer.account];
    assert AccountOk(pointer.account, acc);
    var tx := acc.transactions[acc.nonce];
    var p1 := TakeFrom(p, pointer);
    var p2 := Rollback(p1, tx);
    var p3 := Insert(p2, tx, initialNonces);
    assert p3.accounts[pointer.account].transactions == acc.transactions;
    assert p3.accounts == p.accounts;
    assert forall s :: s in p.queue && s.account == pointer.account ==> s == pointer by {
      forall s | s in p.queue && s.account == pointer.account ensures s == pointer {
        assert PointsAtHead(p, s);
      }
    }
    assert p3.queue == p.queue;
  }

  /** Taking the next transaction, rolling it back and inserting it again restores the pool. */
  lemma {:induction false} TakeRollbackInsert(p: Pool, initialNonces: map<nat, nat>)
    requires Inv(p) && p.queue != {}
    ensures var pointer := Greatest(p.queue);
            && pointer.account in p.accounts && p.accounts[pointer.account].Ready()
            && var tx := p.accounts[pointer.account].transactions[p.accounts[pointer.account].nonce];
               && tx.account in NextFrom(p, pointer).accounts && RollbackAllowed(NextFrom(p, pointer), tx)
               && Insert(Rollback(NextFrom(p, pointer), tx), tx, initialNonces) == p
  {
    NothingIsSkipped(p);
    HeadRollbackInsert(p, initialNonces);
    hide *;
  }
}
