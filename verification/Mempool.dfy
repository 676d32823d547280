/** The mempool as mutable objects (mempool/src/mempool_store.rs, mempool/src/types.rs). */
module Mempool {
  import opened Wrappers
  import opened MempoolSpec

  lemma EnteredTwice(accounts: map<nat, Account>, a: nat, first: Account, second: Account)
    ensures accounts[a := first][a := second] == accounts[a := second]
  {
  }

  class AccountTransactions {
    var transactions: map<nat, Tx>
    var nonce: nat

    ghost function View(): Account
      reads this
    {
      Account(transactions, nonce)
    }

    constructor (nonce: nat)
      ensures View() == Account(map[], nonce)
    {
      this.transactions, this.nonce := map[], nonce;
    }

    function ScoreAt(n: nat): Option<Score>
      reads this
      ensures ScoreAt(n) == GetScore(View(), n)
    {
      if n in transactions then Some(ScoreOf(transactions[n])) else None
    }

    method Insert(tx: Tx) returns (metadata: InsertionMetadata)
      modifies this
      ensures (View(), metadata) == InsertTx(old(View()), tx)
    {
      metadata := InsertionMetadata(None, None, false);
      if tx.nonce < nonce {
        return;
      }
      var newScore, previousScore := ScoreOf(tx), ScoreAt(tx.nonce);
      transactions := transactions[tx.nonce := tx];
      metadata := metadata.(isNew := previousScore.None?);
      if tx.nonce == nonce {
        metadata := metadata.(newScore := Some(newScore), previousScore := previousScore);
      }
    }

    /** The optional score is that of the successor. */
    method Reset(tx: Tx) returns (score: Option<Score>)
      modifies this`nonce
      ensures View() == old(View()).(nonce := Min(old(nonce), tx.nonce))
      ensures score == GetScore(View(), tx.nonce + 1)
    {
      nonce := if tx.nonce < nonce then tx.nonce else nonce;
      score := ScoreAt(tx.nonce + 1);
    }

    method Next() returns (tx: Tx, score: Option<Score>)
      requires nonce in transactions
      modifies this
      ensures tx == old(transactions[nonce])
      ensures View() == Account(old(transactions) - {old(nonce)}, old(nonce) + 1)
      ensures score == GetScore(View(), nonce)
    {
      tx := transactions[nonce];
      transactions := transactions - {nonce};
      nonce := nonce + 1;
      score := ScoreAt(nonce);
    }
  }

  class MempoolStore {
    var accounts: map<nat, AccountTransactions>
    var queue: set<Score>
    var stashedAccounts: seq<nat>
    var size: nat
    const capacity: nat

    /** Every account has an object of its own. */
    ghost predicate Separate()
      reads this
    {
      forall a, b :: a in accounts && b in accounts && accounts[a] == accounts[b] ==> a == b
    }

    ghost function Accounts(): map<nat, Account>
      reads this, accounts.Values
    {
      map a | a in accounts :: accounts[a].View()
    }

    ghost function View(): Pool
      reads this, accounts.Values
    {
      Pool(Accounts(), queue, stashedAccounts, size)
    }

    ghost predicate Valid()
      reads this, accounts.Values
    {
      Separate() && Inv(View())
    }

    constructor (capacity: nat)
      ensures Valid() && View() == EMPTY && this.capacity == capacity && accounts == map[]
    {
      accounts, queue, stashedAccounts, size := map[], {}, [], 0;
      this.capacity := capacity;
      new;
      EmptyInv();
    }

    /** `has_next`: whether some account has its next transaction. */
    method HasNext() returns (r: bool)
      requires Valid()
      ensures r <==> exists a :: a in View().accounts && View().accounts[a].Ready()
    {
      r := queue != {};
      ReadyIffQueued(View());
    }

    /** The object of an account, created on its first transaction. */
    method Entry(account: nat, initialNonces: map<nat, nat>) returns (acc: AccountTransactions)
      requires Separate()
      modifies this`accounts
      ensures Separate() && account in accounts && acc == accounts[account]
      ensures fresh(accounts.Values - old(accounts.Values))
      ensures Accounts() == old(Accounts())[account := AccountFor(old(View()), account, initialNonces)]
    {
      if account !in accounts {
        var created := new AccountTransactions(if account in initialNonces then initialNonces[account] else 0);
        accounts := accounts[account := created];
      }
      acc := accounts[account];
    }

    /** After one object changed, exactly its entry has changed. */
    twostate lemma OnlyEntryChanged(account: nat)
      requires old(Separate()) && accounts == old(accounts) && account in accounts
      requires forall a :: a in accounts && a != account ==> accounts[a].View() == old(accounts[a].View())
      ensures Accounts() == old(Accounts())[account := accounts[account].View()]
    {
    }

    method MovePointer(remove: Option<Score>, add: Option<Score>)
      modifies this`queue
      ensures queue == With(Without(old(queue), remove), add)
    {
      if remove.Some? {
        queue := queue - {remove.value};
      }
      if add.Some? {
        queue := queue + {add.value};
      }
    }

    /** The transaction goes to its account; the queue and the size follow. */
    method InsertInto(tx: Tx)
      requires Separate() && tx.account in accounts
      modifies this`queue, this`size, accounts.Values
      ensures accounts == old(accounts)
      ensures var (acc, metadata) := InsertTx(old(View()).accounts[tx.account], tx);
              View() == Pool(old(View()).accounts[tx.account := acc],
                             With(Without(old(queue), metadata.previousScore), metadata.newScore),
                             old(stashedAccounts),
                             if metadata.isNew then old(size) + 1 else old(size))
    {
      var acc := accounts[tx.account];
      var metadata := acc.Insert(tx);
      MovePointer(metadata.previousScore, metadata.newScore);
      if metadata.isNew {
        size := size + 1;
      }
      OnlyEntryChanged(tx.account);
    }

    /** `insert_l2_transaction` on any mempool. */
    method InsertAnywhere(tx: Tx, initialNonces: map<nat, nat>)
      requires Separate()
      modifies this, accounts.Values
      ensures Separate() && View() == MempoolSpec.Insert(old(View()), tx, initialNonces)
      ensures fresh(accounts.Values - old(accounts.Values))
    {
      hide InsertTx, AccountFor, With, Without;
      ghost var before := View();
      var acc := Entry(tx.account, initialNonces);
      assert View().accounts[tx.account] == AccountFor(before, tx.account, initialNonces);
      InsertInto(tx);
      EnteredTwice(before.accounts, tx.account, AccountFor(before, tx.account, initialNonces),
                   View().accounts[tx.account]);
    }

    /** `insert_l2_transaction`. */
    method InsertL2Transaction(tx: Tx, initialNonces: map<nat, nat>)
      requires Valid()
      modifies this, accounts.Values
      ensures Valid() && View() == MempoolSpec.Insert(old(View()), tx, initialNonces)
      ensures fresh(accounts.Values - old(accounts.Values))
      ensures tx.account in accounts
      ensures accounts[tx.account].nonce == if tx.account in old(accounts) then old(accounts[tx.account].nonce)
                                            else if tx.account in initialNonces then initialNonces[tx.account] else 0
      ensures tx.nonce >= accounts[tx.account].nonce ==>
                tx.nonce in accounts[tx.account].transactions && accounts[tx.account].transactions[tx.nonce] == tx
      ensures tx.nonce == accounts[tx.account].nonce ==> Score(tx.account, tx.receivedAt) in queue
    {
      InsertKeepsInv(View(), tx, initialNonces);
      InsertInFull(View(), tx, initialNonces);
      InsertAnywhere(tx, initialNonces);
    }

    /** `insert`: all transactions of a list, in order. */
    method Insert(transactions: seq<Tx>, initialNonces: map<nat, nat>)
      requires Valid()
      modifies this, accounts.Values
      ensures Valid() && View() == InsertAll(old(View()), transactions, initialNonces)
      ensures fresh(accounts.Values - old(accounts.Values))
    {
      for i := 0 to |transactions|
        invariant Valid() && fresh(accounts.Values - old(accounts.Values))
        invariant View() == InsertAll(old(View()), transactions[..i], initialNonces)
      {
        assert transactions[..i + 1][..i] == transactions[..i];
        InsertL2Transaction(transactions[i], initialNonces);
      }
      assert transactions[..|transactions|] == transactions;
    }

    /** `split_off`: the pointer and everything greater leave the queue; they come in ascending order. */
    method SplitOff(pointer: Score) returns (tail: seq<Score>)
      modifies this`queue
      ensures tail == Sorted(AtLeast(old(queue), pointer))
      ensures queue == old(queue) - AtLeast(old(queue), pointer)
    {
      hide *;
      var todo := AtLeast(queue, pointer);
      queue, tail := queue - todo, [];
      while todo != {}
        invariant queue == old(queue) - AtLeast(old(queue), pointer)
        invariant Sorted(AtLeast(old(queue), pointer)) == Sorted(todo) + tail
        decreases todo
      {
        var last := LastOf(todo);
        SortedNext(todo);
        todo, tail := todo - {last}, [last] + tail;
      }
      assert Sorted({}) == [];
    }

    /** One account leaves for the stash; the answer is how many transactions it had. */
    method StashOne(account: nat) returns (len: nat)
      requires Separate() && account in accounts
      modifies this`accounts, this`stashedAccounts
      ensures Separate() && accounts.Values <= old(accounts.Values)
      ensures account in old(View()).accounts && len == |old(View()).accounts[account].transactions|
      ensures View()
           == old(View()).(accounts := old(Accounts()) - {account}, stashed := old(stashedAccounts) + [account])
    {
      len := |accounts[account].transactions|;
      accounts := accounts - {account};
      stashedAccounts := stashedAccounts + [account];
    }

    /** The loop that stashes the accounts of all pointers that were passed over. */
    method StashAll(pointers: seq<Score>) returns (removed: nat)
      requires Separate() && NameAccounts(Accounts(), pointers)
      modifies this`accounts, this`stashedAccounts
      ensures Separate() && accounts.Values <= old(accounts.Values)
      ensures removed == old(size) - Stash(old(View()), pointers).size
      ensures View() == Stash(old(View()), pointers).(size := old(size))
    {
      hide NameAccounts, Stash;
      removed := 0;
      ghost var before := View();
      StashNone(before);
      for i := 0 to |pointers|
        invariant Separate() && accounts.Values <= old(accounts.Values)
        invariant removed == size - Stash(before, pointers[..i]).size
        invariant View() == Stash(before, pointers[..i]).(size := size)
      {
        TakeNext(pointers, i);
        StashNext(before, pointers, i);
        var len := StashOne(pointers[i].account);
        removed := removed + len;
      }
      TakeAll(pointers);
    }

    /** Takes the head that a pointer names; `removed` transactions went to the stash before. */
    method TakeHead(pointer: Score, removed: nat) returns (tx: Tx)
      requires Separate() && pointer.account in accounts && size >= removed + 1
      requires accounts[pointer.account].nonce in accounts[pointer.account].transactions
      modifies this`queue, this`size, accounts.Values
      ensures accounts == old(accounts)
      ensures View() == TakeFrom(old(View()), pointer).(size := old(size) - (removed + 1))
      ensures tx == old(accounts[pointer.account].transactions[accounts[pointer.account].nonce])
    {
      hide GetScore, With;
      var acc := accounts[pointer.account];
      var score;
      tx, score := acc.Next();
      queue := queue - {pointer};
      MovePointer(None, score);
      size := size - (removed + 1);
      OnlyEntryChanged(pointer.account);
    }

    /** `next_transaction` once a pointer is found, whichever it is. The subtraction from the size does
        not fail, and no look-up of an account does. */
    method TakePointer(pointer: Score) returns (tx: Tx)
      requires Separate() && Core(View()) && pointer in queue
      modifies this, accounts.Values
      ensures Separate() && Core(View()) && accounts.Values <= old(accounts.Values)
      ensures View() == NextFrom(old(View()), pointer)
      ensures pointer.account in old(View()).accounts && old(View()).accounts[pointer.account].Ready()
      ensures tx == Top(old(View()).accounts[pointer.account])
    {
      hide Core, Sorted, AtLeast, Stash, Skipped, TakeFrom, NextFrom, AccountsOf, NameAccounts, NamedSet, Total;
      ghost var before := View();
      TakeAnyKeepsCore(before, pointer);
      TakeAnySteps(before, pointer);
      var tail := SplitOff(pointer);
      ghost var cut := before.(queue := before.queue - AtLeast(before.queue, pointer));
      assert Accounts() == before.accounts;
      assert View() == cut;
      var removed := StashAll(tail[1..]);
      assert View() == Stash(cut, tail[1..]).(size := before.size);
      tx := TakeHead(pointer, removed);
      assert View() == NextFrom(before, pointer);
    }

    /** `next_transaction`. The pointer found is the greatest, so nothing is stashed. */
    method NextTransaction() returns (r: Option<Tx>)
      requires Valid()
      modifies this, accounts.Values
      ensures Valid() && accounts.Values <= old(accounts.Values)
      ensures old(View()).queue == {} ==> r == None && View() == old(View())
      ensures old(View()).queue != {} ==>
                var p, pointer := old(View()), Greatest(old(View()).queue);
                && pointer.account in p.accounts && p.accounts[pointer.account].Ready()
                && r == Some(Top(p.accounts[pointer.account])) && View() == TakeFrom(p, pointer)
    {
      hide Core, TakeFrom, NextFrom, Skipped;
      if queue == {} {
        return None;
      }
      var pointer := LastOf(queue);
      TakeKeepsInv(View());
      NothingIsSkipped(View());
      var tx := TakePointer(pointer);
      r := Some(tx);
    }

    /** The last element of an ordered set. */
    static method LastOf(pointers: set<Score>) returns (pointer: Score)
      requires pointers != {}
      ensures pointer == Greatest(pointers)
    {
      GreatestExists(pointers);
      pointer :| pointer in pointers && forall t :: t in pointers && t != pointer ==> Less(t, pointer);
      GreatestUnique(pointers, pointer, Greatest(pointers));
    }

    /** `rollback` on any mempool that has the account. */
    method RollbackAnywhere(tx: Tx)
      requires Separate() && tx.account in accounts
      modifies this`queue, accounts.Values
      ensures accounts == old(accounts) && Separate() && View() == MempoolSpec.Rollback(old(View()), tx)
    {
      var acc := accounts[tx.account];
      var score := acc.Reset(tx);
      MovePointer(score, None);
      OnlyEntryChanged(tx.account);
    }

    /** `rollback`. The account must be there; the pool stays valid exactly if the rollback was allowed. */
    method Rollback(tx: Tx)
      requires Valid() && tx.account in accounts
      modifies this`queue, accounts.Values
      ensures accounts == old(accounts) && View() == MempoolSpec.Rollback(old(View()), tx)
      ensures Valid() <==> RollbackAllowed(old(View()), tx)
    {
      RollbackKeepsInv(View(), tx);
      RollbackAnywhere(tx);
    }

    /** Keeps the accounts the queue points at. */
    method DropUnpointed() returns (purged: set<nat>)
      requires Separate()
      modifies this`accounts
      ensures Separate() && accounts.Values <= old(accounts.Values) && purged == old(accounts).Keys - accounts.Keys
      ensures Accounts() == Kept(old(Accounts()), queue)
    {
      var index := set pointer | pointer in queue :: pointer.account;
      var kept := map a | a in accounts && a in index :: accounts[a];
      purged := accounts.Keys - kept.Keys;
      accounts := kept;
    }

    /** `gc` on any mempool. */
    method GcAnywhere() returns (purged: set<nat>)
      requires Separate()
      modifies this`accounts, this`size
      ensures Separate() && View() == MempoolSpec.Gc(old(View()), capacity)
      ensures purged == old(accounts).Keys - accounts.Keys
    {
      purged := {};
      if size >= capacity {
        ghost var kept := Kept(Accounts(), queue);
        purged := DropUnpointed();
        var total := SumOfLengths();
        assert Accounts() == kept && total == Total(kept);
        size := total;
        assert Accounts() == kept;
      }
    }

    /** `gc`. */
    method Gc() returns (purged: set<nat>)
      requires Valid()
      modifies this`accounts, this`size
      ensures Valid() && View() == MempoolSpec.Gc(old(View()), capacity)
      ensures purged == old(accounts).Keys - accounts.Keys
    {
      GcKeepsInv(View(), capacity);
      purged := GcAnywhere();
    }

    /** The fold over all accounts that recomputes the size. */
    method SumOfLengths() returns (total: nat)
      ensures total == Total(Accounts())
    {
      total := 0;
      var todo := accounts.Keys;
      assert Accounts() - (Accounts().Keys - todo) == Accounts();
      while todo != {}
        invariant todo <= accounts.Keys
        invariant total + Total(Accounts() - (Accounts().Keys - todo)) == Total(Accounts())
        decreases todo
      {
        var a :| a in todo;
        ghost var rest := Accounts() - (Accounts().Keys - todo);
        TotalSplit(rest, a);
        assert rest - {a} == Accounts() - (Accounts().Keys - (todo - {a}));
        total := total + |accounts[a].transactions|;
        todo := todo - {a};
      }
      assert Accounts() - (Accounts().Keys - todo) == map[];
    }

    /** `get_mempool_info`: the stashed accounts are handed over, then garbage is collected. */
    method GetMempoolInfo() returns (stashed: seq<nat>, purged: set<nat>)
      requires Valid()
      modifies this
      ensures Valid() && View() == MempoolSpec.Gc(old(View()), capacity)
      ensures stashed == [] && purged == old(accounts).Keys - accounts.Keys
    {
      hide Core, Total, Kept;
      stashed := stashedAccounts;
      stashedAccounts := [];
      purged := Gc();
    }
  }
}
