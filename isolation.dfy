/** Callers are isolated by owner: what one user can observe through the
    queries depends only on that user's own accounts (and their history),
    so no other user's accounts, postings, creations or deletions can be
    seen or told apart from an absent id. */
module Isolation {
  import opened Models
  import opened Seqs
  import opened Ledger
  import opened AccountController
  import opened TransactionController
  import opened BalanceController

  /** Everything user `userId` can read about the store when asking about
      account `accountId`. */
  datatype View = View(
    accounts: Result<seq<BankAccount>>,
    summary: Result<seq<AccountSummary>>,
    balance: Result<int>,
    history: Result<seq<TransactionModel>>)

  function CallerView(accounts: seq<BankAccount>, txs: seq<TransactionModel>,
                      userId: string, accountId: int): View
  {
    View(GetAccounts(accounts, userId), GetSummary(accounts, userId),
         GetBalance(accounts, userId, accountId),
         GetTransactions(accounts, txs, userId, accountId))
  }

  /** Two tables in which `userId` owns the same accounts, in the same order,
      give `userId` the same view, however the other users' rows differ. */
  lemma ViewDependsOnlyOnOwnAccounts(a1: seq<BankAccount>, a2: seq<BankAccount>,
                                     txs: seq<TransactionModel>, userId: string, accountId: int)
    requires UniqueIds(a1) && UniqueIds(a2)
    requires OwnedBy(a1, userId) == OwnedBy(a2, userId)
    ensures CallerView(a1, txs, userId, accountId) == CallerView(a2, txs, userId, accountId)
  {
    var owned := OwnedBy(a1, userId);
    assert Owns(a1, accountId, userId) ==> Owns(a2, accountId, userId) by {
      if Owns(a1, accountId, userId) {
        var j :| 0 <= j < |a1| && a1[j].Id == accountId && a1[j].UserId == userId;
        assert a1[j] in owned;
        var k :| 0 <= k < |a2| && a2[k] == a1[j];
      }
    }
    assert Owns(a2, accountId, userId) ==> Owns(a1, accountId, userId) by {
      if Owns(a2, accountId, userId) {
        var j :| 0 <= j < |a2| && a2[j].Id == accountId && a2[j].UserId == userId;
        assert a2[j] in owned;
        var k :| 0 <= k < |a1| && a1[k] == a2[j];
      }
    }
    if userId != Anonymous && Owns(a1, accountId, userId) {
      var i := FindOwned(a1, accountId, userId).value;
      var j := FindOwned(a2, accountId, userId).value;
      assert a1[i] in owned;
      var k :| 0 <= k < |a2| && a2[k] == a1[i];
      assert k == j;
    }
  }

  /** Appending a transaction of another user's account does not change the
      history the caller reads. */
  lemma OthersTransactionInvisible(accounts: seq<BankAccount>, txs: seq<TransactionModel>,
                                   i: nat, t: TransactionModel, userId: string, accountId: int)
    requires UniqueIds(accounts)
    requires i < |accounts| && accounts[i].UserId != userId && t.AccountId == accounts[i].Id
    ensures GetTransactions(accounts, txs + [t], userId, accountId)
         == GetTransactions(accounts, txs, userId, accountId)
  {
    if userId != Anonymous && Owns(accounts, accountId, userId) {
      var j :| 0 <= j < |accounts| && accounts[j].Id == accountId && accounts[j].UserId == userId;
      assert j != i && t.AccountId != accountId;
      FilterConcat(txs, [t], ForAccount(accountId));
      FilterSingleton(t, ForAccount(accountId));
      assert TransactionsOf(txs + [t], accountId) == TransactionsOf(txs, accountId);
    }
  }

  /** A posting to another user's account leaves the caller's view as it was. */
  lemma OthersPostingInvisible(accounts: seq<BankAccount>, txs: seq<TransactionModel>,
                               i: nat, t: TransactionModel, userId: string, accountId: int)
    requires UniqueIds(accounts)
    requires i < |accounts| && accounts[i].UserId != userId && t.AccountId == accounts[i].Id
    ensures CallerView(accounts[i := Apply(accounts[i], t)], txs + [t], userId, accountId)
         == CallerView(accounts, txs, userId, accountId)
  {
    var posted := accounts[i := Apply(accounts[i], t)];
    UpdateOutsideFilter(accounts, i, Apply(accounts[i], t), OwnerIs(userId));
    assert UniqueIds(posted) by {
      forall j, k | 0 <= j < k < |posted| ensures posted[j].Id != posted[k].Id {
        assert posted[j].Id == accounts[j].Id && posted[k].Id == accounts[k].Id;
      }
    }
    ViewDependsOnlyOnOwnAccounts(posted, accounts, txs + [t], userId, accountId);
    OthersTransactionInvisible(accounts, txs, i, t, userId, accountId);
  }

  /** Another user creating an account leaves the caller's view as it was. */
  lemma OthersCreateInvisible(accounts: seq<BankAccount>, txs: seq<TransactionModel>,
                              a: BankAccount, userId: string, accountId: int)
    requires UniqueIds(accounts + [a])
    requires a.UserId != userId
    ensures CallerView(accounts + [a], txs, userId, accountId) == CallerView(accounts, txs, userId, accountId)
  {
    CreatedAccountListedForOwnerOnly(accounts, a, userId);
    assert UniqueIds(accounts) by {
      forall j, k | 0 <= j < k < |accounts| ensures accounts[j].Id != accounts[k].Id {
        assert (accounts + [a])[j] == accounts[j] && (accounts + [a])[k] == accounts[k];
      }
    }
    ViewDependsOnlyOnOwnAccounts(accounts + [a], accounts, txs, userId, accountId);
  }

  /** Another user deleting an account leaves the caller's view as it was. */
  lemma OthersDeleteInvisible(accounts: seq<BankAccount>, txs: seq<TransactionModel>,
                              i: nat, userId: string, accountId: int)
    requires UniqueIds(accounts)
    requires i < |accounts| && accounts[i].UserId != userId
    ensures CallerView(RemoveAt(accounts, i), txs, userId, accountId) == CallerView(accounts, txs, userId, accountId)
  {
    var s := RemoveAt(accounts, i);
    DeletedAccountUnlistedForOthers(accounts, i, userId);
    assert UniqueIds(s) by {
      forall j, k | 0 <= j < k < |s| ensures s[j].Id != s[k].Id {
        assert s[j] == accounts[if j < i then j else j + 1];
        assert s[k] == accounts[if k < i then k else k + 1];
      }
    }
    ViewDependsOnlyOnOwnAccounts(s, accounts, txs, userId, accountId);
  }
}
