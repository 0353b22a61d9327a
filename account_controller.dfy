/** Creating, listing and deleting a caller's accounts
    (Controllers/AccountController.cs). The controller's snake_case member
    names stand for the model's `UserId`, `CurrentBalance`, `DateCreated`
    and `Id`. */
module AccountController {
  import opened Models
  import opened Seqs
  import opened Ledger
  import opened Data
  import TransactionController

  /** `POST api/account/create`. `body` is the request body, None when it is
      null. The account's owner, balance and creation time are overwritten
      by the controller and its `Id` is assigned by the store; only the name
      is taken from the request. */
  method CreateAccount(db: Store, userId: string, body: Option<BankAccount>, now: int)
    returns (r: Result<BankAccount>)
    requires db.Valid()
    modifies db
    ensures db.Valid()
    ensures r == Err(Unauthorized) <==> userId == Anonymous
    ensures r == Err(InvalidBody) <==> userId != Anonymous && body.None?
    ensures r.Ok? <==> userId != Anonymous && body.Some?
    ensures r.Err? ==> unchanged(db)
    ensures r.Ok? ==>
              && r.value.UserId == userId
              && r.value.CurrentBalance == 0
              && r.value.AccountName == body.value.AccountName
              && r.value.DateCreated == now
              && r.value.Id == old(db.nextAccountId)
    ensures r.Ok? ==> forall a :: a in old(db.accounts) ==> a.Id != r.value.Id
    ensures r.Ok? ==>
              && db.accounts == old(db.accounts) + [r.value]
              && db.transactions == old(db.transactions)
              && db.nextAccountId == old(db.nextAccountId) + 1
              && db.nextTransactionId == old(db.nextTransactionId)
    ensures r.Ok? ==>
              TransactionController.GetTransactions(db.accounts, db.transactions, userId, r.value.Id) == Ok([])
  {
    if userId == Anonymous {
      return Err(Unauthorized);
    }
    if body.None? {
      return Err(InvalidBody);
    }
    var account := body.value.(Id := db.nextAccountId, UserId := userId,
                               CurrentBalance := 0, DateCreated := now);
    CreatedAccountHasNoHistory(db.accounts, db.transactions, db.nextAccountId, db.nextTransactionId, account);
    db.SaveNewAccount(account);
    r := Ok(account);
  }

  /** A created account starts with an empty history: its owner reads no
      transaction for it, because the store gives it a key that no logged
      transaction references. */
  lemma CreatedAccountHasNoHistory(accounts: seq<BankAccount>, txs: seq<TransactionModel>,
                                   nextAccountId: int, nextTransactionId: int, a: BankAccount)
    requires StoreInvariant(accounts, txs, nextAccountId, nextTransactionId)
    requires a.Id == nextAccountId && a.UserId != Anonymous
    ensures TransactionController.GetTransactions(accounts + [a], txs, a.UserId, a.Id) == Ok([])
  {
    var s := accounts + [a];
    assert s[|accounts|] == a;
    assert Owns(s, a.Id, a.UserId);
    forall t | t in txs ensures !ForAccount(a.Id)(t) {
      var k :| 0 <= k < |txs| && txs[k] == t;
    }
    FilterNone(txs, ForAccount(a.Id));
  }

  /** `GET api/account`: the caller's accounts and no one else's. */
  function GetAccounts(accounts: seq<BankAccount>, userId: string): (r: Result<seq<BankAccount>>)
    ensures r.Err? <==> userId == Anonymous
    ensures r.Err? ==> r.error == Unauthorized
    ensures r.Ok? ==> forall a :: a in r.value <==> a in accounts && a.UserId == userId
    ensures r.Ok? ==> |r.value| <= |accounts|
  {
    if userId == Anonymous then Err(Unauthorized)
    else Ok(OwnedBy(accounts, userId))
  }

  /** The listing keeps store order: listing a store made of two parts lists
      the first part's accounts, then the second's. */
  lemma GetAccountsKeepsStoreOrder(front: seq<BankAccount>, back: seq<BankAccount>, userId: string)
    requires userId != Anonymous
    ensures GetAccounts(front + back, userId).Ok?
    ensures GetAccounts(front + back, userId).value
         == GetAccounts(front, userId).value + GetAccounts(back, userId).value
  {
    FilterConcat(front, back, OwnerIs(userId));
  }

  /** A created account shows up at the end of its owner's listing and in no
      other user's listing. */
  lemma CreatedAccountListedForOwnerOnly(accounts: seq<BankAccount>, a: BankAccount, userId: string)
    ensures OwnedBy(accounts + [a], userId)
         == OwnedBy(accounts, userId) + (if a.UserId == userId then [a] else [])
  {
    FilterConcat(accounts, [a], OwnerIs(userId));
    FilterSingleton(a, OwnerIs(userId));
  }

  /** With unique keys, removing the account at `i` removes exactly the
      account with that key. */
  lemma RemoveAtRemovesExactlyOne(accounts: seq<BankAccount>, i: nat)
    requires UniqueIds(accounts) && i < |accounts|
    ensures forall a :: a in RemoveAt(accounts, i) <==> a in accounts && a.Id != accounts[i].Id
  {
    var s := RemoveAt(accounts, i);
    forall a | a in s ensures a in accounts && a.Id != accounts[i].Id {
      var j :| 0 <= j < |s| && s[j] == a;
      assert a == accounts[if j < i then j else j + 1];
    }
    forall a | a in accounts && a.Id != accounts[i].Id ensures a in s {
      var j :| 0 <= j < |accounts| && accounts[j] == a;
      assert j != i;
      assert a == s[if j < i then j else j - 1];
    }
  }

  /** Deleting another user's account does not change a caller's listing. */
  lemma DeletedAccountUnlistedForOthers(accounts: seq<BankAccount>, i: nat, userId: string)
    requires i < |accounts| && accounts[i].UserId != userId
    ensures OwnedBy(RemoveAt(accounts, i), userId) == OwnedBy(accounts, userId)
  {
    RemoveFromFilter(accounts, i, OwnerIs(userId));
  }

  /** `DELETE api/account/{accountId}`: only the caller's own account, and
      only when its balance is not positive. The transactions that reference
      it stay in the log. */
  method DeleteAccount(db: Store, userId: string, accountId: int) returns (r: Result<()>)
    requires db.Valid()
    modifies db
    ensures db.Valid()
    ensures r == Err(Unauthorized) <==> userId == Anonymous
    ensures r == Err(NotFound) <==> userId != Anonymous && !Owns(old(db.accounts), accountId, userId)
    ensures r == Err(BalanceNotZero) <==>
              && userId != Anonymous
              && Owns(old(db.accounts), accountId, userId)
              && old(db.accounts)[FindOwned(old(db.accounts), accountId, userId).value].CurrentBalance > 0
    ensures r.Err? ==> r.error == Unauthorized || r.error == NotFound || r.error == BalanceNotZero
    ensures r.Err? ==> unchanged(db)
    ensures r.Ok? ==>
              && FindOwned(old(db.accounts), accountId, userId).Some?
              && db.accounts == RemoveAt(old(db.accounts), FindOwned(old(db.accounts), accountId, userId).value)
    ensures r.Ok? ==> forall a :: a in db.accounts <==> a in old(db.accounts) && a.Id != accountId
    ensures r.Ok? && NonNegative(old(db.accounts)) ==>
              old(db.accounts)[FindOwned(old(db.accounts), accountId, userId).value].CurrentBalance == 0
    ensures r.Ok? ==>
              && db.transactions == old(db.transactions)
              && db.nextAccountId == old(db.nextAccountId)
              && db.nextTransactionId == old(db.nextTransactionId)
  {
    if userId == Anonymous {
      return Err(Unauthorized);
    }
    var found := FindOwned(db.accounts, accountId, userId);
    if found.None? {
      return Err(NotFound);
    }
    var i := found.value;
    if db.accounts[i].CurrentBalance > 0 {
      return Err(BalanceNotZero);
    }
    RemoveAtRemovesExactlyOne(db.accounts, i);
    db.SaveRemoval(i);
    r := Ok(());
  }
}
