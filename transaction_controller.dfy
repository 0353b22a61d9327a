/** Posting deposits and withdrawals and reading an account's history
    (Controllers/TransactionController.cs). */
module TransactionController {
  import opened Models
  import opened Seqs
  import opened Ledger
  import opened Data

  /** The only funds check: a request whose `Type` is exactly "Withdrawal"
      and whose amount exceeds the balance. */
  predicate Overdraws(account: BankAccount, t: TransactionModel)
  {
    t.Type == WithdrawalType && account.CurrentBalance < t.Amount
  }

  /** The account after `t` is applied to it: "Deposit" adds the amount,
      every other `Type` subtracts it, and nothing but the balance changes. */
  function Apply(account: BankAccount, t: TransactionModel): (a: BankAccount)
    ensures a.Id == account.Id && a.UserId == account.UserId
    ensures a.AccountName == account.AccountName && a.DateCreated == account.DateCreated
    ensures IsDeposit(t) ==> a.CurrentBalance == account.CurrentBalance + t.Amount
    ensures IsDebit(t) ==> a.CurrentBalance == account.CurrentBalance - t.Amount
  {
    account.(CurrentBalance := account.CurrentBalance + Delta(t))
  }

  /** The requests under which an account that passes the funds check can
      never be driven below zero: a "Withdrawal" of any amount (a negative one
      credits), or any other request that does not lower the balance. */
  predicate KeepsNonNegative(t: TransactionModel)
  {
    t.Type == WithdrawalType || Delta(t) >= 0
  }

  /** A request with an amount that is not negative and one of the two
      types the model's `Type` comment names ("Deposit or Withdrawal",
      Models/TransactionModel.cs line 8). */
  predicate WellFormed(t: TransactionModel)
  {
    t.Amount >= 0 && (t.Type == DepositType || t.Type == WithdrawalType)
  }

  /** `KeepsNonNegative` is exactly the condition under which posting keeps a
      non-negative balance non-negative: sufficient for every account, and
      for every other request some account with balance 0 goes negative. */
  lemma NonNegativeExactly(t: TransactionModel)
    ensures KeepsNonNegative(t) <==>
              forall a: BankAccount :: a.CurrentBalance >= 0 && !Overdraws(a, t) ==> Apply(a, t).CurrentBalance >= 0
  {
    if !KeepsNonNegative(t) {
      var empty := BankAccount(1, "owner", "name", 0, 0);
      assert !Overdraws(empty, t) && Apply(empty, t).CurrentBalance < 0;
    }
  }

  /** Well-formed requests keep balances non-negative. */
  lemma WellFormedKeepsNonNegative(t: TransactionModel)
    requires WellFormed(t)
    ensures KeepsNonNegative(t)
  {
  }

  /** Nothing rejects a negative deposit, and it overdraws an empty account. */
  lemma NegativeDepositOverdraws(account: BankAccount, t: TransactionModel)
    requires account.CurrentBalance == 0 && t.Type == DepositType && t.Amount < 0
    ensures !Overdraws(account, t) && Apply(account, t).CurrentBalance < 0
  {
  }

  /** A `Type` other than the two names skips the funds check but debits. */
  lemma UnknownTypeSkipsFundsCheck(account: BankAccount, t: TransactionModel)
    requires t.Type != DepositType && t.Type != WithdrawalType
    requires account.CurrentBalance < t.Amount
    ensures !Overdraws(account, t) && Apply(account, t).CurrentBalance < 0
  {
  }

  /** A negative "Withdrawal" passes the funds check of any non-negative
      balance and credits the account. */
  lemma NegativeWithdrawalCredits(account: BankAccount, t: TransactionModel)
    requires account.CurrentBalance >= 0 && t.Type == WithdrawalType && t.Amount < 0
    ensures !Overdraws(account, t) && Apply(account, t).CurrentBalance > account.CurrentBalance
  {
    assert WithdrawalType[0] == 'W' && DepositType[0] == 'D';
    assert IsDebit(t);
  }

  /** Under `KeepsNonNegative`, posting to an account that passes the funds
      check keeps every balance of the table non-negative. */
  lemma PostingKeepsNonNegative(accounts: seq<BankAccount>, i: nat, t: TransactionModel)
    requires i < |accounts| && !Overdraws(accounts[i], t)
    ensures NonNegative(accounts) && KeepsNonNegative(t) ==>
              NonNegative(accounts[i := Apply(accounts[i], t)])
  {
  }

  /** `POST api/transactions/create`. The request's `Id` is replaced by the
      store's next key and its `TransactionDate` by `now`; the balance update
      and the append are one atomic step. */
  method CreateTransaction(db: Store, userId: string, request: TransactionModel, now: int)
    returns (r: Result<TransactionModel>)
    requires db.Valid()
    modifies db
    ensures db.Valid()
    ensures r == Err(Unauthorized) <==> userId == Anonymous
    ensures r == Err(NotFound) <==> userId != Anonymous && !Owns(old(db.accounts), request.AccountId, userId)
    ensures r == Err(InsufficientFunds) <==>
              && userId != Anonymous
              && Owns(old(db.accounts), request.AccountId, userId)
              && Overdraws(old(db.accounts)[FindAccount(old(db.accounts), request.AccountId).value], request)
    ensures r.Err? ==> r.error == Unauthorized || r.error == NotFound || r.error == InsufficientFunds
    ensures r.Err? ==> unchanged(db)
    ensures r.Ok? ==>
              && FindAccount(old(db.accounts), request.AccountId).Some?
              && var i := FindAccount(old(db.accounts), request.AccountId).value;
                 db.accounts == old(db.accounts)[i := Apply(old(db.accounts)[i], request)]
    ensures r.Ok? ==>
              && r.value == request.(Id := old(db.nextTransactionId), TransactionDate := now)
              && db.transactions == old(db.transactions) + [r.value]
              && db.nextAccountId == old(db.nextAccountId)
              && db.nextTransactionId == old(db.nextTransactionId) + 1
    ensures NonNegative(old(db.accounts)) && KeepsNonNegative(request) ==> NonNegative(db.accounts)
  {
    if userId == Anonymous {
      return Err(Unauthorized);
    }
    var found := FindAccount(db.accounts, request.AccountId);
    OwnsByKey(db.accounts, request.AccountId, userId);
    if found.None? || db.accounts[found.value].UserId != userId {
      return Err(NotFound);
    }
    var i := found.value;
    var account := db.accounts[i];
    if Overdraws(account, request) {
      return Err(InsufficientFunds);
    }
    var posted := request.(Id := db.nextTransactionId, TransactionDate := now);
    assert Apply(account, posted) == Apply(account, request);
    PostingKeepsNonNegative(db.accounts, i, request);
    db.SavePosting(i, Apply(account, posted), posted);
    r := Ok(posted);
  }

  /** `GET api/transactions/{accountId}`: the transactions of `accountId`, in
      log order, when the caller owns that account, and an empty list (not
      NotFound) otherwise. */
  function GetTransactions(accounts: seq<BankAccount>, txs: seq<TransactionModel>,
                           userId: string, accountId: int): (r: Result<seq<TransactionModel>>)
    ensures r.Err? <==> userId == Anonymous
    ensures r.Err? ==> r.error == Unauthorized
    ensures r.Ok? && Owns(accounts, accountId, userId) ==> r.value == TransactionsOf(txs, accountId)
    ensures r.Ok? && !Owns(accounts, accountId, userId) ==> r.value == []
  {
    if userId == Anonymous then Err(Unauthorized)
    else
      var visible := (t: TransactionModel) => t.AccountId == accountId && Owns(accounts, accountId, userId);
      if Owns(accounts, accountId, userId) then
        FilterCongruence(txs, visible, ForAccount(accountId));
        Ok(Filter(txs, visible))
      else
        FilterNone(txs, visible);
        Ok(Filter(txs, visible))
  }
}
