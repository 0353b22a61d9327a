/** Read-only balance queries (Controllers/BalanceController.cs). */
module BalanceController {
  import opened Models
  import opened Seqs
  import opened Ledger
  import AccountController
  import TransactionController

  /** `GET api/balance/{accountId}`: the balance of the caller's account
      `accountId`. An absent id and another user's id both give NotFound. */
  function GetBalance(accounts: seq<BankAccount>, userId: string, accountId: int): (r: Result<int>)
    ensures r == Err(Unauthorized) <==> userId == Anonymous
    ensures r == Err(NotFound) <==> userId != Anonymous && !Owns(accounts, accountId, userId)
    ensures r.Ok? <==> userId != Anonymous && Owns(accounts, accountId, userId)
    ensures r.Ok? ==> exists j :: && 0 <= j < |accounts|
                                  && accounts[j].Id == accountId && accounts[j].UserId == userId
                                  && accounts[j].CurrentBalance == r.value
  {
    if userId == Anonymous then Err(Unauthorized)
    else match FindOwned(accounts, accountId, userId)
      case None => Err(NotFound)
      case Some(i) => Ok(accounts[i].CurrentBalance)
  }

  /** The `Select(a => new { a.AccountName, a.CurrentBalance })` projection. */
  function Summarize(owned: seq<BankAccount>): (r: seq<AccountSummary>)
    ensures |r| == |owned|
    ensures forall i :: 0 <= i < |r| ==> r[i].AccountName == owned[i].AccountName
    ensures forall i :: 0 <= i < |r| ==> r[i].CurrentBalance == owned[i].CurrentBalance
  {
    seq(|owned|, i requires 0 <= i < |owned| => AccountSummary(owned[i].AccountName, owned[i].CurrentBalance))
  }

  /** `GET api/balance/summary`: one (name, balance) pair per account of the
      caller, in store order. */
  function GetSummary(accounts: seq<BankAccount>, userId: string): (r: Result<seq<AccountSummary>>)
    ensures r.Err? <==> userId == Anonymous
    ensures r.Err? ==> r.error == Unauthorized
  {
    if userId == Anonymous then Err(Unauthorized)
    else Ok(Summarize(OwnedBy(accounts, userId)))
  }

  /** The summary has an entry for each of the caller's accounts and no other
      entry. */
  lemma SummaryCoversOwnAccounts(accounts: seq<BankAccount>, userId: string)
    requires userId != Anonymous
    ensures GetSummary(accounts, userId).Ok?
    ensures forall e :: e in GetSummary(accounts, userId).value <==>
              exists a :: a in accounts && a.UserId == userId
                          && e == AccountSummary(a.AccountName, a.CurrentBalance)
  {
    var owned := OwnedBy(accounts, userId);
    var s := GetSummary(accounts, userId).value;
    assert s == Summarize(owned);
    forall e | e in s
      ensures exists a :: a in accounts && a.UserId == userId
                          && e == AccountSummary(a.AccountName, a.CurrentBalance)
    {
      var i :| 0 <= i < |s| && s[i] == e;
      assert owned[i] in owned;
    }
    forall a | a in accounts && a.UserId == userId
      ensures AccountSummary(a.AccountName, a.CurrentBalance) in s
    {
      assert a in owned;
      var i :| 0 <= i < |owned| && owned[i] == a;
      assert s[i] == AccountSummary(a.AccountName, a.CurrentBalance);
    }
  }

  /** The summary is the projection of the account listing: both answer or
      both refuse, with equal lengths and matching entries. */
  lemma SummaryProjectsAccounts(accounts: seq<BankAccount>, userId: string)
    ensures GetSummary(accounts, userId).Ok? <==> AccountController.GetAccounts(accounts, userId).Ok?
    ensures GetSummary(accounts, userId).Ok? ==>
              var s := GetSummary(accounts, userId).value;
              var l := AccountController.GetAccounts(accounts, userId).value;
              && |s| == |l|
              && forall i :: 0 <= i < |s| ==>
                   s[i] == AccountSummary(l[i].AccountName, l[i].CurrentBalance)
  {
  }

  /** The balance the caller reads is the balance the caller's own history
      implies: its deposits minus its debits. */
  lemma BalanceMatchesHistory(accounts: seq<BankAccount>, txs: seq<TransactionModel>,
                              nextAccountId: int, nextTransactionId: int,
                              userId: string, accountId: int)
    requires StoreInvariant(accounts, txs, nextAccountId, nextTransactionId)
    requires GetBalance(accounts, userId, accountId).Ok?
    ensures TransactionController.GetTransactions(accounts, txs, userId, accountId).Ok?
    ensures var h := TransactionController.GetTransactions(accounts, txs, userId, accountId).value;
            GetBalance(accounts, userId, accountId).value == Credits(h) - Debits(h)
  {
    var j := FindOwned(accounts, accountId, userId).value;
    assert accounts[j].CurrentBalance == LedgerBalance(txs, accounts[j].Id);
  }
}
