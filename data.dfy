/** The in-memory stand-in for the EF database context: the accounts table,
    the append-only transactions table and the two identity counters that
    hand out primary keys. One call of `SaveChangesAsync` is one atomic
    update of these fields. */
module Data {
  import opened Models
  import Seqs
  import Ledger

  class Store {
    var accounts: seq<BankAccount>
    var transactions: seq<TransactionModel>
    var nextAccountId: int
    var nextTransactionId: int

    ghost predicate Valid()
      reads this
    {
      Ledger.StoreInvariant(accounts, transactions, nextAccountId, nextTransactionId)
    }

    /** An empty database whose identity columns start at 1. */
    constructor ()
      ensures Valid()
      ensures accounts == [] && transactions == []
      ensures nextAccountId == 1 && nextTransactionId == 1
    {
      accounts := [];
      transactions := [];
      nextAccountId := 1;
      nextTransactionId := 1;
      Ledger.EmptyStore();
    }

    /** The `Accounts.Add` and `SaveChangesAsync` of a new account: it is
        stored last under the next account key, which is then used up. */
    method SaveNewAccount(a: BankAccount)
      requires Valid()
      requires a.Id == nextAccountId && a.UserId != Models.Anonymous && a.CurrentBalance == 0
      modifies this
      ensures Valid()
      ensures accounts == old(accounts) + [a]
      ensures transactions == old(transactions)
      ensures nextAccountId == old(nextAccountId) + 1
      ensures nextTransactionId == old(nextTransactionId)
    {
      Ledger.InvariantAfterCreate(accounts, transactions, nextAccountId, nextTransactionId, a);
      accounts, nextAccountId := accounts + [a], nextAccountId + 1;
    }

    /** The `Accounts.Remove` and `SaveChangesAsync` of account `i`; the log
        keeps the transactions that reference it. */
    method SaveRemoval(i: nat)
      requires Valid() && i < |accounts|
      modifies this
      ensures Valid()
      ensures accounts == Seqs.RemoveAt(old(accounts), i)
      ensures transactions == old(transactions)
      ensures nextAccountId == old(nextAccountId)
      ensures nextTransactionId == old(nextTransactionId)
    {
      Ledger.InvariantAfterDelete(accounts, transactions, nextAccountId, nextTransactionId, i);
      accounts := Seqs.RemoveAt(accounts, i);
    }

    /** The `SaveChangesAsync` of a posting: account `i` replaced by `a`, its
        balance moved by `Delta(t)`, and `t` added to the log under the next
        transaction key, in one step. */
    method SavePosting(i: nat, a: BankAccount, t: TransactionModel)
      requires Valid()
      requires i < |accounts| && t.AccountId == accounts[i].Id && t.Id == nextTransactionId
      requires a.Id == accounts[i].Id && a.UserId == accounts[i].UserId
      requires a.CurrentBalance == accounts[i].CurrentBalance + Ledger.Delta(t)
      modifies this
      ensures Valid()
      ensures accounts == old(accounts)[i := a]
      ensures transactions == old(transactions) + [t]
      ensures nextAccountId == old(nextAccountId)
      ensures nextTransactionId == old(nextTransactionId) + 1
    {
      Ledger.InvariantAfterPosting(accounts, transactions, nextAccountId, nextTransactionId, i, a, t);
      accounts, transactions, nextTransactionId := accounts[i := a], transactions + [t], nextTransactionId + 1;
    }
  }
}
