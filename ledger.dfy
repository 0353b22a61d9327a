/** The ledger's shared vocabulary: how the controllers look accounts up,
    which rows a caller may see, what a transaction does to a balance, and
    the invariant that ties the stored balances to the transaction log. */
module Ledger {
  import opened Models
  import opened Seqs

  // ---------------------------------------------------------------------
  // Looking accounts up
  // ---------------------------------------------------------------------

  /** `Accounts.FindAsync(id)`: the position of the account whose primary key
      is `id`, or None when there is none. */
  function FindAccount(accounts: seq<BankAccount>, id: int): (r: Option<nat>)
    ensures r.Some? ==> r.value < |accounts| && accounts[r.value].Id == id
    ensures r.Some? ==> forall j :: 0 <= j < r.value ==> accounts[j].Id != id
    ensures r.None? <==> forall j :: 0 <= j < |accounts| ==> accounts[j].Id != id
  {
    if |accounts| == 0 then None
    else if accounts[0].Id == id then Some(0)
    else match FindAccount(accounts[1..], id)
      case None => None
      case Some(k) => Some(k + 1)
  }

  /** Whether the account `id` exists and belongs to `userId`
      (`Accounts.Any(a => a.Id == id && a.UserId == userId)`). */
  predicate Owns(accounts: seq<BankAccount>, id: int, userId: string)
  {
    exists j :: 0 <= j < |accounts| && accounts[j].Id == id && accounts[j].UserId == userId
  }

  /** `Accounts.FirstOrDefault(a => a.Id == id && a.UserId == userId)`: the
      first account with that id owned by that user, or None. */
  function FindOwned(accounts: seq<BankAccount>, id: int, userId: string): (r: Option<nat>)
    ensures r.Some? ==> r.value < |accounts|
                        && accounts[r.value].Id == id && accounts[r.value].UserId == userId
    ensures r.Some? ==> forall j :: 0 <= j < r.value ==>
                          !(accounts[j].Id == id && accounts[j].UserId == userId)
    ensures r.None? <==> !Owns(accounts, id, userId)
  {
    if |accounts| == 0 then None
    else if accounts[0].Id == id && accounts[0].UserId == userId then Some(0)
    else
      var rest := FindOwned(accounts[1..], id, userId);
      assert Owns(accounts, id, userId) <==> Owns(accounts[1..], id, userId) by {
        if Owns(accounts, id, userId) {
          var j :| 0 <= j < |accounts| && accounts[j].Id == id && accounts[j].UserId == userId;
          assert accounts[1..][j - 1] == accounts[j];
        }
        if Owns(accounts[1..], id, userId) {
          var j :| 0 <= j < |accounts[1..]| && accounts[1..][j].Id == id && accounts[1..][j].UserId == userId;
          assert accounts[j + 1] == accounts[1..][j];
        }
      }
      match rest
      case None => None
      case Some(k) => Some(k + 1)
  }

  /** Primary keys are unique in the accounts table. */
  ghost predicate UniqueIds(accounts: seq<BankAccount>)
  {
    forall i, j :: 0 <= i < j < |accounts| ==> accounts[i].Id != accounts[j].Id
  }

  /** With unique primary keys the two lookups agree: finding by key and then
      comparing the owner (the transaction controller) answers exactly what
      the owner-filtered `FirstOrDefault` (the account and balance
      controllers) answers, so an absent id and another user's id both read
      as "not found". */
  lemma FindOwnedAgreesWithFind(accounts: seq<BankAccount>, id: int, userId: string)
    requires UniqueIds(accounts)
    ensures FindOwned(accounts, id, userId)
         == match FindAccount(accounts, id)
            case None => None
            case Some(i) => if accounts[i].UserId == userId then Some(i) else None
  {
    var f := FindAccount(accounts, id);
    var g := FindOwned(accounts, id, userId);
    if g.Some? {
      assert f.Some?;
      assert f.value == g.value;
    } else if f.Some? {
      assert accounts[f.value].UserId != userId;
    }
  }

  /** With unique primary keys, the caller owns account `id` exactly when
      the account found by key exists and belongs to the caller. */
  lemma OwnsByKey(accounts: seq<BankAccount>, id: int, userId: string)
    requires UniqueIds(accounts)
    ensures Owns(accounts, id, userId) <==>
              FindAccount(accounts, id).Some? && accounts[FindAccount(accounts, id).value].UserId == userId
  {
    FindOwnedAgreesWithFind(accounts, id, userId);
  }

  // ---------------------------------------------------------------------
  // What a caller may see
  // ---------------------------------------------------------------------

  function OwnerIs(userId: string): BankAccount -> bool
  {
    (a: BankAccount) => a.UserId == userId
  }

  /** `Accounts.Where(a => a.UserId == userId)`: the caller's accounts, in
      store order. */
  function OwnedBy(accounts: seq<BankAccount>, userId: string): (r: seq<BankAccount>)
    ensures forall a :: a in r <==> a in accounts && a.UserId == userId
  {
    FilterMembers(accounts, OwnerIs(userId));
    Filter(accounts, OwnerIs(userId))
  }

  function ForAccount(accountId: int): TransactionModel -> bool
  {
    (t: TransactionModel) => t.AccountId == accountId
  }

  /** The transactions that reference `accountId`, in log order. */
  function TransactionsOf(txs: seq<TransactionModel>, accountId: int): seq<TransactionModel>
  {
    Filter(txs, ForAccount(accountId))
  }

  /** The history of `accountId` holds exactly the logged transactions that
      reference it. */
  lemma TransactionsOfMembers(txs: seq<TransactionModel>, accountId: int)
    ensures forall t :: t in TransactionsOf(txs, accountId) <==> t in txs && t.AccountId == accountId
  {
    FilterMembers(txs, ForAccount(accountId));
  }

  // ---------------------------------------------------------------------
  // Balances and the transaction log
  // ---------------------------------------------------------------------

  /** Only the exact text "Deposit" credits; every other `Type` debits. */
  predicate IsDeposit(t: TransactionModel)
  {
    t.Type == DepositType
  }

  predicate IsDebit(t: TransactionModel)
  {
    t.Type != DepositType
  }

  /** The signed change a posted transaction makes to its account's balance. */
  function Delta(t: TransactionModel): int
  {
    if t.Type == DepositType then t.Amount else -t.Amount
  }

  function SumAmounts(h: seq<TransactionModel>): int
  {
    if |h| == 0 then 0 else h[0].Amount + SumAmounts(h[1..])
  }

  lemma {:induction false} SumAmountsConcat(a: seq<TransactionModel>, b: seq<TransactionModel>)
    ensures SumAmounts(a + b) == SumAmounts(a) + SumAmounts(b)
  {
    if |a| == 0 {
      assert a + b == b;
    } else {
      assert (a + b)[1..] == a[1..] + b;
      SumAmountsConcat(a[1..], b);
    }
  }

  /** The sum of the "Deposit" amounts of a history. */
  function Credits(h: seq<TransactionModel>): int
  {
    SumAmounts(Filter(h, IsDeposit))
  }

  /** The sum of the amounts of every other transaction of a history. */
  function Debits(h: seq<TransactionModel>): int
  {
    SumAmounts(Filter(h, IsDebit))
  }

  /** What the log says account `accountId` should hold: its deposits minus
      its debits. */
  function LedgerBalance(txs: seq<TransactionModel>, accountId: int): int
  {
    Credits(TransactionsOf(txs, accountId)) - Debits(TransactionsOf(txs, accountId))
  }

  lemma HistoryConcat(a: seq<TransactionModel>, b: seq<TransactionModel>)
    ensures Credits(a + b) == Credits(a) + Credits(b)
    ensures Debits(a + b) == Debits(a) + Debits(b)
  {
    FilterConcat(a, b, IsDeposit);
    FilterConcat(a, b, IsDebit);
    SumAmountsConcat(Filter(a, IsDeposit), Filter(b, IsDeposit));
    SumAmountsConcat(Filter(a, IsDebit), Filter(b, IsDebit));
  }

  /** Appending a transaction changes the ledger balance of the account it
      references by exactly its `Delta`, and no other account's. */
  lemma LedgerBalanceAppend(txs: seq<TransactionModel>, t: TransactionModel, accountId: int)
    ensures LedgerBalance(txs + [t], accountId)
         == LedgerBalance(txs, accountId) + (if t.AccountId == accountId then Delta(t) else 0)
  {
    var p := ForAccount(accountId);
    FilterConcat(txs, [t], p);
    FilterSingleton(t, p);
    if t.AccountId == accountId {
      HistoryConcat(TransactionsOf(txs, accountId), [t]);
      FilterSingleton(t, IsDeposit);
      FilterSingleton(t, IsDebit);
      assert [t][1..] == [];
    } else {
      assert TransactionsOf(txs + [t], accountId) == TransactionsOf(txs, accountId);
    }
  }

  /** An account id that no transaction references has ledger balance 0. */
  lemma NoHistoryNoBalance(txs: seq<TransactionModel>, accountId: int)
    requires forall k :: 0 <= k < |txs| ==> txs[k].AccountId != accountId
    ensures LedgerBalance(txs, accountId) == 0
  {
    FilterNone(txs, ForAccount(accountId));
  }

  // ---------------------------------------------------------------------
  // Store invariants
  // ---------------------------------------------------------------------

  /** Every stored balance equals the balance its transaction log implies. */
  ghost predicate Consistent(accounts: seq<BankAccount>, txs: seq<TransactionModel>)
  {
    forall i :: 0 <= i < |accounts| ==> accounts[i].CurrentBalance == LedgerBalance(txs, accounts[i].Id)
  }

  /** No account is overdrawn. */
  ghost predicate NonNegative(accounts: seq<BankAccount>)
  {
    forall i :: 0 <= i < |accounts| ==> accounts[i].CurrentBalance >= 0
  }

  /** The account table's keys: positive, below the next key to assign and
      unique, and every account owned by an authenticated user. */
  ghost predicate AccountKeys(accounts: seq<BankAccount>, nextAccountId: int)
  {
    && 0 < nextAccountId
    && (forall i :: 0 <= i < |accounts| ==> 0 < accounts[i].Id < nextAccountId)
    && (forall i :: 0 <= i < |accounts| ==> accounts[i].UserId != Anonymous)
    && UniqueIds(accounts)
  }

  /** The log's keys: positive, below the next key to assign and unique, and
      every transaction referencing an account key that was once assigned. */
  ghost predicate TransactionKeys(txs: seq<TransactionModel>, nextAccountId: int, nextTransactionId: int)
  {
    && 0 < nextTransactionId
    && (forall k :: 0 <= k < |txs| ==> 0 < txs[k].Id < nextTransactionId)
    && (forall k, l :: 0 <= k < l < |txs| ==> txs[k].Id != txs[l].Id)
    && (forall k :: 0 <= k < |txs| ==> 0 < txs[k].AccountId < nextAccountId)
  }

  /** What the store keeps true between requests: both tables' keys in order
      and the balances consistent with the log. */
  ghost predicate StoreInvariant(accounts: seq<BankAccount>, txs: seq<TransactionModel>,
                                 nextAccountId: int, nextTransactionId: int)
  {
    && AccountKeys(accounts, nextAccountId)
    && TransactionKeys(txs, nextAccountId, nextTransactionId)
    && Consistent(accounts, txs)
  }

  /** The empty store satisfies the invariant. */
  lemma EmptyStore()
    ensures StoreInvariant([], [], 1, 1)
  {
  }

  /** Adding an account with the next identity key and balance 0 keeps the
      invariant: no transaction can reference a key not yet assigned. */
  lemma InvariantAfterCreate(accounts: seq<BankAccount>, txs: seq<TransactionModel>,
                             nextAccountId: int, nextTransactionId: int, a: BankAccount)
    requires StoreInvariant(accounts, txs, nextAccountId, nextTransactionId)
    requires a.Id == nextAccountId && a.UserId != Anonymous && a.CurrentBalance == 0
    ensures StoreInvariant(accounts + [a], txs, nextAccountId + 1, nextTransactionId)
  {
    var s := accounts + [a];
    NoHistoryNoBalance(txs, a.Id);
    forall i | 0 <= i < |s|
      ensures 0 < s[i].Id < nextAccountId + 1
      ensures s[i].CurrentBalance == LedgerBalance(txs, s[i].Id)
    {
      if i < |accounts| { assert s[i] == accounts[i]; }
    }
  }

  /** Removing an account keeps the invariant; its transactions stay in the
      log as orphans. */
  lemma InvariantAfterDelete(accounts: seq<BankAccount>, txs: seq<TransactionModel>,
                             nextAccountId: int, nextTransactionId: int, i: nat)
    requires StoreInvariant(accounts, txs, nextAccountId, nextTransactionId)
    requires i < |accounts|
    ensures StoreInvariant(RemoveAt(accounts, i), txs, nextAccountId, nextTransactionId)
  {
    var s := RemoveAt(accounts, i);
    forall j, k | 0 <= j < k < |s| ensures s[j].Id != s[k].Id {
      var j' := if j < i then j else j + 1;
      var k' := if k < i then k else k + 1;
      assert s[j] == accounts[j'] && s[k] == accounts[k'];
    }
    forall j | 0 <= j < |s|
      ensures 0 < s[j].Id < nextAccountId && s[j].UserId != Anonymous
      ensures s[j].CurrentBalance == LedgerBalance(txs, s[j].Id)
    {
      assert s[j] == accounts[if j < i then j else j + 1];
    }
  }

  /** Replacing an account by one with the same key and owner keeps the
      account keys in order. */
  lemma AccountKeysAfterUpdate(accounts: seq<BankAccount>, nextAccountId: int, i: nat, a: BankAccount)
    requires AccountKeys(accounts, nextAccountId)
    requires i < |accounts| && a.Id == accounts[i].Id && a.UserId == accounts[i].UserId
    ensures AccountKeys(accounts[i := a], nextAccountId)
  {
  }

  /** Appending a transaction with the next key, for an assigned account key,
      keeps the log's keys in order. */
  lemma TransactionKeysAfterAppend(txs: seq<TransactionModel>, nextAccountId: int, nextTransactionId: int,
                                   t: TransactionModel)
    requires TransactionKeys(txs, nextAccountId, nextTransactionId)
    requires t.Id == nextTransactionId && 0 < t.AccountId < nextAccountId
    ensures TransactionKeys(txs + [t], nextAccountId, nextTransactionId + 1)
  {
    var l := txs + [t];
    forall k | 0 <= k < |l|
      ensures 0 < l[k].Id < nextTransactionId + 1 && 0 < l[k].AccountId < nextAccountId
    {
      if k < |txs| { assert l[k] == txs[k]; }
    }
    forall k, m | 0 <= k < m < |l| ensures l[k].Id != l[m].Id {
      assert l[k] == txs[k];
      if m < |txs| { assert l[m] == txs[m]; }
    }
  }

  /** Crediting or debiting account `i` by `Delta(t)` while appending `t` to
      the log keeps every balance consistent with the log. */
  lemma ConsistentAfterPosting(accounts: seq<BankAccount>, txs: seq<TransactionModel>,
                               i: nat, a: BankAccount, t: TransactionModel)
    requires Consistent(accounts, txs) && UniqueIds(accounts)
    requires i < |accounts| && t.AccountId == accounts[i].Id && a.Id == accounts[i].Id
    requires a.CurrentBalance == accounts[i].CurrentBalance + Delta(t)
    ensures Consistent(accounts[i := a], txs + [t])
  {
    var s := accounts[i := a];
    forall j | 0 <= j < |s| ensures s[j].CurrentBalance == LedgerBalance(txs + [t], s[j].Id) {
      LedgerBalanceAppend(txs, t, accounts[j].Id);
    }
  }

  /** Replacing account `i` by `a`, the same account credited or debited by
      `Delta(t)`, and appending `t` in the same step keeps the invariant, in
      particular the ledger consistency. */
  lemma InvariantAfterPosting(accounts: seq<BankAccount>, txs: seq<TransactionModel>,
                              nextAccountId: int, nextTransactionId: int,
                              i: nat, a: BankAccount, t: TransactionModel)
    requires StoreInvariant(accounts, txs, nextAccountId, nextTransactionId)
    requires i < |accounts| && t.AccountId == accounts[i].Id && t.Id == nextTransactionId
    requires a.Id == accounts[i].Id && a.UserId == accounts[i].UserId
    requires a.CurrentBalance == accounts[i].CurrentBalance + Delta(t)
    ensures StoreInvariant(accounts[i := a], txs + [t], nextAccountId, nextTransactionId + 1)
  {
    AccountKeysAfterUpdate(accounts, nextAccountId, i, a);
    TransactionKeysAfterAppend(txs, nextAccountId, nextTransactionId, t);
    ConsistentAfterPosting(accounts, txs, i, a, t);
  }
}
