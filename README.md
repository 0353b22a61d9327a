# Multi-account bank ledger, modelled in Dafny

This project models the account ledger of MultiAccountBankAPI. The ledger is
the logic inside the account, transaction and balance controllers. Users own
several bank accounts. They post deposits and withdrawals against those
accounts. They read balances, summaries and transaction histories. What one
user does must stay invisible to every other user.

The database context becomes one in-memory store, `Data.Store`. It holds:

- the accounts table, a sequence of `BankAccount`;
- the transactions table, an append-only sequence of `TransactionModel`;
- the two identity counters that assign primary keys.

Each controller action becomes one member of its own module:

- Actions that change the store are methods that modify the `Store`.
- Queries are functions over the store's sequences, so they are read-only by
  construction.

The caller is a plain owner-id string: the empty string stands for a missing
or invalid token. Every action returns a `Result` whose errors stand in for
the HTTP responses: `Unauthorized` (401), `NotFound` (404), and `InvalidBody`,
`InsufficientFunds` and `BalanceNotZero` (the three 400 responses).

`decimal` amounts are `int`, counted in exact minor units. `DateTime.UtcNow`
is a `now` parameter supplied by the caller. `AccountController` uses
snake_case names (`user_id`, `current_balance`, `date_created`, `id`). These
stand for the `BankAccount` properties `UserId`, `CurrentBalance`,
`DateCreated` and `Id`.

The store invariant (`Ledger.StoreInvariant`, kept by every method) says:

- primary keys are unique, and the keys already assigned are all below the
  next key;
- every account belongs to an authenticated user;
- every transaction references a positive account key below the next one,
  that is a key that was assigned at some point;
- every stored balance equals the deposits minus the debits of the
  transactions that reference the account (ledger consistency).

A non-negative balance is not part of the invariant. The code enforces it
only for some requests (see below).

## Model

| member | source | states |
|---|---|---|
| Ledger.FindAccount | MultiAccountBankAPI/Controllers/TransactionController.cs:82 | Primary-key lookup. It returns the position of the first account with that id, or None exactly when no account has that id. |
| Ledger.FindOwned | MultiAccountBankAPI/Controllers/AccountController.cs:108-109 | The owner-filtered `FirstOrDefault`. It returns the first account with that id and that owner, or None exactly when the caller owns no account with that id. |
| Ledger.FindOwnedAgreesWithFind | MultiAccountBankAPI/Controllers/TransactionController.cs:82-83 | With unique keys, "find by key, then compare the owner" gives the same answer as the owner-filtered lookup. So an absent id and another user's id both read as NotFound in every controller. |
| Ledger.OwnedBy | MultiAccountBankAPI/Controllers/AccountController.cs:69-71 | An account is in the caller's view exactly when it is in the table and the caller owns it. |
| Ledger.TransactionsOfMembers | MultiAccountBankAPI/Controllers/TransactionController.cs:133-135 | A transaction is in an account's history exactly when it is in the log and references that account. |
| Seqs.FilterConcat | MultiAccountBankAPI/Controllers/AccountController.cs:69-71 | `Where` keeps store order: filtering a concatenation gives the concatenation of the two filtered parts. |
| Ledger.LedgerBalanceAppend | MultiAccountBankAPI/Controllers/TransactionController.cs:89-93 | Appending a transaction changes the deposits-minus-debits balance of the account it references by +Amount for "Deposit" and by −Amount for any other type. No other account's balance changes. |
| Ledger.NoHistoryNoBalance | MultiAccountBankAPI/Controllers/AccountController.cs:45-50 | An id that no transaction references has ledger balance 0. This is why a new account with balance 0 is consistent with the log. |
| Ledger.InvariantAfterCreate | MultiAccountBankAPI/Controllers/AccountController.cs:45-50 | Adding an account with the next key, an authenticated owner and balance 0 keeps the store invariant. |
| Ledger.InvariantAfterDelete | MultiAccountBankAPI/Controllers/AccountController.cs:118-119 | Removing any account keeps the store invariant. Its transactions stay in the log as orphans. |
| Ledger.OwnsByKey | MultiAccountBankAPI/Controllers/TransactionController.cs:82-83 | With unique keys, the caller owns account `id` exactly when the account found by key exists and belongs to the caller. |
| Ledger.ConsistentAfterPosting | MultiAccountBankAPI/Controllers/TransactionController.cs:89-93 | Moving one account's balance by the transaction's signed amount while appending that transaction keeps every stored balance equal to its deposits minus its debits. |
| Ledger.TransactionKeysAfterAppend | MultiAccountBankAPI/Controllers/TransactionController.cs:92-93 | Appending a transaction under the next transaction key, for an account key already assigned, keeps the log's keys positive, below the next key and unique. |
| Ledger.InvariantAfterPosting | MultiAccountBankAPI/Controllers/TransactionController.cs:89-93 | Changing the balance by the transaction's signed amount and appending the transaction in the same step keeps the store invariant, including ledger consistency. |
| Data.Store.constructor | MultiAccountBankAPI/Data/ApplicationDbContext.cs:11-12 | The empty store satisfies the invariant and both identity counters start at 1. |
| Data.Store.SaveNewAccount | MultiAccountBankAPI/Controllers/AccountController.cs:49-50 | Saving a new account with the next key, an authenticated owner and balance 0 appends it, uses the key up, leaves the log alone and keeps the invariant. |
| Data.Store.SaveRemoval | MultiAccountBankAPI/Controllers/AccountController.cs:118-119 | Saving the removal of one account drops exactly that position, leaves the log and the counters alone and keeps the invariant. |
| Data.Store.SavePosting | MultiAccountBankAPI/Controllers/TransactionController.cs:89-93 | Saving a posting replaces the account and appends the transaction under the next key in one step, leaves the account counter alone and keeps the invariant. |
| AccountController.CreateAccount | MultiAccountBankAPI/Controllers/AccountController.cs:35-52 | Unauthorized exactly for an empty caller id, and InvalidBody exactly for a null body. Both leave everything unchanged. On success it appends exactly one account with a fresh key: owner = caller, balance 0, the name from the body and creation time `now`. Transactions are unchanged, and the owner reads an empty history for the new account. |
| AccountController.CreatedAccountHasNoHistory | MultiAccountBankAPI/Controllers/AccountController.cs:45-50 | In a valid store, an account created under the next account key with an authenticated owner has an empty history for its owner: no logged transaction references that key. |
| AccountController.GetAccounts | MultiAccountBankAPI/Controllers/AccountController.cs:62-74 | Unauthorized exactly for an empty caller id. Otherwise it returns exactly the caller's accounts and no other owner's. |
| AccountController.GetAccountsKeepsStoreOrder | MultiAccountBankAPI/Controllers/AccountController.cs:69-71 | The listing follows store order: listing a store split into two parts gives the first part's listing followed by the second part's. |
| AccountController.CreatedAccountListedForOwnerOnly | MultiAccountBankAPI/Controllers/AccountController.cs:45-50 | A created account appears at the end of its owner's listing and in no other user's listing. |
| AccountController.RemoveAtRemovesExactlyOne | MultiAccountBankAPI/Controllers/AccountController.cs:118 | With unique keys, removing the found account removes exactly the account with that key and keeps all others. |
| AccountController.DeletedAccountUnlistedForOthers | MultiAccountBankAPI/Controllers/AccountController.cs:108-118 | Deleting an account that the caller does not own leaves the caller's listing unchanged. |
| AccountController.DeleteAccount | MultiAccountBankAPI/Controllers/AccountController.cs:101-121 | Unauthorized exactly for an empty caller id. NotFound exactly when the caller owns no account with that id. BalanceNotZero exactly when the caller's account has a positive balance. Every error leaves the store unchanged. On success only that account is removed: the log and the counters are untouched, and a non-negative balance was exactly 0. |
| TransactionController.Apply | MultiAccountBankAPI/Controllers/TransactionController.cs:89 | Posting changes only the balance. "Deposit" adds the amount; any other type subtracts it. Key, owner, name and creation time are kept. |
| TransactionController.CreateTransaction | MultiAccountBankAPI/Controllers/TransactionController.cs:75-96 | Unauthorized exactly for an empty caller id. NotFound exactly when the caller owns no account with that id. InsufficientFunds exactly for a "Withdrawal" above the balance. Every error leaves the store unchanged. On success the found account is replaced by `Apply` of it and every other account is kept. Exactly one transaction is appended: the request with the next key and date `now`. Earlier transactions are kept. The invariant holds afterwards, and non-negative balances stay non-negative for requests satisfying `KeepsNonNegative`. |
| TransactionController.PostingKeepsNonNegative | MultiAccountBankAPI/Controllers/TransactionController.cs:85-89 | Posting a `KeepsNonNegative` request that passes the funds check to a table of non-negative balances leaves every balance non-negative. |
| TransactionController.NonNegativeExactly | MultiAccountBankAPI/Controllers/TransactionController.cs:85-89 | `KeepsNonNegative` (a "Withdrawal", or a request whose signed amount is ≥ 0) holds exactly when every non-negative account that passes the funds check stays non-negative. For any other request, an empty account goes negative. |
| TransactionController.WellFormedKeepsNonNegative | MultiAccountBankAPI/Controllers/TransactionController.cs:85-89 | A request with amount ≥ 0 and type "Deposit" or "Withdrawal" satisfies `KeepsNonNegative`. |
| TransactionController.NegativeDepositOverdraws | MultiAccountBankAPI/Controllers/TransactionController.cs:85-89 | A negative "Deposit" passes the funds check and drives an empty account below zero. Nothing checks `Amount > 0`. |
| TransactionController.UnknownTypeSkipsFundsCheck | MultiAccountBankAPI/Controllers/TransactionController.cs:85-89 | A type other than the two names skips the funds check but still debits, so it can overdraw. |
| TransactionController.NegativeWithdrawalCredits | MultiAccountBankAPI/Controllers/TransactionController.cs:85-89 | A negative "Withdrawal" always passes the funds check on a non-negative balance, and it credits the account. |
| TransactionController.GetTransactions | MultiAccountBankAPI/Controllers/TransactionController.cs:126-138 | Unauthorized exactly for an empty caller id. If the caller owns the account, the result is exactly that account's transactions in log order. Otherwise it is the empty list, not NotFound. |
| BalanceController.GetBalance | MultiAccountBankAPI/Controllers/BalanceController.cs:54-67 | Unauthorized exactly for an empty caller id. NotFound exactly when the caller owns no account with that id, the same for an absent id and for another user's id. Otherwise it returns the `CurrentBalance` of the caller's account with that id. |
| BalanceController.Summarize | MultiAccountBankAPI/Controllers/BalanceController.cs:102 | The projection has one entry per account, in the same order, each with that account's name and balance. |
| BalanceController.GetSummary | MultiAccountBankAPI/Controllers/BalanceController.cs:93-106 | Unauthorized exactly for an empty caller id, and an answer otherwise. |
| BalanceController.SummaryCoversOwnAccounts | MultiAccountBankAPI/Controllers/BalanceController.cs:100-105 | Each summary entry is the (name, balance) pair of one of the caller's accounts, and each such account has an entry. There are no extras and no omissions. |
| BalanceController.SummaryProjectsAccounts | MultiAccountBankAPI/Controllers/BalanceController.cs:100-102 | The summary and the account listing both answer or both refuse. When they answer, they have equal lengths and entry i of the summary is the name and balance of account i of the listing. |
| BalanceController.BalanceMatchesHistory | MultiAccountBankAPI/Controllers/BalanceController.cs:61-66 | In a valid store, the balance the caller reads equals the deposits minus the debits of the history the caller reads for that account. |
| Isolation.ViewDependsOnlyOnOwnAccounts | MultiAccountBankAPI/Controllers/BalanceController.cs:61-64 | Take two tables in which the caller owns the same accounts in the same order. They give the caller the same listing, summary, balance and history, however the other owners' rows differ. |
| Isolation.OthersTransactionInvisible | MultiAccountBankAPI/Controllers/TransactionController.cs:133-135 | A transaction appended for another user's account does not change any history the caller reads. |
| Isolation.OthersPostingInvisible | MultiAccountBankAPI/Controllers/TransactionController.cs:82-93 | Another user's posting leaves everything the caller can read unchanged. |
| Isolation.OthersCreateInvisible | MultiAccountBankAPI/Controllers/AccountController.cs:45-50 | Another user creating an account leaves everything the caller can read unchanged. |
| Isolation.OthersDeleteInvisible | MultiAccountBankAPI/Controllers/AccountController.cs:108-118 | Another user deleting an account leaves everything the caller can read unchanged. |

The methods of `Scenarios` drive the controllers through one account's life
and check each step against the verified contracts:

- `OpenAndDeposit`: a fresh store gives the first account key 1 and balance
  0, and a deposit of 500.00 is logged under transaction key 1.
- `WithdrawalsAndFundsCheck`: from 300.00, a withdrawal of 200.00 leaves
  100.00, and a withdrawal of 400.00 is refused with the store unchanged.
- `BalanceIsOwnerOnly`: another user gets NotFound both for the account's key
  and for an absent key, while the owner reads 300.00.
- `DeleteOnlyWhenEmpty`: a delete at 300.00 is refused; after withdrawing
  the 300.00 the delete succeeds and the log keeps the account's
  transactions.
- `NegativeDepositIsPosted`: a deposit of −10.00 is accepted and leaves the
  account at −10.00.

The later scenarios start from any valid store whose accounts table is
alice's single checking account holding 300.00.

## Where the code and its own documentation disagree

The model follows the code in every case.

- The documented requests carry positive amounts (TransactionController.cs:39-55),
  but the code never checks `Amount > 0`, so there is no `InvalidAmount`
  error. A non-positive deposit is posted.
- `Type` is commented "Deposit or Withdrawal" (TransactionModel.cs:8), but
  nothing checks it. Only the exact type "Deposit" credits. Every other text
  debits, but only "Withdrawal" goes through the funds check.
- So a balance that never drops below zero, which the "insufficient funds"
  refusal (TransactionController.cs:36, 85-86) suggests, holds only for
  requests satisfying `KeepsNonNegative`:
  - `NonNegativeExactly` proves that this condition is exact;
  - `WellFormedKeepsNonNegative` shows that "amount ≥ 0 and one of the two
    type names" is enough.
- Deletion refuses only a balance `> 0`, not `!= 0`. A negative balance,
  reachable as shown above, can be deleted. In a store with non-negative
  balances the two rules coincide (the `NonNegative` ensures clause of
  `DeleteAccount`, account_controller.dfy:148-149).
- `GetTransactions` returns an empty list for an account the caller does not
  own, or that does not exist. The documented 404 for this case is never
  produced.
- Deleting an account leaves its transactions in the log. In this model the
  store assigns every account key and never reuses one, so a created account
  starts with an empty history (`CreatedAccountHasNoHistory`) and never
  inherits an orphaned one. The code does not guarantee this; see the
  client-chosen keys line under "Left out".

## Left out

- Token handling (`AuthController.cs`, `Controllers/Base/BaseController.cs`): the JWT issuance and validation are foreign library code. The caller's owner id is a plain string parameter, and the empty string stands for a null or missing id.
- `Program.cs` and the EF Core internals: dependency injection, middleware, routing and Swagger are framework wiring. The database is the `Store` class, and each `SaveChangesAsync` is one atomic update of its fields.
- Concurrency and `async`: the read-check-write race between `FindAsync` and `SaveChangesAsync` (TransactionController.cs:82-93) is not modelled. Every action is one sequential, atomic step.
- Timestamps: `DateTime.UtcNow` is an integer `now` chosen by the caller, and nothing is proved about it.
- `decimal` range: amounts are unbounded integers, so the `OverflowException` that `decimal` arithmetic throws beyond about 7.9·10^28 is not modelled.
- Client-chosen keys: the model ignores the `Id` in a request body and the store assigns the next key. The code keeps the bound body's `Id` (AccountController.cs:45-49), and the in-memory EF provider (Program.cs:28-29) stores a non-default key as given. Owner isolation of histories and ledger consistency depend on the model's assumption. Example: alice deletes her account 7 with transactions in the log; bob creates an account with body `{"id": 7, ...}`. Bob now owns account 7, and `GetTransactions` (TransactionController.cs:133-135) shows him alice's orphaned transactions. If account 7 was deleted at a negative balance, which AccountController.cs:115 allows, bob's balance of 0 also disagrees with that history. Explicit keys, and any key clash they cause, are not modelled.
- A null body for `CreateTransaction`: the controller dereferences it without a check. The model takes a request value. A null `Type` behaves like any text other than "Deposit", so it is covered by the text case.
- Response texts, status-code numbers and route attributes are HTTP layer detail.
- Retry safety: there are no idempotency keys, and the model, like the code, posts a repeated request twice.
- CreateTransaction: promises non-negative balances only for requests satisfying `KeepsNonNegative`, because the code checks neither the amount's sign nor the type's text.
