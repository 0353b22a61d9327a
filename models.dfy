/** The entities of the ledger and the result type that stands in for the
    HTTP responses of the controllers.

    `decimal` amounts are modelled as `int` (exact minor units) and the
    `DateTime` stamps as `int` ticks read from a clock the caller supplies. */
module Models {

  /** A bank account as stored (Models/BankAccount.cs). */
  datatype BankAccount = BankAccount(
    Id: int,
    UserId: string,
    AccountName: string,
    CurrentBalance: int,
    DateCreated: int)

  /** A posted transaction as stored (Models/TransactionModel.cs). `Type` is
      free text: only "Deposit" and "Withdrawal" are meant, nothing checks it. */
  datatype TransactionModel = TransactionModel(
    Id: int,
    AccountId: int,
    Amount: int,
    Type: string,
    TransactionDate: int)

  /** One entry of the balance summary: the anonymous `{ AccountName, CurrentBalance }`. */
  datatype AccountSummary = AccountSummary(AccountName: string, CurrentBalance: int)

  const DepositType: string := "Deposit"
  const WithdrawalType: string := "Withdrawal"

  /** The caller id that stands for "no valid token" (`string.IsNullOrEmpty`). */
  const Anonymous: string := ""

  /** The failure responses of the controllers:
      Unauthorized is 401, NotFound is 404, and the other three are the 400
      responses (null body, insufficient funds, balance not zero). */
  datatype Error = Unauthorized | InvalidBody | NotFound | InsufficientFunds | BalanceNotZero

  datatype Result<T> = Ok(value: T) | Err(error: Error)

  datatype Option<T> = None | Some(value: T)
}
