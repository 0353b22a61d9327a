/** Clients of the controllers that walk one account through its life: the
    deposit, withdrawal and deletion rules, the owner isolation of the
    balance query, and the unchecked negative deposit. Amounts are in cents.
    The later steps start from a store in which alice's checking account
    (key 1) holds 300.00, however its log got there. */
module Scenarios {
  import opened Models
  import opened Ledger
  import opened Data
  import opened AccountController
  import opened TransactionController
  import opened BalanceController

  /** A fresh store gives the first account key 1 and balance 0; a deposit
      adds to it and is logged under transaction key 1. */
  method OpenAndDeposit() {
    var db := new Store();
    var created := CreateAccount(db, "alice", Some(BankAccount(0, "", "Checking", 0, 0)), 100);
    assert created == Ok(BankAccount(1, "alice", "Checking", 0, 100));
    assert db.accounts == [BankAccount(1, "alice", "Checking", 0, 100)];

    assert db.accounts[0].Id == 1 && db.accounts[0].UserId == "alice";
    assert Owns(db.accounts, 1, "alice") && FindAccount(db.accounts, 1) == Some(0);
    var deposit := CreateTransaction(db, "alice", TransactionModel(0, 1, 50000, DepositType, 0), 101);
    assert deposit == Ok(TransactionModel(1, 1, 50000, DepositType, 101));
    assert db.accounts == [BankAccount(1, "alice", "Checking", 50000, 100)];
    assert |db.transactions| == 1;
  }

  /** A withdrawal subtracts; one larger than the balance is refused and
      leaves the store as it was. */
  method WithdrawalsAndFundsCheck(db: Store)
    requires db.Valid() && db.accounts == [BankAccount(1, "alice", "Checking", 30000, 100)]
    modifies db
  {
    assert db.accounts[0].Id == 1 && db.accounts[0].UserId == "alice";
    assert Owns(db.accounts, 1, "alice") && FindAccount(db.accounts, 1) == Some(0);
    var withdrawal := CreateTransaction(db, "alice", TransactionModel(0, 1, 20000, WithdrawalType, 0), 102);
    assert withdrawal.Ok?;
    assert db.accounts == [BankAccount(1, "alice", "Checking", 10000, 100)];

    ghost var before := db.transactions;
    assert db.accounts[0].Id == 1 && db.accounts[0].UserId == "alice";
    assert Owns(db.accounts, 1, "alice") && FindAccount(db.accounts, 1) == Some(0);
    var tooMuch := CreateTransaction(db, "alice", TransactionModel(0, 1, 40000, WithdrawalType, 0), 103);
    assert tooMuch == Err(InsufficientFunds);
    assert db.accounts == [BankAccount(1, "alice", "Checking", 10000, 100)];
    assert db.transactions == before;
  }

  /** Another user cannot see the account: its key reads like an absent key,
      while its owner reads the balance. */
  method BalanceIsOwnerOnly(db: Store)
    requires db.Valid() && db.accounts == [BankAccount(1, "alice", "Checking", 30000, 100)]
  {
    assert GetBalance(db.accounts, "bob", 1) == Err(NotFound);
    assert GetBalance(db.accounts, "bob", 2) == Err(NotFound);
    assert GetBalance(db.accounts, "alice", 1) == Ok(30000);
    assert GetBalance(db.accounts, Anonymous, 1) == Err(Unauthorized);
  }

  /** An account with money on it cannot be deleted; once emptied it can,
      and its transactions stay in the log. */
  method DeleteOnlyWhenEmpty(db: Store)
    requires db.Valid() && db.accounts == [BankAccount(1, "alice", "Checking", 30000, 100)]
    modifies db
  {
    assert db.accounts[0].Id == 1 && db.accounts[0].UserId == "alice";
    assert Owns(db.accounts, 1, "alice") && FindOwned(db.accounts, 1, "alice") == Some(0);
    var early := DeleteAccount(db, "alice", 1);
    assert early == Err(BalanceNotZero);

    assert db.accounts[0].Id == 1;
    assert FindAccount(db.accounts, 1) == Some(0);
    var rest := CreateTransaction(db, "alice", TransactionModel(0, 1, 30000, WithdrawalType, 0), 104);
    assert rest.Ok?;
    assert db.accounts == [BankAccount(1, "alice", "Checking", 0, 100)];
    ghost var log := db.transactions;

    assert db.accounts[0].Id == 1 && db.accounts[0].UserId == "alice";
    assert Owns(db.accounts, 1, "alice") && FindOwned(db.accounts, 1, "alice") == Some(0);
    var deleted := DeleteAccount(db, "alice", 1);
    assert deleted.Ok?;
    assert db.accounts == [] && db.transactions == log;
  }

  /** Nothing rejects a negative deposit: it is posted and overdraws. */
  method NegativeDepositIsPosted() {
    var db := new Store();
    var created := CreateAccount(db, "carol", Some(BankAccount(0, "", "Savings", 0, 0)), 100);
    assert db.accounts == [BankAccount(1, "carol", "Savings", 0, 100)];
    assert db.accounts[0].Id == 1 && db.accounts[0].UserId == "carol";
    assert Owns(db.accounts, 1, "carol") && FindAccount(db.accounts, 1) == Some(0);
    var deposit := CreateTransaction(db, "carol", TransactionModel(0, 1, -1000, DepositType, 0), 101);
    assert deposit.Ok?;
    assert db.accounts == [BankAccount(1, "carol", "Savings", -1000, 100)];
  }
}
