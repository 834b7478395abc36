/** Properties relating several service calls: money accounting, round
    trips, non-negativity, and the scenarios of the service's unit tests. */
module ServiceProperties {
  import opened Wrappers
  import opened Errors
  import opened Accounts
  import opened Repository
  import opened Ledger
  import opened Service

  // ---------------------------------------------------------------- totals

  /** A successful deposit raises the sum of all balances by the amount. */
  lemma DepositAddsToTotal(s: Store, number: string, amount: Money)
    requires Valid(s)
    ensures Deposit(s, number, amount).result.Ok? ==>
              Total(Deposit(s, number, amount).store.accounts) == Total(s.accounts) + amount
  {
    var r := Deposit(s, number, amount);
    if r.result.Ok? {
      TotalUpdate(s.accounts, number, r.result.value);
    }
  }

  /** A successful withdrawal lowers the sum of all balances by the amount. */
  lemma WithdrawSubtractsFromTotal(s: Store, number: string, amount: Money)
    requires Valid(s)
    ensures Withdraw(s, number, amount).result.Ok? ==>
              Total(Withdraw(s, number, amount).store.accounts) == Total(s.accounts) - amount
  {
    var r := Withdraw(s, number, amount);
    if r.result.Ok? {
      TotalUpdate(s.accounts, number, r.result.value);
    }
  }

  /** A successful registration raises the sum by the new account's balance. */
  lemma RegisterAddsToTotal(s: Store, a: Account)
    requires Valid(s)
    ensures Register(s, a).result.Ok? ==>
              Total(Register(s, a).store.accounts) == Total(s.accounts) + a.balance
  {
    var r := Register(s, a);
    if r.result.Ok? {
      TotalInsert(s.accounts, a.number, r.result.value);
    }
  }

  /** A successful transfer conserves money: the sum of all balances is the
      same before and after, whether or not source and target coincide. */
  lemma TransferConservesTotal(s: Store, source: string, target: string, amount: Money)
    requires Valid(s)
    ensures Transfer(s, source, target, amount).result.Ok? ==>
              Total(Transfer(s, source, target, amount).store.accounts) == Total(s.accounts)
  {
    var r := Transfer(s, source, target, amount);
    if r.result.Ok? {
      var w := Withdraw(s, source, amount);
      WithdrawSubtractsFromTotal(s, source, amount);
      DepositAddsToTotal(w.store, target, amount);
      assert r.store == Deposit(w.store, target, amount).store;
    }
  }

  /** The transfer has no rollback: when the source can pay but the target
      does not exist, the call fails and the amount has left the store. */
  lemma TransferToMissingTargetLosesAmount(s: Store, source: string, target: string, amount: Money)
    requires Valid(s)
    requires amount > 0.0 && source in s.accounts && amount <= s.accounts[source].balance
    requires target !in s.accounts
    ensures Transfer(s, source, target, amount).result == Err(AccountNotFound)
    ensures Total(Transfer(s, source, target, amount).store.accounts) == Total(s.accounts) - amount
  {
    WithdrawSubtractsFromTotal(s, source, amount);
    assert Transfer(s, source, target, amount).store == Withdraw(s, source, amount).store;
  }

  // ----------------------------------------------------------- round trips

  /** Depositing an amount and then withdrawing the same amount from the same
      account gives back exactly the original store. The withdrawal succeeds
      exactly when the account's original balance was not negative (an
      opening balance is never checked, so a negative one is possible). */
  lemma DepositThenWithdrawRestores(s: Store, number: string, amount: Money)
    requires Valid(s)
    requires Deposit(s, number, amount).result.Ok?
    ensures (Withdraw(Deposit(s, number, amount).store, number, amount).result.Ok?
             <==> s.accounts[number].balance >= 0.0)
    ensures Withdraw(Deposit(s, number, amount).store, number, amount).result.Ok? ==>
              Withdraw(Deposit(s, number, amount).store, number, amount).store == s
  {
  }

  /** Withdrawing an amount and then depositing it back into the same account
      gives back exactly the original store. */
  lemma WithdrawThenDepositRestores(s: Store, number: string, amount: Money)
    requires Valid(s)
    requires Withdraw(s, number, amount).result.Ok?
    ensures Deposit(Withdraw(s, number, amount).store, number, amount).result.Ok?
    ensures Deposit(Withdraw(s, number, amount).store, number, amount).store == s
  {
  }

  /** A registered account can be found again, by number and by its new id,
      exactly as it was saved. */
  lemma RegisterThenFind(s: Store, a: Account)
    requires Valid(s)
    requires Register(s, a).result.Ok?
    ensures GetByNumber(Register(s, a).store, a.number) == Register(s, a).result
    ensures GetById(Register(s, a).store, s.nextId) == Register(s, a).result
  {
  }

  /** Registering the same account number twice: the second call fails with
      DuplicateAccount and the store keeps only the first registration. */
  lemma RegisterTwiceRejected(s: Store, first: Account, second: Account)
    requires Valid(s)
    requires Register(s, first).result.Ok?
    requires second.number == first.number
    ensures Register(Register(s, first).store, second).result == Err(DuplicateAccount)
    ensures Register(Register(s, first).store, second).store == Register(s, first).store
    ensures Register(Register(s, first).store, second).store.accounts[first.number]
              == first.(id := s.nextId)
  {
  }

  // ------------------------------------------------------- non-negativity

  /** Deposits never introduce a negative balance. */
  lemma DepositPreservesNonNegative(s: Store, number: string, amount: Money)
    requires Valid(s) && NonNegative(s)
    ensures NonNegative(Deposit(s, number, amount).store)
  {
  }

  /** Withdrawals never introduce a negative balance. */
  lemma WithdrawPreservesNonNegative(s: Store, number: string, amount: Money)
    requires Valid(s) && NonNegative(s)
    ensures NonNegative(Withdraw(s, number, amount).store)
  {
  }

  /** Transfers never introduce a negative balance, whatever their outcome. */
  lemma TransferPreservesNonNegative(s: Store, source: string, target: string, amount: Money)
    requires Valid(s) && NonNegative(s)
    ensures NonNegative(Transfer(s, source, target, amount).store)
  {
  }

  /** Registration does not check the opening balance: starting from a store
      without negative balances, it keeps that property exactly when the
      call fails or the new account's balance is not negative. */
  lemma RegisterNonNegativeIff(s: Store, a: Account)
    requires Valid(s) && NonNegative(s)
    ensures NonNegative(Register(s, a).store) <==>
              Register(s, a).result.Err? || a.balance >= 0.0
  {
    var r := Register(s, a);
    if r.result.Ok? {
      assert r.store.accounts[a.number].balance == a.balance;
    }
  }

  /** Withdrawing the whole balance is allowed and leaves exactly zero. */
  lemma WithdrawWholeBalance(s: Store, number: string)
    requires Valid(s)
    requires number in s.accounts && s.accounts[number].balance > 0.0
    ensures Withdraw(s, number, s.accounts[number].balance).result.Ok?
    ensures Withdraw(s, number, s.accounts[number].balance).store.accounts[number].balance == 0.0
  {
  }

  // ------------------------------------------------------ test scenarios

  /** Two registered accounts: 12345 (João, 100.00) then 67890 (Maria, 50.00). */
  function TwoAccounts(): (s: Store)
    ensures Valid(s)
    ensures "12345" in s.accounts && s.accounts["12345"].balance == 100.00
    ensures "67890" in s.accounts && s.accounts["67890"].balance == 50.00
  {
    var first := Register(Empty(), Account(0, "João", "12345", "001", 100.00));
    var second := Register(first.store, Account(0, "Maria", "67890", "001", 50.00));
    second.store
  }

  /** 100.00 plus a deposit of 50.00 is 150.00. */
  lemma DepositScenario()
    ensures Deposit(TwoAccounts(), "12345", 50.00).result.Ok?
    ensures Deposit(TwoAccounts(), "12345", 50.00).result.value.balance == 150.00
  {
  }

  /** 100.00 minus a withdrawal of 30.00 is 70.00. */
  lemma WithdrawScenario()
    ensures Withdraw(TwoAccounts(), "12345", 30.00).result.Ok?
    ensures Withdraw(TwoAccounts(), "12345", 30.00).result.value.balance == 70.00
  {
  }

  /** Withdrawing more than the balance fails with InsufficientBalance and
      saves nothing: 100.00 from the 50.00 account, and 150.00 from the
      100.00 account, both leave the balances as they were. */
  lemma OverWithdrawScenario()
    ensures Withdraw(TwoAccounts(), "67890", 100.00).result == Err(InsufficientBalance)
    ensures Withdraw(TwoAccounts(), "67890", 100.00).store == TwoAccounts()
    ensures Withdraw(TwoAccounts(), "12345", 150.00).result == Err(InsufficientBalance)
    ensures Withdraw(TwoAccounts(), "12345", 150.00).store.accounts["12345"].balance == 100.00
  {
  }

  /** A lookup by an id or an account number that is not stored fails with
      AccountNotFound, negative ids included. */
  lemma LookupMissingScenario()
    ensures GetById(TwoAccounts(), 999) == Err(AccountNotFound)
    ensures GetById(TwoAccounts(), -1) == Err(AccountNotFound)
    ensures GetByNumber(TwoAccounts(), "99999") == Err(AccountNotFound)
  {
  }

  /** Transferring 30.00 from the 100.00 account to the 50.00 account leaves
      70.00 and 80.00. */
  lemma TransferScenario()
    ensures Transfer(TwoAccounts(), "12345", "67890", 30.00).result.Ok?
    ensures Transfer(TwoAccounts(), "12345", "67890", 30.00).store.accounts["12345"].balance == 70.00
    ensures Transfer(TwoAccounts(), "12345", "67890", 30.00).store.accounts["67890"].balance == 80.00
  {
  }
}
