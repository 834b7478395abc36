/** The three stateless checks of ClienteValidation. Each either passes or
    rejects with its own error kind; none of them reads or changes a store. */
module Validation {
  import opened Errors
  import opened Accounts

  /** Outcome of one check: the Java method returns normally or throws. */
  datatype Check = Pass | Reject(error: ErrorKind)

  /** Accepts exactly the strictly positive amounts; zero and negative
      amounts are rejected as invalid. */
  function EnsurePositiveAmount(amount: Money): (c: Check)
    ensures c == Pass <==> amount > 0.0
    ensures c != Pass ==> c == Reject(InvalidAmount)
  {
    if amount <= 0.0 then Reject(InvalidAmount) else Pass
  }

  /** Accepts exactly when the balance covers the amount; a balance equal to
      the amount is enough. */
  function EnsureSufficientBalance(balance: Money, amount: Money): (c: Check)
    ensures c == Pass <==> amount <= balance
    ensures c != Pass ==> c == Reject(InsufficientBalance)
  {
    if balance < amount then Reject(InsufficientBalance) else Pass
  }

  /** Takes the already computed answer to "is this account number taken?"
      and rejects exactly when it is. */
  function EnsureAccountNumberUnique(alreadyExists: bool): (c: Check)
    ensures c == Pass <==> !alreadyExists
    ensures c != Pass ==> c == Reject(DuplicateAccount)
  {
    if alreadyExists then Reject(DuplicateAccount) else Pass
  }
}
