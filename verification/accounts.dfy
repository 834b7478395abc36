/** The one entity of the bank: a customer account (Cliente). */
module Accounts {

  /** Monetary values. The service uses arbitrary-precision decimals compared
      with compareTo, so exact reals stand in for them. */
  type Money = real

  /** A customer account. `id` is the surrogate key the store assigns,
      `number` the externally visible account number (unique across the
      store), `branch` the agency code, `balance` the current balance. */
  datatype Account = Account(
    id: nat,
    owner: string,
    number: string,
    branch: string,
    balance: Money
  )
}
