/** The failure conditions the service surfaces to its callers. Each kind
    stands for one exception class of the bank service. */
module Errors {

  datatype ErrorKind =
    /** ContaException: registration with an account number already in use. */
    | DuplicateAccount
    /** ClienteNotFoundException: no account with the requested id or number. */
    | AccountNotFound
    /** ValorInvalidoException: an amount that is zero or negative. */
    | InvalidAmount
    /** SaldoInsuficienteException: a withdrawal larger than the balance. */
    | InsufficientBalance
}
