# Mini bank account core in Dafny

This project models the balance logic of a small banking service. Customer
accounts (`Cliente`) are stored by a repository (`ClienteRepository`),
checked by three stateless validations (`ClienteValidation`), and changed
by a service (`ClienteService`). The service registers accounts, lists and
looks them up, and deposits, withdraws and transfers money.

The repository is an immutable value `Store` holding three things: a map
from account number to account, an index from surrogate id to account number,
and the next id to hand out. `Repository.Valid` ties these together.
Each service operation is a pure function of the store. The operations that
can change the store (register, deposit, withdraw, transfer) return an
`Outcome`: the store after the call, plus either the returned value or the
error the Java code would throw. The lookups by id and by number return only a
`Result`, and the listing returns a sequence, so none of them can change the
store. Amounts and balances are exact reals. This matches
`BigDecimal` arithmetic compared with `compareTo`.

Files:
- `wrappers.dfy`: `Option` and `Result`.
- `errors.dfy`: the four error kinds, one per exception class (`ContaException`,
  `ClienteNotFoundException`, `ValorInvalidoException`, `SaldoInsuficienteException`).
- `accounts.dfy`: the `Account` entity and `Money`.
- `validation.dfy`: the three checks.
- `repository.dfy`: the store, its invariant, and the finders and saves the service uses.
- `ledger.dfy`: the sum of all balances and the non-negativity predicate, with the lemmas about the sum.
- `service.dfy`: the service operations.
- `properties.dfy`: lemmas relating several calls, plus the unit-test scenarios.

Transfer atomicity is modelled as the code is written. `transferir` calls
`sacar` on the source and then `depositar` on the target, and it has no
rollback of its own. The class-level `@Transactional` annotation would roll
back the database on the exception, but that is framework behaviour this
model does not include. So in `Service.Transfer`, a missing target is
reported only after the source has been debited, and the debit stays in the
returned store (`ServiceProperties.TransferToMissingTargetLosesAmount`).
A transfer from an account to itself is not rejected. When it succeeds, it
leaves the store exactly as it was. The controller's API documentation
mentions rejecting equal accounts, but the code does not do this.

## Model

| member | source | states |
|---|---|---|
| Validation.EnsurePositiveAmount | src/main/java/com/example/mini_bank_api/validation/ClienteValidation.java:14-18 | passes exactly when the amount is strictly positive; zero and negative amounts are rejected with InvalidAmount and no other error |
| Validation.EnsureSufficientBalance | src/main/java/com/example/mini_bank_api/validation/ClienteValidation.java:20-24 | passes exactly when amount <= balance (equality is accepted); otherwise rejects with InsufficientBalance |
| Validation.EnsureAccountNumberUnique | src/main/java/com/example/mini_bank_api/validation/ClienteValidation.java:26-30 | passes exactly when the flag is false; otherwise rejects with DuplicateAccount |
| Repository.ExistsByNumber | src/main/java/com/example/mini_bank_api/repository/ClienteRepository.java:12 | true exactly when some stored account carries the number |
| Repository.FindByNumber | src/main/java/com/example/mini_bank_api/repository/ClienteRepository.java:11 | finds an account exactly when the number is stored, and returns the account filed under it |
| Repository.FindById | src/main/java/com/example/mini_bank_api/repository/ClienteRepository.java:10 | for any id, negative ones included, finds an account exactly when some stored account has that id, and returns that stored account |
| Repository.Insert | src/main/java/com/example/mini_bank_api/repository/ClienteRepository.java:10 | saving a new account gives it an id not used before, adds it under its number, and keeps the store invariant |
| Repository.Update | src/main/java/com/example/mini_bank_api/repository/ClienteRepository.java:10 | saving a loaded account overwrites only that account's entry and keeps the store invariant |
| Repository.FindAllFrom | src/main/java/com/example/mini_bank_api/repository/ClienteRepository.java:10 | lists every stored account with id >= lo, nothing else, in strictly ascending id order |
| Service.Register | src/main/java/com/example/mini_bank_api/service/ClienteService.java:25-31 | fails with DuplicateAccount exactly when the number is taken, leaving the store unchanged; otherwise adds the account under a fresh id and returns it |
| Service.ListAll | src/main/java/com/example/mini_bank_api/service/ClienteService.java:34-37 | returns exactly the stored accounts, with no duplicates (strictly ascending ids), and does not change the store |
| Service.GetById | src/main/java/com/example/mini_bank_api/service/ClienteService.java:40-44 | for any id, negative ones included, returns the stored account with that id when one exists, otherwise AccountNotFound; read-only |
| Service.GetByNumber | src/main/java/com/example/mini_bank_api/service/ClienteService.java:47-51 | returns the stored account with that number when one exists, otherwise AccountNotFound; read-only |
| Service.Deposit | src/main/java/com/example/mini_bank_api/service/ClienteService.java:54-61 | a non-positive amount fails with InvalidAmount before any lookup; a missing account fails with AccountNotFound; both leave the store unchanged; success exactly otherwise, with new balance = old + amount, every other account unchanged, and the id index and id counter kept |
| Service.Withdraw | src/main/java/com/example/mini_bank_api/service/ClienteService.java:64-73 | InvalidAmount before lookup, then AccountNotFound, then InsufficientBalance when balance < amount, each with the store unchanged; success exactly when 0 < amount <= balance, with new balance = old - amount >= 0, every other account unchanged, and the id index and id counter kept |
| Service.Transfer | src/main/java/com/example/mini_bank_api/service/ClienteService.java:76-84 | InvalidAmount, a missing source, or an insufficient source fail with the store unchanged; success exactly when both accounts exist and the source covers the amount, debiting the source and crediting the target; a missing target fails with AccountNotFound after the source is debited; a successful self-transfer changes nothing; no outcome touches the id index or the id counter |
| ServiceProperties.DepositAddsToTotal | src/main/java/com/example/mini_bank_api/service/ClienteService.java:54-61 | a successful deposit raises the sum of all balances by exactly the amount |
| ServiceProperties.WithdrawSubtractsFromTotal | src/main/java/com/example/mini_bank_api/service/ClienteService.java:64-73 | a successful withdrawal lowers the sum of all balances by exactly the amount |
| ServiceProperties.RegisterAddsToTotal | src/main/java/com/example/mini_bank_api/service/ClienteService.java:25-31 | a successful registration raises the sum of all balances by the opening balance |
| ServiceProperties.TransferConservesTotal | src/main/java/com/example/mini_bank_api/service/ClienteService.java:76-84 | a successful transfer leaves the sum of all balances unchanged |
| ServiceProperties.TransferToMissingTargetLosesAmount | src/main/java/com/example/mini_bank_api/service/ClienteService.java:79-83 | with no rollback, a transfer to a missing target fails with AccountNotFound while the sum of balances drops by the amount |
| ServiceProperties.DepositThenWithdrawRestores | src/test/java/com/example/mini_bank_api/service/ClienteServiceTest.java:123-163 | after a deposit, withdrawing the same amount succeeds exactly when the original balance was non-negative, and then restores the original store |
| ServiceProperties.WithdrawThenDepositRestores | src/main/java/com/example/mini_bank_api/service/ClienteService.java:54-73 | a successful withdrawal followed by a deposit of the same amount restores the original store |
| ServiceProperties.RegisterThenFind | src/main/java/com/example/mini_bank_api/service/ClienteService.java:25-51 | a registered account is found again, by number and by its new id, exactly as saved |
| ServiceProperties.RegisterTwiceRejected | src/test/java/com/example/mini_bank_api/service/ClienteServiceTest.java:193-211 | a second registration of the same number fails with DuplicateAccount and the store keeps only the first account |
| ServiceProperties.DepositPreservesNonNegative | src/main/java/com/example/mini_bank_api/service/ClienteService.java:54-61 | a deposit never makes any balance negative |
| ServiceProperties.WithdrawPreservesNonNegative | src/main/java/com/example/mini_bank_api/service/ClienteService.java:64-73 | a withdrawal never makes any balance negative |
| ServiceProperties.TransferPreservesNonNegative | src/main/java/com/example/mini_bank_api/service/ClienteService.java:76-84 | a transfer, whatever its outcome, never makes any balance negative |
| ServiceProperties.RegisterNonNegativeIff | src/main/java/com/example/mini_bank_api/service/ClienteService.java:25-31 | registration keeps all balances non-negative exactly when it fails or the opening balance is non-negative; the opening balance is never validated |
| ServiceProperties.WithdrawWholeBalance | src/main/java/com/example/mini_bank_api/validation/ClienteValidation.java:20-24 | withdrawing the entire positive balance succeeds and leaves exactly zero |
| ServiceProperties.TwoAccounts | src/test/java/com/example/mini_bank_api/service/ClienteServiceTest.java:168-169 | registering 12345 with 100.00 and 67890 with 50.00 gives a valid store with those balances |
| ServiceProperties.DepositScenario | src/test/java/com/example/mini_bank_api/service/ClienteServiceTest.java:123-141 | 100.00 plus a deposit of 50.00 gives 150.00 |
| ServiceProperties.WithdrawScenario | src/test/java/com/example/mini_bank_api/service/ClienteServiceTest.java:144-163 | 100.00 minus 30.00 gives 70.00 |
| ServiceProperties.OverWithdrawScenario | src/test/java/com/example/mini_bank_api/service/ClienteServiceTest.java:269-289 | withdrawing 100.00 from 50.00 fails with InsufficientBalance and saves nothing; so does withdrawing 150.00 from 100.00, which leaves 100.00 |
| ServiceProperties.LookupMissingScenario | src/test/java/com/example/mini_bank_api/service/ClienteServiceTest.java:213-241 | lookups by an unknown id (999, and the negative id -1) or an unknown number (99999) fail with AccountNotFound |
| ServiceProperties.TransferScenario | src/test/java/com/example/mini_bank_api/service/ClienteServiceTest.java:166-189 | transferring 30.00 from 100.00 to 50.00 leaves 70.00 and 80.00 |

## Left out

- HTTP controller, exception-to-status mapping and API documentation configuration: these are transport and framework code, not balance logic.
- `@Transactional` rollback and `readOnly` semantics: this is framework behaviour. Transfer is modelled without rollback, as stated above.
- Concurrency: simultaneous requests and lost updates are not modelled. Every call is one step on an immutable store.
- JPA persistence: the store is an abstract map. Id generation is a counter, and the ids it produces are all that matters.
- The `Cliente` entity source is not part of this model. Its fields are taken from how the service and tests use them: id, owner, account number, branch and balance.
- Service.Register: replaces any id the incoming account carries with the store's fresh id. JPA `save` on a detached entity that already has an id would merge instead, and that depends on the entity mapping, which is not part of this model.
- BigDecimal scale: `equals` compares scale (100.0 vs 100.00), but the service only uses `compareTo`, `add` and `subtract`. Scale is therefore not modelled, and balances are exact reals.
- Null amounts, null balances and a null id are not modelled. In Java these raise a NullPointerException or IllegalArgumentException rather than a domain error. Negative ids are modelled, and they find nothing.
- A null account number cannot be expressed as a Dafny string, so it is not modelled. The service passes the number to the repository unchanged, where a null finds nothing: a lookup, deposit or withdrawal then ends in the not-found error, and a first registration with a null number passes the uniqueness check.
- Service.ListAll: the listing returns the accounts in ascending id order. This is the model's choice: `findAll` issues no ordering, so the service itself promises only that each stored account appears once.
- Mockito interaction counts in the tests are mock bookkeeping, not behaviour. The positivity check is still run three times in a transfer, as in the source: once at entry, and once each inside the withdrawal and the deposit. The second and third runs cannot fail after the first one passes.
