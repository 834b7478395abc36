/** ClienteService: registration, lookups and the three balance operations,
    each a pure function from a store to the store it leaves behind and the
    value or error the call returns. */
module Service {
  import opened Wrappers
  import opened Errors
  import opened Accounts
  import opened Validation
  import opened Repository

  /** What a service call leaves: the store afterwards, and either the
      returned value or the error the call failed with. */
  datatype Outcome<+T> = Outcome(store: Store, result: Result<T, ErrorKind>)

  /** `a` with `amount` added to its balance. */
  function Credited(a: Account, amount: Money): Account {
    a.(balance := a.balance + amount)
  }

  /** `a` with `amount` taken from its balance. */
  function Debited(a: Account, amount: Money): Account {
    a.(balance := a.balance - amount)
  }

  /** cadastrarCliente: refuses an account number already present; otherwise
      saves the account under a fresh id and returns the saved form. */
  function Register(s: Store, a: Account): (r: Outcome<Account>)
    requires Valid(s)
    ensures Valid(r.store)
    ensures r.result.Err? <==> a.number in s.accounts
    ensures r.result.Err? ==> r.result.error == DuplicateAccount && r.store == s
    ensures r.result.Ok? ==>
              && r.result.value == a.(id := s.nextId)
              && r.result.value.id !in s.ids
              && r.store.accounts == s.accounts[a.number := r.result.value]
  {
    match EnsureAccountNumberUnique(ExistsByNumber(s, a.number))
    case Reject(e) => Outcome(s, Err(e))
    case Pass =>
      var (s', saved) := Insert(s, a);
      Outcome(s', Ok(saved))
  }

  /** buscarTodos: every stored account exactly once, in ascending id order. */
  function ListAll(s: Store): (r: seq<Account>)
    requires Valid(s)
    ensures forall a :: a in r <==> a in s.accounts.Values
    ensures forall j, k :: 0 <= j < k < |r| ==> r[j].id < r[k].id
  {
    var r := FindAllFrom(s, 0);
    assert forall a :: a in s.accounts.Values ==> a in r by {
      forall a | a in s.accounts.Values ensures a in r {
        var n :| n in s.accounts && s.accounts[n] == a;
      }
    }
    r
  }

  /** buscarPorId: the account with surrogate id `id`, or AccountNotFound. */
  function GetById(s: Store, id: int): (r: Result<Account, ErrorKind>)
    requires Valid(s)
    ensures r.Ok? <==> exists n :: n in s.accounts && s.accounts[n].id == id
    ensures r.Ok? ==> r.value.id == id && r.value in s.accounts.Values
    ensures r.Err? ==> r.error == AccountNotFound
  {
    match FindById(s, id)
    case Some(a) => Ok(a)
    case None => Err(AccountNotFound)
  }

  /** buscarPorNumeroConta: the account numbered `number`, or AccountNotFound. */
  function GetByNumber(s: Store, number: string): (r: Result<Account, ErrorKind>)
    requires Valid(s)
    ensures r.Ok? <==> number in s.accounts
    ensures r.Ok? ==> r.value == s.accounts[number] && r.value.number == number
    ensures r.Err? ==> r.error == AccountNotFound
  {
    match FindByNumber(s, number)
    case Some(a) => Ok(a)
    case None => Err(AccountNotFound)
  }

  /** depositar: validates the amount before any lookup, then adds it to the
      account's balance and saves; fails without touching the store when the
      amount is not positive or the account does not exist. */
  function Deposit(s: Store, number: string, amount: Money): (r: Outcome<Account>)
    requires Valid(s)
    ensures Valid(r.store)
    ensures amount <= 0.0 ==> r == Outcome(s, Err(InvalidAmount))
    ensures amount > 0.0 && number !in s.accounts ==> r == Outcome(s, Err(AccountNotFound))
    ensures r.result.Ok? <==> amount > 0.0 && number in s.accounts
    ensures r.result.Ok? ==>
              && r.result.value.balance == s.accounts[number].balance + amount
              && r.result.value == Credited(s.accounts[number], amount)
              && r.store.accounts == s.accounts[number := r.result.value]
              && r.store.ids == s.ids
              && r.store.nextId == s.nextId
  {
    match EnsurePositiveAmount(amount)
    case Reject(e) => Outcome(s, Err(e))
    case Pass =>
      match GetByNumber(s, number)
      case Err(e) => Outcome(s, Err(e))
      case Ok(a) =>
        var updated := Credited(a, amount);
        Outcome(Update(s, updated), Ok(updated))
  }

  /** sacar: validates the amount before any lookup, looks the account up,
      checks the balance covers the amount, then subtracts it and saves. Every
      failure leaves the store as it was. */
  function Withdraw(s: Store, number: string, amount: Money): (r: Outcome<Account>)
    requires Valid(s)
    ensures Valid(r.store)
    ensures amount <= 0.0 ==> r == Outcome(s, Err(InvalidAmount))
    ensures amount > 0.0 && number !in s.accounts ==> r == Outcome(s, Err(AccountNotFound))
    ensures amount > 0.0 && number in s.accounts && s.accounts[number].balance < amount ==>
              r == Outcome(s, Err(InsufficientBalance))
    ensures r.result.Ok? <==>
              amount > 0.0 && number in s.accounts && amount <= s.accounts[number].balance
    ensures r.result.Ok? ==>
              && r.result.value.balance == s.accounts[number].balance - amount
              && r.result.value.balance >= 0.0
              && r.result.value == Debited(s.accounts[number], amount)
              && r.store.accounts == s.accounts[number := r.result.value]
              && r.store.ids == s.ids
              && r.store.nextId == s.nextId
  {
    match EnsurePositiveAmount(amount)
    case Reject(e) => Outcome(s, Err(e))
    case Pass =>
      match GetByNumber(s, number)
      case Err(e) => Outcome(s, Err(e))
      case Ok(a) =>
        match EnsureSufficientBalance(a.balance, amount)
        case Reject(e) => Outcome(s, Err(e))
        case Pass =>
          var updated := Debited(a, amount);
          Outcome(Update(s, updated), Ok(updated))
  }

  /** transferir: validates the amount, withdraws it from `source`, then
      deposits it into `target`, exactly in that order and with no rollback.
      A failure before the withdrawal leaves the store unchanged; a missing
      `target` is only found after the source has been debited, and that
      debit stays in the returned store. Nothing forbids `source == target`. */
  function Transfer(s: Store, source: string, target: string, amount: Money): (r: Outcome<()>)
    requires Valid(s)
    ensures Valid(r.store)
    ensures amount <= 0.0 ==> r == Outcome(s, Err(InvalidAmount))
    ensures amount > 0.0 && source !in s.accounts ==> r == Outcome(s, Err(AccountNotFound))
    ensures amount > 0.0 && source in s.accounts && s.accounts[source].balance < amount ==>
              r == Outcome(s, Err(InsufficientBalance))
    ensures r.result.Ok? <==>
              && amount > 0.0
              && source in s.accounts && target in s.accounts
              && amount <= s.accounts[source].balance
    ensures amount > 0.0 && source in s.accounts && amount <= s.accounts[source].balance
            && target !in s.accounts ==>
              && r.result == Err(AccountNotFound)
              && r.store.accounts == s.accounts[source := Debited(s.accounts[source], amount)]
              && r.store.ids == s.ids && r.store.nextId == s.nextId
    ensures r.result.Ok? ==> r.store.ids == s.ids && r.store.nextId == s.nextId
    ensures r.result.Ok? && source != target ==>
              r.store.accounts == s.accounts[source := Debited(s.accounts[source], amount)]
                                            [target := Credited(s.accounts[target], amount)]
    ensures r.result.Ok? && source == target ==> r.store == s
  {
    match EnsurePositiveAmount(amount)
    case Reject(e) => Outcome(s, Err(e))
    case Pass =>
      var w := Withdraw(s, source, amount);
      match w.result
      case Err(e) => Outcome(w.store, Err(e))
      case Ok(_) =>
        var d := Deposit(w.store, target, amount);
        match d.result
        case Err(e) => Outcome(d.store, Err(e))
        case Ok(_) =>
          assert source == target ==> d.store == s by {
            if source == target {
              assert d.store.accounts == s.accounts;
            }
          }
          Outcome(d.store, Ok(()))
  }
}
