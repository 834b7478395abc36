/** The account store (ClienteRepository) as an immutable value: accounts
    keyed by account number, an index from surrogate id to account number,
    and the next id the store will hand out. */
module Repository {
  import opened Wrappers
  import opened Accounts

  datatype Store = Store(
    accounts: map<string, Account>,
    ids: map<nat, string>,
    nextId: nat
  )

  /** The representation invariant: every account is filed under its own
      number, the id index and the accounts agree in both directions, and
      every id handed out so far is below `nextId`. */
  predicate Valid(s: Store) {
    && (forall n :: n in s.accounts ==>
          && s.accounts[n].number == n
          && s.accounts[n].id in s.ids
          && s.ids[s.accounts[n].id] == n)
    && (forall i :: i in s.ids ==>
          && i < s.nextId
          && s.ids[i] in s.accounts
          && s.accounts[s.ids[i]].id == i)
  }

  /** The store before any account is registered. */
  function Empty(): (s: Store)
    ensures Valid(s)
    ensures s.accounts == map[]
  {
    Store(map[], map[], 0)
  }

  /** existsByNumeroConta. */
  function ExistsByNumber(s: Store, number: string): (b: bool)
    requires Valid(s)
    ensures b <==> exists n :: n in s.accounts && s.accounts[n].number == number
  {
    number in s.accounts
  }

  /** findByNumeroConta: the account carrying `number`, if any. */
  function FindByNumber(s: Store, number: string): (r: Option<Account>)
    requires Valid(s)
    ensures r.Some? <==> number in s.accounts
    ensures r.Some? ==> r.value == s.accounts[number] && r.value.number == number
  {
    if number in s.accounts then Some(s.accounts[number]) else None
  }

  /** findById: the account whose surrogate id is `id`, if any. Ids are
      handed out from zero upwards, so a negative id finds nothing. */
  function FindById(s: Store, id: int): (r: Option<Account>)
    requires Valid(s)
    ensures r.Some? <==> exists n :: n in s.accounts && s.accounts[n].id == id
    ensures r.Some? ==> r.value.id == id
                        && r.value.number in s.accounts
                        && s.accounts[r.value.number] == r.value
  {
    if id >= 0 && id as nat in s.ids then Some(s.accounts[s.ids[id as nat]]) else None
  }

  /** save of a new entity: the store assigns the next fresh id, files the
      account under its number and returns the persisted form. */
  function Insert(s: Store, a: Account): (r: (Store, Account))
    requires Valid(s)
    requires a.number !in s.accounts
    ensures Valid(r.0)
    ensures r.1 == a.(id := s.nextId)
    ensures r.1.id !in s.ids
    ensures r.0.accounts == s.accounts[a.number := r.1]
  {
    var saved := a.(id := s.nextId);
    (Store(s.accounts[a.number := saved], s.ids[s.nextId := a.number], s.nextId + 1), saved)
  }

  /** save of an entity that was loaded from the store: the stored row with
      the same id and number is overwritten, nothing else changes. */
  function Update(s: Store, a: Account): (s': Store)
    requires Valid(s)
    requires a.number in s.accounts && s.accounts[a.number].id == a.id
    ensures Valid(s')
    ensures s'.accounts == s.accounts[a.number := a]
    ensures s'.ids == s.ids && s'.nextId == s.nextId
  {
    s.(accounts := s.accounts[a.number := a])
  }

  /** findAll, restricted to ids from `lo` on: the stored accounts in
      ascending id order, each exactly once. */
  function FindAllFrom(s: Store, lo: nat): (r: seq<Account>)
    requires Valid(s)
    decreases s.nextId - lo
    ensures forall k :: 0 <= k < |r| ==>
              && r[k].number in s.accounts
              && s.accounts[r[k].number] == r[k]
              && lo <= r[k].id
    ensures forall n :: n in s.accounts && lo <= s.accounts[n].id ==> s.accounts[n] in r
    ensures forall j, k :: 0 <= j < k < |r| ==> r[j].id < r[k].id
  {
    if lo >= s.nextId then []
    else if lo in s.ids then [s.accounts[s.ids[lo]]] + FindAllFrom(s, lo + 1)
    else FindAllFrom(s, lo + 1)
  }
}
