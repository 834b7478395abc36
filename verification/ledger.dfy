/** Whole-store quantities used to state what the balance operations keep:
    the sum of all balances, and the absence of negative balances. */
module Ledger {
  import opened Accounts
  import opened Repository

  /** The sum of the balances of every account in `m`. */
  ghost function Total(m: map<string, Account>): Money
    decreases |m|
  {
    if m == map[] then 0.0
    else
      var k :| k in m;
      assert |m - {k}| < |m| by { assert m.Keys - {k} < m.Keys; }
      m[k].balance + Total(m - {k})
  }

  /** No account holds a negative balance. */
  predicate NonNegative(s: Store) {
    forall n :: n in s.accounts ==> s.accounts[n].balance >= 0.0
  }

  /** Any account can be taken out of the sum first, whichever one the
      definition of Total happens to pick. */
  lemma {:induction false} TotalRemove(m: map<string, Account>, k: string)
    requires k in m
    ensures Total(m) == m[k].balance + Total(m - {k})
    decreases |m|
  {
    var j :| j in m && Total(m) == m[j].balance + Total(m - {j});
    if j != k {
      assert (m - {j}).Keys == m.Keys - {j};
      assert |m - {j}| < |m| by { assert m.Keys - {j} < m.Keys; }
      assert |m - {k}| < |m| by { assert m.Keys - {k} < m.Keys; }
      TotalRemove(m - {j}, k);
      TotalRemove(m - {k}, j);
      assert m - {j} - {k} == m - {k} - {j};
    }
  }

  /** Replacing one account changes the sum by exactly the change in that
      account's balance. */
  lemma TotalUpdate(m: map<string, Account>, k: string, a: Account)
    requires k in m
    ensures Total(m[k := a]) == Total(m) - m[k].balance + a.balance
  {
    TotalRemove(m, k);
    TotalRemove(m[k := a], k);
    assert m[k := a] - {k} == m - {k};
  }

  /** Adding a fresh account raises the sum by that account's balance. */
  lemma TotalInsert(m: map<string, Account>, k: string, a: Account)
    requires k !in m
    ensures Total(m[k := a]) == Total(m) + a.balance
  {
    TotalRemove(m[k := a], k);
    assert m[k := a] - {k} == m;
  }
}
