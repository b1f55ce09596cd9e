/**
 Double entry (`pycroft/model/finance.py`): splits, the deferred trigger
 `split_check_transaction_balanced`, and what a commit that passes it guarantees.
 Amounts are in cents.
 */
module Books {
  import opened Wrappers

  datatype Split = Split(amount: int, account: nat, transaction: nat)

  type Splits = map<nat, Split>

  /** Transactions by id, with their `confirmed` flag, and splits by id. */
  datatype Tables = Tables(transactions: map<nat, bool>, splits: Splits)

  // ----- sums over tables -----

  ghost function Pick(m: Splits): (k: nat)
    requires m != map[]
    ensures k in m
  {
    assert exists k :: k in m by {
      assert m.Keys != {};
    }
    var k :| k in m;
    k
  }

  ghost function Sum(m: Splits): int
    decreases |m|
  {
    if m == map[] then 0 else
      var k := Pick(m);
      RemoveSmaller(m, k);
      m[k].amount + Sum(m - {k})
  }

  lemma RemoveSmaller(m: Splits, k: nat)
    requires k in m
    ensures |m - {k}| == |m| - 1
  {
    assert (m - {k}).Keys == m.Keys - {k};
  }

  lemma {:induction false} SumRemove(m: Splits, k: nat)
    requires k in m
    ensures Sum(m) == m[k].amount + Sum(m - {k})
    decreases |m|
  {
    var p := Pick(m);
    if p != k {
      RemoveSmaller(m, k);
      RemoveSmaller(m, p);
      SumRemove(m - {p}, k);
      SumRemove(m - {k}, p);
      assert m - {p} - {k} == m - {k} - {p};
    }
  }

  function OfTransaction(m: Splits, t: nat): Splits {
    map i | i in m && m[i].transaction == t :: m[i]
  }

  function OfAccount(m: Splits, a: nat): Splits {
    map i | i in m && m[i].account == a :: m[i]
  }

  /** The sum over a table is the sum over any two parts of it. */
  lemma {:induction false} SumParts(m: Splits, a: Splits, b: Splits)
    requires a.Keys !! b.Keys && m == a + b
    ensures Sum(m) == Sum(a) + Sum(b)
    decreases |m|
  {
    if m == map[] {
      assert a == map[] && b == map[];
    } else {
      var k := Pick(m);
      RemoveSmaller(m, k);
      PartsWithout(m, a, b, k);
      SumParts(m - {k}, a - {k}, b - {k});
      if k in a {
        SumRemove(a, k);
      } else {
        SumRemove(b, k);
      }
    }
  }

  lemma PartsWithout(m: Splits, a: Splits, b: Splits, k: nat)
    requires a.Keys !! b.Keys && m == a + b && k in m
    ensures m - {k} == (a - {k}) + (b - {k})
    ensures k in a ==> k !in b && b - {k} == b && m[k] == a[k]
    ensures k !in a ==> k in b && a - {k} == a && m[k] == b[k]
  {}

  // ----- the trigger -----

  /** `split_check_transaction_balanced` for one transaction; a sum over no rows is null. */
  ghost predicate TriggerPasses(s: Tables, t: nat) {
    var own := OfTransaction(s.splits, t);
    && !(|own| < 2 && t in s.transactions)
    && !(own != map[] && Sum(own) != 0)
  }

  /** Every split belongs to a transaction, and to an account only once per transaction. */
  ghost predicate KeysOk(s: Tables) {
    && (forall i :: i in s.splits ==> s.splits[i].transaction in s.transactions)
    && (forall i, j ::
          i in s.splits && j in s.splits && i != j && s.splits[i].transaction == s.splits[j].transaction ==>
          s.splits[i].account != s.splits[j].account)
  }

  /** The transaction a row event is checked for: the old one of a deleted split, else the new one. */
  ghost predicate Checked(before: Splits, after: Splits, t: nat) {
    exists i :: && (i in before || i in after) && (i in before && i in after ==> before[i] != after[i])
                && t == (if i in after then after[i].transaction else before[i].transaction)
  }

  ghost predicate Accepted(before: Tables, after: Tables) {
    KeysOk(after) && forall t :: Checked(before.splits, after.splits, t) ==> TriggerPasses(after, t)
  }

  ghost predicate NoneMoved(before: Splits, after: Splits) {
    forall i :: i in before && i in after ==> before[i].transaction == after[i].transaction
  }

  /** Each transaction with splits has at least two, which cancel out. */
  ghost predicate Balanced(s: Tables) {
    forall t :: OfTransaction(s.splits, t) != map[] ==>
      |OfTransaction(s.splits, t)| >= 2 && Sum(OfTransaction(s.splits, t)) == 0
  }

  ghost predicate Inv(s: Tables) {
    KeysOk(s) && Balanced(s)
  }

  /** A split has moved from this transaction to another one. */
  ghost predicate LeftBehind(before: Splits, after: Splits, t: nat) {
    exists i :: i in before && i in after && before[i].transaction == t != after[i].transaction
  }

  /**
   Checking only the transactions touched suffices exactly when those that splits were moved away from
   would pass as well, unless nothing is left of them.
   */
  lemma {:induction false} CommitKeepsInvIff(before: Tables, after: Tables)
    requires Inv(before) && Accepted(before, after)
    ensures Inv(after) <==> forall t :: LeftBehind(before.splits, after.splits, t) ==>
              OfTransaction(after.splits, t) == map[] || TriggerPasses(after, t)
  {
    forall t | OfTransaction(after.splits, t) != map[]
      ensures TriggerPasses(after, t)
              <==> |OfTransaction(after.splits, t)| >= 2 && Sum(OfTransaction(after.splits, t)) == 0
      ensures TriggerPasses(after, t) || LeftBehind(before.splits, after.splits, t)
    {
      var i := Pick(OfTransaction(after.splits, t));
      assert t in after.transactions;
      if !Checked(before.splits, after.splits, t) && !LeftBehind(before.splits, after.splits, t) {
        UncheckedIsSame(before.splits, after.splits, t);
      }
    }
  }

  /** In particular it suffices as long as no split changes its transaction. */
  lemma CommitKeepsInv(before: Tables, after: Tables)
    requires Inv(before) && Accepted(before, after) && NoneMoved(before.splits, after.splits)
    ensures Inv(after)
  {
    CommitKeepsInvIff(before, after);
  }

  lemma UncheckedIsSame(before: Splits, after: Splits, t: nat)
    requires !LeftBehind(before, after, t) && !Checked(before, after, t)
    ensures OfTransaction(before, t) == OfTransaction(after, t)
  {
    forall i
      ensures i in before && before[i].transaction == t <==> i in after && after[i].transaction == t
      ensures i in before && i in after && before[i].transaction == t ==> before[i] == after[i]
    {
    }
  }

  lemma {:induction false} ZeroSum(m: Splits)
    requires forall i :: i in m ==> m[i].amount == 0
    ensures Sum(m) == 0
    decreases |m|
  {
    if m != map[] {
      RemoveSmaller(m, Pick(m));
      ZeroSum(m - {Pick(m)});
    }
  }

  /** Two transactions of two empty splits each; the second split may have been moved. */
  function Example(second: nat): Tables {
    Tables(map[1 := false, 2 := false],
           map[1 := Split(0, 1, 1), 2 := Split(0, 2, second), 3 := Split(0, 3, 2), 4 := Split(0, 4, 2)])
  }

  lemma {:induction false} ExampleSums(second: nat, t: nat)
    requires second == 1 || second == 2
    ensures Sum(OfTransaction(Example(second).splits, t)) == 0
    ensures t == 2 ==> |OfTransaction(Example(second).splits, t)| >= 2
    ensures t == 1 == second ==> |OfTransaction(Example(second).splits, t)| >= 2
    ensures t == 1 != second ==> OfTransaction(Example(second).splits, t) == map[1 := Split(0, 1, 1)]
    ensures t != 1 && t != 2 ==> OfTransaction(Example(second).splits, t) == map[]
  {
    var own := OfTransaction(Example(second).splits, t);
    ZeroSum(own);
    if t == 2 {
      AtLeastTwo(own, 3, 4);
    } else if t == 1 == second {
      AtLeastTwo(own, 1, 2);
    }
  }

  lemma ExampleKeys(second: nat)
    requires second == 1 || second == 2
    ensures KeysOk(Example(second))
  {}

  lemma {:induction false} ExampleBalanced()
    ensures Balanced(Example(1)) && !Balanced(Example(2))
  {
    forall t
      ensures OfTransaction(Example(1).splits, t) != map[] ==>
                |OfTransaction(Example(1).splits, t)| >= 2 && Sum(OfTransaction(Example(1).splits, t)) == 0
    {
      ExampleSums(1, t);
    }
    ExampleSums(2, 1);
    var left: Splits := map[1 := Split(0, 1, 1)];
    assert OfTransaction(Example(2).splits, 1) == left;
    assert |left| == 1 && left != map[];
  }

  lemma {:induction false} ExampleAccepted(t: nat)
    requires Checked(Example(1).splits, Example(2).splits, t)
    ensures TriggerPasses(Example(2), t)
  {
    OnlySecondMoves(t);
    ExampleSums(2, t);
  }

  /** A moved split escapes: the transaction it leaves is not checked. */
  lemma {:induction false} MovingEscapes()
    ensures Inv(Example(1)) && Accepted(Example(1), Example(2)) && !Inv(Example(2))
  {
    var before, after := Example(1), Example(2);
    ExampleKeys(1);
    ExampleKeys(2);
    ExampleBalanced();
    forall t | Checked(before.splits, after.splits, t)
      ensures TriggerPasses(after, t)
    {
      ExampleAccepted(t);
    }
  }

  lemma OnlySecondMoves(t: nat)
    requires Checked(Example(1).splits, Example(2).splits, t)
    ensures t == 2
  {}

  lemma AtLeastTwo(m: Splits, i: nat, j: nat)
    requires i in m && j in m && i != j
    ensures |m| >= 2
  {
    assert {i, j} <= m.Keys;
    RemoveSmaller(m, i);
    assert j in m - {i};
  }

  // ----- balances -----

  /** `Account.balance`. */
  ghost function Balance(m: Splits, account: nat): int {
    Sum(OfAccount(m, account))
  }

  /** The sum of the balances of the accounts listed. */
  ghost function Balances(m: Splits, accounts: seq<nat>): int {
    if accounts == [] then 0 else Balance(m, accounts[0]) + Balances(m, accounts[1..])
  }

  /** When all transactions balance, so do the books. */
  lemma {:induction false} TotalIsZero(s: Tables)
    requires Balanced(s)
    ensures Sum(s.splits) == 0
    decreases |s.splits|
  {
    var m := s.splits;
    if m != map[] {
      var k := Pick(m);
      var own := OfTransaction(m, m[k].transaction);
      var rest := m - own.Keys;
      assert m == own + rest;
      SumParts(m, own, rest);
      RemoveSmaller(m, k);
      assert k in own;
      FewerRows(rest, m - {k});
      RestBalanced(s, m[k].transaction);
      TotalIsZero(Tables(s.transactions, rest));
    }
  }

  lemma {:induction false} RestBalanced(s: Tables, t: nat)
    requires Balanced(s)
    ensures Balanced(Tables(s.transactions, s.splits - OfTransaction(s.splits, t).Keys))
  {
    var rest := s.splits - OfTransaction(s.splits, t).Keys;
    forall u | OfTransaction(rest, u) != map[]
      ensures |OfTransaction(rest, u)| >= 2 && Sum(OfTransaction(rest, u)) == 0
    {
      var i := Pick(OfTransaction(rest, u));
      assert u != t;
      assert OfTransaction(rest, u) == OfTransaction(s.splits, u);
    }
  }

  lemma {:induction false} FewerRows(a: Splits, b: Splits)
    requires a.Keys <= b.Keys
    ensures |a| <= |b|
    decreases |b|
  {
    if a != map[] {
      var k := Pick(a);
      RemoveSmaller(a, k);
      RemoveSmaller(b, k);
      FewerRows(a - {k}, b - {k});
    }
  }

  /** The balances of distinct accounts that cover the table add up to the sum over the table. */
  lemma {:induction false} BalancesTotal(m: Splits, accounts: seq<nat>)
    requires NoDuplicates(accounts) && forall i :: i in m ==> m[i].account in accounts
    ensures Balances(m, accounts) == Sum(m)
  {
    if accounts != [] {
      var own := OfAccount(m, accounts[0]);
      var rest := m - own.Keys;
      assert m == own + rest;
      SumParts(m, own, rest);
      forall i | i in rest
        ensures rest[i].account in accounts[1..]
      {
        assert m[i].account in accounts && m[i].account != accounts[0];
      }
      BalancesTotal(rest, accounts[1..]);
      SameBalances(m, rest, accounts[1..], accounts[0]);
    } else {
      assert m == map[];
    }
  }

  lemma {:induction false} SameBalances(m: Splits, rest: Splits, accounts: seq<nat>, a: nat)
    requires rest == m - OfAccount(m, a).Keys && a !in accounts
    ensures Balances(rest, accounts) == Balances(m, accounts)
  {
    if accounts == [] {
    } else {
      assert OfAccount(rest, accounts[0]) == OfAccount(m, accounts[0]);
      SameBalances(m, rest, accounts[1..], a);
    }
  }

  /** The balances of all accounts add up to zero. */
  lemma {:induction false} BooksBalance(s: Tables, accounts: seq<nat>)
    requires Inv(s) && NoDuplicates(accounts) && forall i :: i in s.splits ==> s.splits[i].account in accounts
    ensures Balances(s.splits, accounts) == 0
  {
    TotalIsZero(s);
    BalancesTotal(s.splits, accounts);
  }
}
