/** Transactions of `pycroft/lib/finance/transaction_crud.py`, each committed with the deferred trigger. */
module Ledgers {
  import opened Wrappers
  import opened Books

  datatype Failure = ValueError | IllegalTransaction | IntegrityError

  datatype Result = Done | Failed(failure: Failure)

  /** A split as requested: account and amount. */
  datatype Item = Item(account: nat, amount: int)

  function Total(items: seq<Item>): int {
    if items == [] then 0 else items[0].amount + Total(items[1..])
  }

  predicate DistinctAccounts(items: seq<Item>) {
    forall i, j :: 0 <= i < j < |items| ==> items[i].account != items[j].account
  }

  /** The rows of the items, numbered from `first`. */
  function Rows(first: nat, t: nat, items: seq<Item>): (m: Splits)
    ensures forall k :: k in m <==> first <= k < first + |items|
    ensures forall k :: k in m ==> m[k] == Split(items[k - first].amount, items[k - first].account, t)
    decreases |items|
  {
    if items == [] then map[] else Rows(first + 1, t, items[1..])[first := Split(items[0].amount, items[0].account, t)]
  }

  lemma AddRow(m: Splits, i: nat, s: Split)
    requires i !in m
    ensures Sum(m[i := s]) == Sum(m) + s.amount && |m[i := s]| == |m| + 1
  {
    var more := m[i := s];
    assert more - {i} == m;
    SumRemove(more, i);
    RemoveSmaller(more, i);
  }

  lemma {:induction false} RowsSum(first: nat, t: nat, items: seq<Item>)
    ensures Sum(Rows(first, t, items)) == Total(items) && |Rows(first, t, items)| == |items|
    decreases |items|
  {
    if items == [] {
    } else {
      RowsSum(first + 1, t, items[1..]);
      AddRow(Rows(first + 1, t, items[1..]), first, Split(items[0].amount, items[0].account, t));
    }
  }

  /** The splits of confirmed transactions are still there, and still confirmed. */
  ghost predicate ConfirmedPersist(before: Tables, after: Tables) {
    forall i :: i in before.splits && before.splits[i].transaction in before.transactions
                && before.transactions[before.splits[i].transaction] ==>
      && i in after.splits && after.splits[i] == before.splits[i]
      && before.splits[i].transaction in after.transactions && after.transactions[before.splits[i].transaction]
  }

  class Ledger {
    var transactions: map<nat, bool>
    var splits: Splits
    var nextTransaction: nat
    var nextSplit: nat

    ghost function State(): Tables
      reads this
    {
      Tables(transactions, splits)
    }

    ghost predicate Valid()
      reads this
    {
      && Inv(State())
      && (forall t :: t in transactions ==> t < nextTransaction)
      && (forall i :: i in splits ==> i < nextSplit)
    }

    constructor ()
      ensures Valid() && State() == Tables(map[], map[])
    {
      transactions, splits, nextTransaction, nextSplit := map[], map[], 0, 0;
      new;
      assert forall t :: OfTransaction(splits, t) == map[];
    }

    // ----- the deferred trigger -----

    /** `SELECT COUNT(*), SUM(amount) ... WHERE transaction_id = t`. */
    method CountAndSum(t: nat) returns (count: nat, balance: int)
      ensures count == |OfTransaction(splits, t)| && balance == Sum(OfTransaction(splits, t))
    {
      count, balance := 0, 0;
      var todo := splits.Keys;
      SeenEnds(splits, t);
      while todo != {}
        invariant todo <= splits.Keys
        invariant count == |Seen(splits, t, todo)| && balance == Sum(Seen(splits, t, todo))
        decreases todo
      {
        var i :| i in todo;
        SeenStep(splits, t, todo, i);
        if splits[i].transaction == t {
          count, balance := count + 1, balance + splits[i].amount;
        }
        todo := todo - {i};
      }
    }

    method Trigger(t: nat) returns (ok: bool)
      ensures ok == TriggerPasses(State(), t)
    {
      var count, balance := CountAndSum(t);
      if count < 2 && t in transactions {
        return false;
      }
      if count > 0 && balance != 0 {
        return false;
      }
      return true;
    }

    /** At commit, the trigger runs once for every row inserted, changed or deleted. */
    method Commit(before: Splits) returns (ok: bool)
      ensures ok <==> forall t :: Checked(before, splits, t) ==> TriggerPasses(State(), t)
    {
      var todo := before.Keys + splits.Keys;
      while todo != {}
        invariant todo <= before.Keys + splits.Keys
        invariant forall i :: i in before.Keys + splits.Keys - todo && Changed(before, splits, i) ==>
                    TriggerPasses(State(), CheckedFor(before, splits, i))
        decreases todo
      {
        var i :| i in todo;
        if Changed(before, splits, i) {
          var passes := Trigger(CheckedFor(before, splits, i));
          if !passes {
            assert Checked(before, splits, CheckedFor(before, splits, i));
            return false;
          }
        }
        todo := todo - {i};
      }
      forall t | Checked(before, splits, t)
        ensures TriggerPasses(State(), t)
      {
        var i :| && (i in before || i in splits) && (i in before && i in splits ==> before[i] != splits[i])
                 && t == (if i in splits then splits[i].transaction else before[i].transaction);
        assert i in before.Keys + splits.Keys && Changed(before, splits, i) && t == CheckedFor(before, splits, i);
      }
      return true;
    }

    // ----- operations -----

    method ComplexTransaction(items: seq<Item>, confirmed: bool) returns (r: Result)
      requires Valid()
      modifies this
      ensures Valid() && ConfirmedPersist(old(State()), State())
      ensures r == (if Total(items) != 0 || |items| < 2 then Failed(IllegalTransaction)
                    else if !DistinctAccounts(items) then Failed(IntegrityError) else Done)
      ensures State() == if r.Done?
                         then old(Tables(transactions[nextTransaction := confirmed],
                                         splits + Rows(nextSplit, nextTransaction, items)))
                         else old(State())
    {
      if Total(items) != 0 || |items| < 2 {
        return Failed(IllegalTransaction);
      }
      if !DistinctAccounts(items) {
        return Failed(IntegrityError);
      }
      ghost var before := State();
      var saved, t := splits, nextTransaction;
      var rows := Rows(nextSplit, t, items);
      transactions, splits := transactions[t := confirmed], splits + rows;
      nextTransaction, nextSplit := t + 1, nextSplit + |items|;
      AddedIsAccepted(before, State(), t, rows, old(nextSplit), items);
      var ok := Commit(saved);
      assert ok;
      CommitKeepsInv(before, State());
      return Done;
    }

    method SimpleTransaction(debit: nat, credit: nat, amount: int, confirmed: bool) returns (r: Result)
      requires Valid()
      modifies this
      ensures Valid() && ConfirmedPersist(old(State()), State())
      ensures r == if debit == credit then Failed(IntegrityError) else Done
      ensures r.Done? ==>
        && State().transactions == old(transactions)[old(nextTransaction) := confirmed]
        && (forall a :: Balance(splits, a) == old(Balance(splits, a)) +
             if a == credit then amount else if a == debit then -amount else 0)
      ensures r.Failed? ==> State() == old(State())
    {
      var items := [Item(debit, -amount), Item(credit, amount)];
      TwoItems(items[0], items[1]);
      r := ComplexTransaction(items, confirmed);
      if r.Done? {
        forall a
          ensures Balance(splits, a) == old(Balance(splits, a)) +
                    if a == credit then amount else if a == debit then -amount else 0
        {
          TwoRows(old(splits), old(nextSplit), old(nextTransaction), items[0], items[1], a);
        }
      }
    }

    method TransactionDelete(t: nat) returns (r: Result)
      requires Valid() && t in transactions
      modifies this
      ensures Valid() && ConfirmedPersist(old(State()), State())
      ensures r == if old(transactions)[t] then Failed(ValueError) else Done
      ensures State() == if r.Done? then old(Tables(transactions - {t}, splits - OfTransaction(splits, t).Keys))
                         else old(State())
    {
      if transactions[t] {
        return Failed(ValueError);
      }
      ghost var before := State();
      var saved := splits;
      transactions := transactions - {t};
      splits := splits - OfTransaction(splits, t).Keys;
      DeletedIsAccepted(before, State(), t);
      var ok := Commit(saved);
      assert ok;
      CommitKeepsInv(before, State());
      return Done;
    }

    method TransactionConfirm(t: nat) returns (r: Result)
      requires Valid() && t in transactions
      modifies this
      ensures Valid() && ConfirmedPersist(old(State()), State())
      ensures r == (if old(transactions)[t] then Failed(ValueError)
                    else if OfTransaction(splits, t) == map[] then Failed(IllegalTransaction) else Done)
      ensures State() == if r.Done? then old(Tables(transactions[t := true], splits)) else old(State())
    {
      if transactions[t] {
        return Failed(ValueError);
      }
      var count, balance := CountAndSum(t);
      if balance != 0 || count < 2 {
        return Failed(IllegalTransaction);
      }
      transactions := transactions[t := true];
      return Done;
    }
  }

  /** The splits of the transaction that are not to be read any more. */
  function Seen(m: Splits, t: nat, todo: set<nat>): Splits {
    map i | i in m && i !in todo && m[i].transaction == t :: m[i]
  }

  lemma SeenStep(m: Splits, t: nat, todo: set<nat>, i: nat)
    requires i in todo && i in m
    ensures Sum(Seen(m, t, todo - {i})) == Sum(Seen(m, t, todo)) + if m[i].transaction == t then m[i].amount else 0
    ensures |Seen(m, t, todo - {i})| == |Seen(m, t, todo)| + if m[i].transaction == t then 1 else 0
  {
    if m[i].transaction == t {
      assert Seen(m, t, todo - {i}) == Seen(m, t, todo)[i := m[i]];
      AddRow(Seen(m, t, todo), i, m[i]);
    } else {
      assert Seen(m, t, todo - {i}) == Seen(m, t, todo);
    }
  }

  lemma SeenEnds(m: Splits, t: nat)
    ensures Seen(m, t, m.Keys) == map[] && Seen(m, t, {}) == OfTransaction(m, t)
  {}

  /** The row has been inserted, changed or deleted. */
  predicate Changed(before: Splits, after: Splits, i: nat) {
    (i in before || i in after) && (i in before && i in after ==> before[i] != after[i])
  }

  function CheckedFor(before: Splits, after: Splits, i: nat): nat
    requires i in before || i in after
  {
    if i in after then after[i].transaction else before[i].transaction
  }

  lemma TwoItems(x: Item, y: Item)
    ensures Total([x, y]) == x.amount + y.amount
    ensures DistinctAccounts([x, y]) <==> x.account != y.account
  {
    assert [x, y][1..] == [y] && [y][1..] == [] && Total([]) == 0;
    assert Total([y]) == y.amount;
    assert [x, y][0].account == x.account && [x, y][1].account == y.account;
  }

  lemma {:induction false} AddedIsAccepted(before: Tables, after: Tables, t: nat, rows: Splits, first: nat,
                                           items: seq<Item>)
    requires Inv(before) && t !in before.transactions && (forall i :: i in before.splits ==> i < first)
    requires rows == Rows(first, t, items) && after.splits == before.splits + rows
    requires after.transactions.Keys == before.transactions.Keys + {t}
    requires Total(items) == 0 && |items| >= 2 && DistinctAccounts(items)
    ensures Accepted(before, after) && NoneMoved(before.splits, after.splits)
  {
    OnlyAdded(before.splits, rows, t, first, items);
    RowsSum(first, t, items);
    AddedKeys(before, after, t, rows, first, items);
  }

  lemma OnlyAdded(m: Splits, rows: Splits, t: nat, first: nat, items: seq<Item>)
    requires (forall i :: i in m ==> i < first && m[i].transaction != t) && rows == Rows(first, t, items)
    ensures OfTransaction(m + rows, t) == rows && NoneMoved(m, m + rows)
    ensures forall u :: Checked(m, m + rows, u) ==> u == t
  {}

  lemma AddedKeys(before: Tables, after: Tables, t: nat, rows: Splits, first: nat, items: seq<Item>)
    requires KeysOk(before) && t !in before.transactions && (forall i :: i in before.splits ==> i < first)
    requires rows == Rows(first, t, items) && after.splits == before.splits + rows
    requires after.transactions.Keys == before.transactions.Keys + {t}
    requires DistinctAccounts(items)
    ensures KeysOk(after)
  {
    forall i | i in after.splits
      ensures after.splits[i].transaction in after.transactions
      ensures i in rows ==> after.splits[i] == rows[i] && rows[i].transaction == t
      ensures i !in rows ==>
                i in before.splits && after.splits[i] == before.splits[i] && before.splits[i].transaction != t
    {
    }
    forall i, j | i in rows && j in rows && i != j
      ensures rows[i].account != rows[j].account
    {
      assert items[i - first].account != items[j - first].account;
    }
  }

  lemma {:induction false} DeletedIsAccepted(before: Tables, after: Tables, t: nat)
    requires Inv(before)
    requires after.transactions == before.transactions - {t}
    requires after.splits == before.splits - OfTransaction(before.splits, t).Keys
    ensures Accepted(before, after) && NoneMoved(before.splits, after.splits)
  {
    assert OfTransaction(after.splits, t) == map[];
    forall u | Checked(before.splits, after.splits, u)
      ensures u == t
    {
    }
  }

  lemma {:induction false} TwoRows(m: Splits, first: nat, t: nat, x: Item, y: Item, a: nat)
    requires forall i :: i in m ==> i < first
    ensures Balance(m + Rows(first, t, [x, y]), a)
            == Balance(m, a) + (if x.account == a then x.amount else 0) + (if y.account == a then y.amount else 0)
  {
    var sx, sy := Split(x.amount, x.account, t), Split(y.amount, y.account, t);
    assert [x, y][1..] == [y] && [y][1..] == [];
    assert Rows(first + 1, t, [y]) == map[first + 1 := sy];
    assert m + Rows(first, t, [x, y]) == m[first + 1 := sy][first := sx];
    BalanceAdd(m, first + 1, sy, a);
    BalanceAdd(m[first + 1 := sy], first, sx, a);
  }

  lemma BalanceAdd(m: Splits, i: nat, s: Split, a: nat)
    requires i !in m
    ensures Balance(m[i := s], a) == Balance(m, a) + if s.account == a then s.amount else 0
  {
    if s.account == a {
      assert OfAccount(m[i := s], a) == OfAccount(m, a)[i := s];
      AddRow(OfAccount(m, a), i, s);
    } else {
      assert OfAccount(m[i := s], a) == OfAccount(m, a);
    }
  }

  // ----- runs -----

  datatype Operation =
    | Simple(debit: nat, credit: nat, amount: int, confirmed: bool)
    | Complex(items: seq<Item>, confirmed: bool)
    | DeleteTransaction(t: nat)
    | Confirm(t: nat)

  /** After any run the books balance, and what was confirmed at the start is still in them. */
  method Replay(ledger: Ledger, operations: seq<Operation>, ghost accounts: seq<nat>)
    requires ledger.Valid()
    modifies ledger
    ensures ledger.Valid() && ConfirmedPersist(old(ledger.State()), ledger.State())
    ensures NoDuplicates(accounts) && (forall i :: i in ledger.splits ==> ledger.splits[i].account in accounts) ==>
              Balances(ledger.splits, accounts) == 0
  {
    for k := 0 to |operations|
      invariant ledger.Valid() && ConfirmedPersist(old(ledger.State()), ledger.State())
    {
      match operations[k]
      case Simple(debit, credit, amount, confirmed) =>
        var r := ledger.SimpleTransaction(debit, credit, amount, confirmed);
      case Complex(items, confirmed) =>
        var r := ledger.ComplexTransaction(items, confirmed);
      case DeleteTransaction(t) =>
        if t in ledger.transactions {
          var r := ledger.TransactionDelete(t);
        }
      case Confirm(t) =>
        if t in ledger.transactions {
          var r := ledger.TransactionConfirm(t);
        }
    }
    if NoDuplicates(accounts) && forall i :: i in ledger.splits ==> ledger.splits[i].account in accounts {
      BooksBalance(ledger.State(), accounts);
    }
  }
}
