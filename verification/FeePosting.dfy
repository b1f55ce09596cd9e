/**
 Bulk posting of membership fees (`pycroft/lib/finance/membership_fee.py`).  One statement inserts
 the transactions and then the splits; users and transactions are numbered independently, in orders
 the database is free to choose, and matched by number.  The ids of all new rows are arbitrary.
 */
module FeePosting {
  import opened Wrappers
  import opened Books
  import opened Fees
  import Memberships
  import Properties

  /** What the query looks at for a user. */
  datatype Person = Person(
    id: nat,
    account: nat,
    /** fee accounts of the buildings of the rooms at the end and at the beginning of the fee */
    buildingAtEnd: Option<nat>,
    buildingAtBegin: Option<nat>)

  /** The tables that decide on properties, and the accounts that fees go to. */
  datatype Context = Context(memberships: Memberships.Rows, props: seq<Properties.Property>, feeAccounts: set<nat>)

  /** Valid days of the transactions, and the splits. */
  datatype Journal = Journal(validOn: map<nat, int>, splits: Splits)

  function FeeAccount(p: Person, default: nat): nat {
    if p.buildingAtEnd.Some? then p.buildingAtEnd.value
    else if p.buildingAtBegin.Some? then p.buildingAtBegin.value
    else default
  }

  // ----- who has to pay -----

  /** The first instant of a day, in seconds. */
  function MinTime(day: int): real {
    (day * DAY) as real
  }

  /** The last microsecond of a day. */
  function MaxTime(day: int): real {
    ((day + 1) * DAY) as real - 0.000001
  }

  /** The fee property at an instant, undenied, by the grouped query. */
  predicate HasFeeProperty(p: Person, ctx: Context, at: real) {
    Properties.Evaluated(p.id, "membership_fee", false) in Properties.Evaluate(ctx.memberships, ctx.props, at)
  }

  /** The first instant of the day on which booking begins, counted from the first day of the fee. */
  function BookingBegins(fee: Fee): (at: real)
    ensures at == ((fee.beginsOn - 1 + fee.bookingBegin / 86400) * 86400) as real
  {
    MinTime(fee.beginsOn + DaysOf(fee.bookingBegin) - 1)
  }

  /** The last instant of the day on which booking ends: a microsecond later the next day begins. */
  function BookingEnds(fee: Fee): (at: real)
    ensures at + 0.000001 == ((fee.beginsOn + fee.bookingEnd / 86400) * 86400) as real
  {
    MaxTime(fee.beginsOn + DaysOf(fee.bookingEnd) - 1)
  }

  /** A user has to pay who has the property at the begin of booking or at its end. */
  predicate HasToPay(p: Person, ctx: Context, fee: Fee) {
    HasFeeProperty(p, ctx, BookingBegins(fee)) || HasFeeProperty(p, ctx, BookingEnds(fee))
  }

  /** A split of the account belongs to a transaction of these days that credits a fee account. */
  predicate BookedBy(j: Journal, user: nat, credit: nat, fee: Fee, account: nat, feeAccounts: set<nat>) {
    && user in j.splits && credit in j.splits && user != credit
    && j.splits[user].account == account
    && j.splits[credit].transaction == j.splits[user].transaction
    && j.splits[user].transaction in j.validOn
    && fee.beginsOn <= j.validOn[j.splits[user].transaction] <= fee.endsOn
    && j.splits[credit].account in feeAccounts && j.splits[credit].amount < 0
  }

  predicate AlreadyBooked(j: Journal, fee: Fee, account: nat, feeAccounts: set<nat>) {
    exists u, c :: u in j.splits && c in j.splits && BookedBy(j, u, c, fee, account, feeAccounts)
  }

  predicate Eligible(p: Person, j: Journal, fee: Fee, ctx: Context) {
    HasToPay(p, ctx, fee) && !AlreadyBooked(j, fee, p.account, ctx.feeAccounts)
  }

  /** `users_eligible_for_fee_query`. */
  function EligibleUsers(users: seq<Person>, j: Journal, fee: Fee, ctx: Context): (r: seq<Person>)
    ensures forall p :: p in r <==> p in users && Eligible(p, j, fee, ctx)
    ensures |r| <= |users|
  {
    if users == [] then []
    else if Eligible(users[0], j, fee, ctx) then [users[0]] + EligibleUsers(users[1..], j, fee, ctx)
    else EligibleUsers(users[1..], j, fee, ctx)
  }

  /** The fee property at an instant, granted by an active group and denied by none. */
  ghost predicate PaysAt(p: Person, ctx: Context, at: real) {
    && Properties.SomeRow(ctx.memberships, ctx.props, p.id, "membership_fee", at, true)
    && !Properties.SomeRow(ctx.memberships, ctx.props, p.id, "membership_fee", at, false)
  }

  /** In terms of groups. */
  lemma {:induction false} HasFeePropertyIff(p: Person, ctx: Context, at: real)
    ensures HasFeeProperty(p, ctx, at) <==> PaysAt(p, ctx, at)
  {
    Properties.EvaluateMeaning(ctx.memberships, ctx.props, p.id, "membership_fee", at);
  }

  /** Either instant suffices, and one is needed. */
  lemma {:induction false} HasToPayMeaning(p: Person, ctx: Context, fee: Fee)
    ensures HasFeeProperty(p, ctx, BookingBegins(fee)) ==> HasToPay(p, ctx, fee)
    ensures HasFeeProperty(p, ctx, BookingEnds(fee)) ==> HasToPay(p, ctx, fee)
    ensures HasToPay(p, ctx, fee) && !HasFeeProperty(p, ctx, BookingBegins(fee)) ==>
              HasFeeProperty(p, ctx, BookingEnds(fee))
  {
  }

  /** Booked is who has a split in a transaction valid within the fee that also credits a fee account. */
  lemma {:induction false} BookedMeaning(j: Journal, fee: Fee, account: nat, feeAccounts: set<nat>)
    ensures AlreadyBooked(j, fee, account, feeAccounts) <==>
      exists u, c ::
        && u in j.splits && c in j.splits && u != c && j.splits[u].transaction == j.splits[c].transaction
        && j.splits[u].account == account && j.splits[c].account in feeAccounts && j.splits[c].amount < 0
        && j.splits[u].transaction in j.validOn
        && fee.beginsOn <= j.validOn[j.splits[u].transaction] && j.validOn[j.splits[u].transaction] <= fee.endsOn
  {
  }

  /** Eligible is who has to pay and has not been booked yet. */
  lemma EligibleMeaning(users: seq<Person>, j: Journal, fee: Fee, ctx: Context, p: Person)
    ensures p in EligibleUsers(users, j, fee, ctx) <==>
      p in users && HasToPay(p, ctx, fee) && !AlreadyBooked(j, fee, p.account, ctx.feeAccounts)
  {
  }

  // ----- the inserted rows -----

  /** Rows inserted under new ids. */
  function Inserted(m: Splits, ids: seq<nat>, rows: seq<Split>): Splits
    requires |ids| == |rows|
  {
    if ids == [] then m else
      var last := |ids| - 1;
      Inserted(m, ids[..last], rows[..last])[ids[last] := rows[last]]
  }

  ghost predicate NewIds(m: Splits, ids: seq<nat>) {
    NoDuplicates(ids) && forall i :: i in ids ==> i !in m
  }

  lemma {:induction false} InsertedMeaning(m: Splits, ids: seq<nat>, rows: seq<Split>, i: nat)
    requires |ids| == |rows| && NewIds(m, ids)
    ensures i in Inserted(m, ids, rows) <==> i in m || i in ids
    ensures i in m ==> Inserted(m, ids, rows)[i] == m[i]
    ensures forall k :: 0 <= k < |ids| && ids[k] == i ==> Inserted(m, ids, rows)[i] == rows[k]
  {
    if ids == [] {
    } else {
      var last := |ids| - 1;
      assert ids == ids[..last] + [ids[last]];
      InsertedMeaning(m, ids[..last], rows[..last], i);
    }
  }

  function Valid(validOn: map<nat, int>, transactions: seq<nat>, day: int): map<nat, int> {
    map t | t in validOn.Keys + (set x | x in transactions) :: if t in transactions then day else validOn[t]
  }

  function Credits(users: seq<Person>, transactions: seq<nat>, amount: int, default: nat): (r: seq<Split>)
    requires |users| == |transactions|
    ensures |r| == |users|
    ensures forall k :: 0 <= k < |users| ==> r[k] == Split(-amount, FeeAccount(users[k], default), transactions[k])
  {
    if users == [] then [] else
      [Split(-amount, FeeAccount(users[0], default), transactions[0])]
        + Credits(users[1..], transactions[1..], amount, default)
  }

  function Debits(users: seq<Person>, transactions: seq<nat>, amount: int): (r: seq<Split>)
    requires |users| == |transactions|
    ensures |r| == |users|
    ensures forall k :: 0 <= k < |users| ==> r[k] == Split(amount, users[k].account, transactions[k])
  {
    if users == [] then [] else
      [Split(amount, users[0].account, transactions[0])] + Debits(users[1..], transactions[1..], amount)
  }

  /**
   One posting: the journal before it, the numbering of the affected users and the numbering of the
   new transactions, and the ids of the new splits.
   */
  datatype Posting = Posting(before: Journal, fee: Fee, default: nat, users: seq<Person>, transactions: seq<nat>,
                             creditIds: seq<nat>, debitIds: seq<nat>)
  {
    predicate Matched() {
      |users| == |transactions| == |creditIds| == |debitIds|
    }

    function WithCredits(): Splits
      requires Matched()
    {
      Inserted(before.splits, creditIds, Credits(users, transactions, fee.regularFee, default))
    }

    function After(): Journal
      requires Matched()
    {
      Journal(Valid(before.validOn, transactions, fee.endsOn),
              Inserted(WithCredits(), debitIds, Debits(users, transactions, fee.regularFee)))
    }

    /** New ids are fresh and distinct, and old splits have a transaction. */
    ghost predicate Fresh() {
      && Matched() && NoDuplicates(transactions)
      && NewIds(before.splits, creditIds) && NewIds(before.splits, debitIds)
      && (forall i :: i in creditIds ==> i !in debitIds)
      && (forall t :: t in transactions ==> t !in before.validOn)
      && (forall i :: i in before.splits ==> before.splits[i].transaction in before.validOn)
    }

    function Credit(k: nat): Split
      requires Matched() && k < |users|
    {
      Split(-fee.regularFee, FeeAccount(users[k], default), transactions[k])
    }

    function Debit(k: nat): Split
      requires Matched() && k < |users|
    {
      Split(fee.regularFee, users[k].account, transactions[k])
    }

    /** The row of a split after the posting. */
    function Row(i: nat): Option<Split>
      requires Matched()
    {
      if i in After().splits then Some(After().splits[i]) else None
    }

    function OldRow(i: nat): Option<Split> {
      if i in before.splits then Some(before.splits[i]) else None
    }
  }

  lemma {:induction false} CreditsNew(p: Posting)
    requires p.Fresh()
    ensures NewIds(p.WithCredits(), p.debitIds)
  {
    forall i | i in p.debitIds
      ensures i !in p.WithCredits()
    {
      InsertedMeaning(p.before.splits, p.creditIds, Credits(p.users, p.transactions, p.fee.regularFee, p.default), i);
    }
  }

  lemma {:induction false} AfterKeys(p: Posting, i: nat)
    requires p.Fresh()
    ensures i in p.After().splits <==> i in p.before.splits || i in p.creditIds || i in p.debitIds
    ensures i !in p.creditIds && i !in p.debitIds ==> p.Row(i) == p.OldRow(i)
  {
    CreditsNew(p);
    InsertedMeaning(p.before.splits, p.creditIds, Credits(p.users, p.transactions, p.fee.regularFee, p.default), i);
    InsertedMeaning(p.WithCredits(), p.debitIds, Debits(p.users, p.transactions, p.fee.regularFee), i);
  }

  lemma {:induction false} CreditInserted(p: Posting, k: nat)
    requires p.Fresh() && k < |p.users|
    ensures p.creditIds[k] in p.WithCredits() && p.WithCredits()[p.creditIds[k]] == p.Credit(k)
  {
    assert p.creditIds[k] in p.creditIds;
    InsertedMeaning(p.before.splits, p.creditIds, Credits(p.users, p.transactions, p.fee.regularFee, p.default),
                    p.creditIds[k]);
  }

  lemma {:induction false} CreditAt(p: Posting, k: nat)
    requires p.Fresh() && k < |p.users|
    ensures p.creditIds[k] !in p.before.splits && p.creditIds[k] !in p.debitIds
    ensures p.Row(p.creditIds[k]) == Some(p.Credit(k))
  {
    CreditsNew(p);
    assert p.creditIds[k] in p.creditIds;
    CreditInserted(p, k);
    InsertedMeaning(p.WithCredits(), p.debitIds, Debits(p.users, p.transactions, p.fee.regularFee), p.creditIds[k]);
  }

  lemma {:induction false} DebitAt(p: Posting, k: nat)
    requires p.Fresh() && k < |p.users|
    ensures p.debitIds[k] !in p.before.splits && p.debitIds[k] !in p.creditIds
    ensures p.Row(p.debitIds[k]) == Some(p.Debit(k))
  {
    CreditsNew(p);
    assert p.debitIds[k] in p.debitIds;
    InsertedMeaning(p.WithCredits(), p.debitIds, Debits(p.users, p.transactions, p.fee.regularFee), p.debitIds[k]);
  }

  predicate IsNew(p: Posting, i: nat, k: nat)
    requires p.Matched() && k < |p.users|
  {
    || (p.creditIds[k] == i && p.Row(i) == Some(p.Credit(k)))
    || (p.debitIds[k] == i && p.Row(i) == Some(p.Debit(k)))
  }

  /** Every row is an old one, a credit or a debit. */
  lemma {:induction false} RowCases(p: Posting, i: nat)
    requires p.Fresh()
    ensures || (i !in p.creditIds && i !in p.debitIds && p.Row(i) == p.OldRow(i))
            || (i !in p.before.splits && exists k :: 0 <= k < |p.users| && IsNew(p, i, k))
  {
    AfterKeys(p, i);
    if i in p.creditIds {
      var k :| 0 <= k < |p.users| && p.creditIds[k] == i;
      CreditAt(p, k);
      assert IsNew(p, i, k);
    } else if i in p.debitIds {
      var k :| 0 <= k < |p.users| && p.debitIds[k] == i;
      DebitAt(p, k);
      assert IsNew(p, i, k);
    }
  }

  // ----- exactly one transaction of two splits for each user -----

  /** The splits of a table are the two given ones. */
  predicate Pair(own: Splits, x: nat, credit: Split, y: nat, debit: Split) {
    x != y && own.Keys == {x, y} && own[x] == credit && own[y] == debit
  }

  lemma {:induction false} NewRowOf(p: Posting, k: nat, i: nat, n: nat)
    requires p.Fresh() && k < |p.users| && n < |p.users| && IsNew(p, i, n)
    ensures p.Row(i).Some? && (p.Row(i).value.transaction == p.transactions[k] <==> n == k)
  {
  }

  lemma {:induction false} RowOfTransaction(p: Posting, k: nat, i: nat)
    requires p.Fresh() && k < |p.users|
    ensures p.Row(i).Some? && p.Row(i).value.transaction == p.transactions[k]
            <==> i == p.creditIds[k] || i == p.debitIds[k]
  {
    CreditAt(p, k);
    DebitAt(p, k);
    RowCases(p, i);
    if i in p.before.splits {
      assert p.transactions[k] in p.transactions;
    } else if p.Row(i).Some? {
      var n :| 0 <= n < |p.users| && IsNew(p, i, n);
      NewRowOf(p, k, i, n);
    }
  }

  lemma {:induction false} SplitsOfTransaction(p: Posting, k: nat)
    requires p.Fresh() && k < |p.users|
    ensures Pair(OfTransaction(p.After().splits, p.transactions[k]), p.creditIds[k], p.Credit(k), p.debitIds[k],
                 p.Debit(k))
  {
    var own := OfTransaction(p.After().splits, p.transactions[k]);
    var two := {p.creditIds[k], p.debitIds[k]};
    CreditAt(p, k);
    DebitAt(p, k);
    forall i: nat
      ensures i in own <==> i in two
    {
      RowOfTransaction(p, k, i);
    }
    assert own.Keys == two;
  }

  lemma {:induction false} OldTransaction(p: Posting, t: nat, i: nat)
    requires p.Fresh() && t !in p.transactions
    ensures p.Row(i).Some? && p.Row(i).value.transaction == t
            <==> p.OldRow(i).Some? && p.OldRow(i).value.transaction == t
    ensures p.OldRow(i).Some? ==> p.Row(i) == p.OldRow(i)
  {
    RowCases(p, i);
  }

  lemma {:induction false} OldTransactions(p: Posting, t: nat)
    requires p.Fresh() && t !in p.transactions
    ensures OfTransaction(p.After().splits, t) == OfTransaction(p.before.splits, t)
  {
    var now, was := OfTransaction(p.After().splits, t), OfTransaction(p.before.splits, t);
    forall i: nat
      ensures i in now <==> i in was
      ensures i in was ==> now[i] == was[i]
    {
      OldTransaction(p, t, i);
    }
  }

  lemma {:induction false} SumOfTwo(own: Splits, x: nat, a: Split, y: nat, b: Split)
    requires Pair(own, x, a, y, b)
    ensures Sum(own) == a.amount + b.amount && |own| == 2
  {
    SumRemove(own, x);
    RemoveSmaller(own, x);
    SumRemove(own - {x}, y);
    RemoveSmaller(own - {x}, y);
    assert own - {x} - {y} == map[];
  }

  /** The new transactions balance and the old ones are as before, so the deferred trigger accepts. */
  lemma {:induction false} PostedAccepted(p: Posting, t: nat)
    requires p.Fresh()
    ensures t in p.transactions ==>
              |OfTransaction(p.After().splits, t)| == 2 && Sum(OfTransaction(p.After().splits, t)) == 0
    ensures t !in p.transactions ==> OfTransaction(p.After().splits, t) == OfTransaction(p.before.splits, t)
  {
    if t in p.transactions {
      var k :| 0 <= k < |p.transactions| && p.transactions[k] == t;
      SplitsOfTransaction(p, k);
      SumOfTwo(OfTransaction(p.After().splits, t), p.creditIds[k], p.Credit(k), p.debitIds[k], p.Debit(k));
    } else {
      OldTransactions(p, t);
    }
  }

  // ----- posting again -----

  lemma {:induction false} Unchanged(p: Posting, i: nat)
    requires p.Fresh() && i in p.before.splits
    ensures p.Row(i) == p.OldRow(i)
  {
    RowCases(p, i);
  }

  lemma {:induction false} BookedStays(p: Posting, fee: Fee, account: nat, feeAccounts: set<nat>)
    requires p.Fresh() && AlreadyBooked(p.before, fee, account, feeAccounts)
    ensures AlreadyBooked(p.After(), fee, account, feeAccounts)
  {
    var u, c :| u in p.before.splits && c in p.before.splits && BookedBy(p.before, u, c, fee, account, feeAccounts);
    Unchanged(p, u);
    Unchanged(p, c);
    assert BookedBy(p.After(), u, c, fee, account, feeAccounts);
  }

  lemma {:induction false} NewlyBooked(p: Posting, k: nat, feeAccounts: set<nat>)
    requires p.Fresh() && k < |p.users|
    requires p.fee.regularFee > 0 && p.fee.beginsOn <= p.fee.endsOn && FeeAccount(p.users[k], p.default) in feeAccounts
    ensures AlreadyBooked(p.After(), p.fee, p.users[k].account, feeAccounts)
  {
    CreditAt(p, k);
    DebitAt(p, k);
    assert p.transactions[k] in p.transactions && p.creditIds[k] in p.creditIds;
    assert BookedBy(p.After(), p.debitIds[k], p.creditIds[k], p.fee, p.users[k].account, feeAccounts);
  }

  /**
   What a posting books nothing for: a fee whose days do not include the last day of the posted one, and
   every fee if nothing was charged.
   */
  lemma {:induction false} BookedOnlyBefore(p: Posting, fee: Fee, account: nat, feeAccounts: set<nat>)
    requires p.Fresh() && (p.fee.regularFee == 0 || !(fee.beginsOn <= p.fee.endsOn <= fee.endsOn))
    requires AlreadyBooked(p.After(), fee, account, feeAccounts)
    ensures AlreadyBooked(p.before, fee, account, feeAccounts)
  {
    var after := p.After();
    var u, c :| u in after.splits && c in after.splits && BookedBy(after, u, c, fee, account, feeAccounts);
    RowCases(p, u);
    RowCases(p, c);
    assert after.splits[u].transaction in p.transactions <==> u !in p.before.splits;
    assert after.splits[c].transaction in p.transactions <==> c !in p.before.splits;
    assert BookedBy(p.before, u, c, fee, account, feeAccounts);
  }

  /** Posting one fee leaves everybody eligible for the fees of other months. */
  lemma {:induction false} OtherFeesUnaffected(p: Posting, other: Fee, person: Person, ctx: Context)
    requires p.Fresh() && !(other.beginsOn <= p.fee.endsOn <= other.endsOn)
    ensures Eligible(person, p.After(), other, ctx) <==> Eligible(person, p.before, other, ctx)
  {
    if AlreadyBooked(p.before, other, person.account, ctx.feeAccounts) {
      BookedStays(p, other, person.account, ctx.feeAccounts);
    } else if AlreadyBooked(p.After(), other, person.account, ctx.feeAccounts) {
      BookedOnlyBefore(p, other, person.account, ctx.feeAccounts);
    }
  }

  lemma {:induction false} BookedAfterIff(p: Posting, person: Person, ctx: Context)
    requires p.Fresh() && p.fee.regularFee >= 0 && p.fee.beginsOn <= p.fee.endsOn
    requires FeeAccount(person, p.default) in ctx.feeAccounts
    requires person in p.users <==> Eligible(person, p.before, p.fee, ctx)
    ensures Eligible(person, p.After(), p.fee, ctx) <==> Eligible(person, p.before, p.fee, ctx) && p.fee.regularFee == 0
  {
    if AlreadyBooked(p.before, p.fee, person.account, ctx.feeAccounts) {
      BookedStays(p, p.fee, person.account, ctx.feeAccounts);
    } else if p.fee.regularFee == 0 {
      if AlreadyBooked(p.After(), p.fee, person.account, ctx.feeAccounts) {
        BookedOnlyBefore(p, p.fee, person.account, ctx.feeAccounts);
      }
    } else if person in p.users {
      var k :| 0 <= k < |p.users| && p.users[k] == person;
      NewlyBooked(p, k, ctx.feeAccounts);
    }
  }

  /**
   Posting a fee twice: the second posting affects the same users if the fee is nothing, and nobody if
   it is positive.
   */
  lemma {:induction false} SecondPosting(all: seq<Person>, p: Posting, ctx: Context)
    requires p.Fresh() && p.fee.regularFee >= 0 && p.fee.beginsOn <= p.fee.endsOn
    requires multiset(p.users) == multiset(EligibleUsers(all, p.before, p.fee, ctx))
    requires forall person :: person in all ==> FeeAccount(person, p.default) in ctx.feeAccounts
    ensures EligibleUsers(all, p.After(), p.fee, ctx)
            == if p.fee.regularFee == 0 then EligibleUsers(all, p.before, p.fee, ctx) else []
  {
    assert forall person :: person in p.users <==> person in multiset(p.users);
    forall person | person in all
      ensures Eligible(person, p.After(), p.fee, ctx)
              <==> Eligible(person, p.before, p.fee, ctx) && p.fee.regularFee == 0
    {
      assert person in p.users <==> person in EligibleUsers(all, p.before, p.fee, ctx);
      BookedAfterIff(p, person, ctx);
    }
    EligibleAgain(all, p.before, p.After(), p.fee, ctx);
  }

  lemma {:induction false} EligibleAgain(all: seq<Person>, before: Journal, after: Journal, fee: Fee, ctx: Context)
    requires forall person :: person in all ==>
               (Eligible(person, after, fee, ctx) <==> Eligible(person, before, fee, ctx) && fee.regularFee == 0)
    ensures EligibleUsers(all, after, fee, ctx)
            == if fee.regularFee == 0 then EligibleUsers(all, before, fee, ctx) else []
  {
    if all == [] {
    } else {
      assert all[0] in all;
      EligibleAgain(all[1..], before, after, fee, ctx);
    }
  }

  /** A fee of nothing, posted for one user in an empty journal, is posted for the user again. */
  lemma {:induction false} ZeroFeeAgain(person: Person, fee: Fee, ctx: Context, default: nat)
    requires fee.regularFee == 0 && HasToPay(person, ctx, fee)
    ensures
      var p := Posting(Journal(map[], map[]), fee, default, [person], [0], [0], [1]);
      EligibleUsers([person], p.before, fee, ctx) == [person] == EligibleUsers([person], p.After(), fee, ctx)
  {
    var p := Posting(Journal(map[], map[]), fee, default, [person], [0], [0], [1]);
    assert !AlreadyBooked(p.before, fee, person.account, ctx.feeAccounts);
    assert [person][1..] == [] && EligibleUsers([], p.before, fee, ctx) == [] == EligibleUsers([], p.After(), fee, ctx);
    assert [person] + [] == [person];
    if AlreadyBooked(p.After(), fee, person.account, ctx.feeAccounts) {
      BookedOnlyBefore(p, fee, person.account, ctx.feeAccounts);
    }
  }

  // ----- the posting itself -----

  /** A row that would put two splits of one transaction on one account. */
  predicate Clash(p: Person, default: nat) {
    p.account == FeeAccount(p, default)
  }

  function Ids(users: seq<Person>): (r: seq<nat>)
    ensures |r| == |users|
    ensures forall i :: 0 <= i < |users| ==> r[i] == users[i].id
  {
    if users == [] then [] else [users[0].id] + Ids(users[1..])
  }

  class Accounting {
    var validOn: map<nat, int>
    var splits: Splits

    constructor (j: Journal)
      ensures Rows() == j
    {
      validOn, splits := j.validOn, j.splits;
    }

    function Rows(): Journal
      reads this
    {
      Journal(validOn, splits)
    }

    method InsertTransactions(fee: Fee, transactions: seq<nat>)
      modifies this`validOn
      ensures validOn == Valid(old(validOn), transactions, fee.endsOn)
    {
      var n := 0;
      while n < |transactions|
        invariant n <= |transactions|
        invariant validOn == Valid(old(validOn), transactions[..n], fee.endsOn)
      {
        assert transactions[..n + 1] == transactions[..n] + [transactions[n]];
        validOn := validOn[transactions[n] := fee.endsOn];
        n := n + 1;
      }
      assert transactions[..n] == transactions;
    }

    method InsertSplits(ids: seq<nat>, rows: seq<Split>)
      requires |ids| == |rows|
      modifies this`splits
      ensures splits == Inserted(old(splits), ids, rows)
    {
      var n := 0;
      while n < |ids|
        invariant n <= |ids|
        invariant splits == Inserted(old(splits), ids[..n], rows[..n])
      {
        assert ids[..n + 1][..n] == ids[..n] && rows[..n + 1][..n] == rows[..n];
        splits := splits[ids[n] := rows[n]];
        n := n + 1;
      }
      assert ids[..n] == ids && rows[..n] == rows;
    }

    /** The joins on the row number. */
    method NumberedSplits(fee: Fee, default: nat, users: seq<Person>, transactions: seq<nat>)
        returns (credits: seq<Split>, debits: seq<Split>)
      requires |users| == |transactions|
      ensures credits == Credits(users, transactions, fee.regularFee, default)
              && debits == Debits(users, transactions, fee.regularFee)
    {
      credits, debits := [], [];
      var n := 0;
      while n < |users|
        invariant n <= |users| && |credits| == n && |debits| == n
        invariant forall k :: 0 <= k < n ==>
                    credits[k] == Split(-fee.regularFee, FeeAccount(users[k], default), transactions[k])
        invariant forall k :: 0 <= k < n ==> debits[k] == Split(fee.regularFee, users[k].account, transactions[k])
      {
        credits := credits + [Split(-fee.regularFee, FeeAccount(users[n], default), transactions[n])];
        debits := debits + [Split(fee.regularFee, users[n].account, transactions[n])];
        n := n + 1;
      }
    }

    method Insert(p: Posting)
      requires p.Matched() && p.before == Rows()
      modifies this
      ensures Rows() == p.After()
    {
      var credits, debits := NumberedSplits(p.fee, p.default, p.users, p.transactions);
      InsertTransactions(p.fee, p.transactions);
      InsertSplits(p.creditIds, credits);
      InsertSplits(p.debitIds, debits);
    }

    /** Whether some row violates the uniqueness of transaction and account. */
    method FindClash(default: nat, users: seq<Person>) returns (found: bool)
      ensures found <==> exists p :: p in users && Clash(p, default)
    {
      var n := 0;
      while n < |users|
        invariant n <= |users|
        invariant forall i :: 0 <= i < n ==> !Clash(users[i], default)
      {
        if Clash(users[n], default) {
          return true;
        }
        n := n + 1;
      }
      return false;
    }

    /**
     `post_transactions_for_membership_fee`.  `order` is the numbering of the affected users, the other
     sequences are the new ids; nothing relates their orders.  A violated constraint undoes the whole
     posting, and a simulation only names the affected users.
     */
    method Post(all: seq<Person>, fee: Fee, default: nat, ctx: Context, order: seq<Person>, transactions: seq<nat>,
                creditIds: seq<nat>, debitIds: seq<nat>, simulate: bool) returns (affected: Option<seq<nat>>)
      requires multiset(order) == multiset(EligibleUsers(all, Rows(), fee, ctx))
      requires |order| == |transactions| == |creditIds| == |debitIds|
      modifies this
      ensures affected == None <==> !simulate && exists p :: p in order && Clash(p, default)
      ensures affected == None <==> !simulate && exists p :: p in order && CreditedTo(p, default, p.account)
      ensures affected.Some? ==> affected.value == Ids(EligibleUsers(all, old(Rows()), fee, ctx))
      ensures Rows() == if simulate || affected == None then old(Rows())
                        else Posting(old(Rows()), fee, default, order, transactions, creditIds, debitIds).After()
    {
      var users := EligibleUsers(all, Rows(), fee, ctx);
      if !simulate {
        var clash := FindClash(default, order);
        if clash {
          return None;
        }
        Insert(Posting(Rows(), fee, default, order, transactions, creditIds, debitIds));
      }
      return Some(Ids(users));
    }
  }

  // ----- what a posting does for one user -----

  /**
   Each affected user has a new transaction of the last day of the fee with exactly two splits: the fee
   on the own account and its negative on the fee account, whichever numbers were paired.
   */
  lemma {:induction false} EveryoneOnce(all: seq<Person>, p: Posting, ctx: Context, person: Person)
    returns (k: nat, credited: nat)
    requires p.Fresh() && multiset(p.users) == multiset(EligibleUsers(all, p.before, p.fee, ctx))
    requires person in EligibleUsers(all, p.before, p.fee, ctx)
    ensures k < |p.transactions| && p.transactions[k] !in p.before.validOn
    ensures p.transactions[k] in p.After().validOn && p.After().validOn[p.transactions[k]] == p.fee.endsOn
    ensures Pair(OfTransaction(p.After().splits, p.transactions[k]),
                 p.creditIds[k], Split(-p.fee.regularFee, credited, p.transactions[k]),
                 p.debitIds[k], Split(p.fee.regularFee, person.account, p.transactions[k]))
    ensures CreditedTo(person, p.default, credited)
  {
    assert person in multiset(p.users);
    k :| 0 <= k < |p.users| && p.users[k] == person;
    credited := FeeAccount(person, p.default);
    SplitsOfTransaction(p, k);
    assert p.transactions[k] in p.transactions;
  }

  /**
   The fee goes to the building at the end of the fee; without one, to that at its begin; without
   either, to the default.
   */
  predicate CreditedTo(p: Person, default: nat, account: nat) {
    && (p.buildingAtEnd.Some? ==> account == p.buildingAtEnd.value)
    && (p.buildingAtEnd.None? && p.buildingAtBegin.Some? ==> account == p.buildingAtBegin.value)
    && (p.buildingAtEnd.None? && p.buildingAtBegin.None? ==> account == default)
  }

  /** A member who moves within the month pays to the building at the end. */
  lemma MovedWithinMonth(person: Person, default: nat)
    requires person.buildingAtBegin == Some(30) && person.buildingAtEnd == Some(20)
    ensures FeeAccount(person, default) == 20
  {}

  /** The account of a user, if it is nobody else's and no fee account. */
  ghost predicate OwnAccount(p: Posting, k: nat)
    requires k < |p.users|
  {
    forall n :: 0 <= n < |p.users| ==>
      FeeAccount(p.users[n], p.default) != p.users[k].account && (p.users[n].account == p.users[k].account ==> n == k)
  }

  /** Of a single user, the account is its own if it is no fee account. */
  lemma OneOwnAccount(p: Posting)
    requires |p.users| == 1 && FeeAccount(p.users[0], p.default) != p.users[0].account
    ensures OwnAccount(p, 0)
  {
  }

  lemma {:induction false} RowOfAccount(p: Posting, k: nat, i: nat)
    requires p.Fresh() && k < |p.users| && OwnAccount(p, k)
    ensures p.Row(i).Some? && p.Row(i).value.account == p.users[k].account
            <==> (p.OldRow(i).Some? && p.OldRow(i).value.account == p.users[k].account) || i == p.debitIds[k]
    ensures p.OldRow(i).Some? ==> p.Row(i) == p.OldRow(i)
  {
    RowCases(p, i);
    DebitAt(p, k);
  }

  lemma {:induction false} SumOneMore(m: Splits, rest: Splits, x: nat)
    requires x in m && x !in rest && m.Keys == rest.Keys + {x}
    requires forall i :: i in rest ==> m[i] == rest[i]
    ensures Sum(m) == Sum(rest) + m[x].amount
  {
    SumRemove(m, x);
    assert m - {x} == rest;
  }

  /** The account of an affected user is debited with the fee, once. */
  lemma {:induction false} AccountPaysOnce(p: Posting, k: nat)
    requires p.Fresh() && k < |p.users| && OwnAccount(p, k)
    ensures Sum(OfAccount(p.After().splits, p.users[k].account))
            == Sum(OfAccount(p.before.splits, p.users[k].account)) + p.fee.regularFee
  {
    var now, was := OfAccount(p.After().splits, p.users[k].account), OfAccount(p.before.splits, p.users[k].account);
    var x := p.debitIds[k];
    DebitAt(p, k);
    forall i: nat
      ensures i in now <==> i in was.Keys + {x}
      ensures i in was ==> now[i] == was[i]
    {
      RowOfAccount(p, k, i);
    }
    SumOneMore(now, was, x);
  }

  // ----- the books after a posting -----

  /** The journal as tables of the books, with some of the transactions confirmed. */
  function BooksOf(j: Journal, confirmed: set<nat>): Tables {
    Tables(map t | t in j.validOn :: t in confirmed, j.splits)
  }

  ghost predicate AllOn(m: Splits, accounts: seq<nat>) {
    forall i :: i in m ==> m[i].account in accounts
  }

  ghost predicate NoClash(p: Posting) {
    forall u :: u in p.users ==> !Clash(u, p.default)
  }

  lemma {:induction false} NewAccounts(p: Posting, i: nat, j: nat, k: nat, n: nat)
    requires p.Fresh() && NoClash(p) && k < |p.users| && n < |p.users| && IsNew(p, i, k) && IsNew(p, j, n) && i != j
    requires p.Row(i).Some? && p.Row(j).Some? && p.Row(i).value.transaction == p.Row(j).value.transaction
    ensures p.Row(i).value.account != p.Row(j).value.account
  {
    NewRowOf(p, k, i, k);
    NewRowOf(p, k, j, n);
    CreditAt(p, k);
    DebitAt(p, k);
    assert p.users[k] in p.users;
  }

  /** No two splits of a transaction are on one account, of the old ones or of the new ones. */
  lemma {:induction false} AccountsApart(p: Posting, i: nat, j: nat)
    requires p.Fresh() && NoClash(p) && i != j && p.Row(i).Some? && p.Row(j).Some?
    requires forall a, b :: a in p.before.splits && b in p.before.splits && a != b
               && p.before.splits[a].transaction == p.before.splits[b].transaction
               ==> p.before.splits[a].account != p.before.splits[b].account
    requires p.Row(i).value.transaction == p.Row(j).value.transaction
    ensures p.Row(i).value.account != p.Row(j).value.account
  {
    RowCases(p, i);
    RowCases(p, j);
    if p.OldRow(i).None? && p.OldRow(j).None? {
      var k :| 0 <= k < |p.users| && IsNew(p, i, k);
      var n :| 0 <= n < |p.users| && IsNew(p, j, n);
      NewAccounts(p, i, j, k, n);
    } else if p.OldRow(i).None? {
      NewIsNotOld(p, i, j);
    } else if p.OldRow(j).None? {
      NewIsNotOld(p, j, i);
    }
  }

  lemma {:induction false} NewIsNotOld(p: Posting, i: nat, j: nat)
    requires p.Fresh() && p.Row(i).Some? && p.OldRow(i).None? && p.OldRow(j).Some?
    ensures p.Row(j) == p.OldRow(j) && p.Row(i).value.transaction != p.Row(j).value.transaction
  {
    RowCases(p, i);
    RowCases(p, j);
    var k :| 0 <= k < |p.users| && IsNew(p, i, k);
    NewRowOf(p, k, i, k);
    assert p.transactions[k] in p.transactions;
  }

  /**
   A posting without clashes passes the deferred trigger and keeps the books: every transaction still has
   splits that cancel out, so the balances of all accounts add up to zero afterwards.
   */
  lemma {:induction false} PostingKeepsBooks(p: Posting, confirmed: set<nat>, confirmed': set<nat>)
    requires p.Fresh() && NoClash(p) && Books.Inv(BooksOf(p.before, confirmed))
    ensures Accepted(BooksOf(p.before, confirmed), BooksOf(p.After(), confirmed'))
    ensures Books.Inv(BooksOf(p.After(), confirmed'))
    ensures forall accounts: seq<nat> ::
              NoDuplicates(accounts) && AllOn(p.After().splits, accounts) ==> Balances(p.After().splits, accounts) == 0
  {
    var before, after := BooksOf(p.before, confirmed), BooksOf(p.After(), confirmed');
    KeysAfter(p, confirmed, confirmed');
    forall t
      ensures OfTransaction(after.splits, t) != map[] ==>
                |OfTransaction(after.splits, t)| >= 2 && Sum(OfTransaction(after.splits, t)) == 0
      ensures Checked(before.splits, after.splits, t) ==> TriggerPasses(after, t)
    {
      PostedAccepted(p, t);
      if Checked(before.splits, after.splits, t) {
        CheckedIsNew(p, t);
      }
    }
    forall accounts: seq<nat> | NoDuplicates(accounts) && AllOn(p.After().splits, accounts)
      ensures Balances(p.After().splits, accounts) == 0
    {
      BooksBalance(after, accounts);
    }
  }

  /** The trigger looks at new transactions only. */
  lemma {:induction false} CheckedIsNew(p: Posting, t: nat)
    requires p.Fresh() && Checked(p.before.splits, p.After().splits, t)
    ensures t in p.transactions
  {
    var before, after := p.before.splits, p.After().splits;
    var i :| && (i in before || i in after) && (i in before && i in after ==> before[i] != after[i])
             && t == (if i in after then after[i].transaction else before[i].transaction);
    RowCases(p, i);
    var k :| 0 <= k < |p.users| && IsNew(p, i, k);
    NewRowOf(p, k, i, k);
  }

  lemma {:induction false} KeysAfter(p: Posting, confirmed: set<nat>, confirmed': set<nat>)
    requires p.Fresh() && NoClash(p) && KeysOk(BooksOf(p.before, confirmed))
    ensures KeysOk(BooksOf(p.After(), confirmed'))
  {
    var after := BooksOf(p.After(), confirmed');
    forall i | i in after.splits
      ensures after.splits[i].transaction in after.transactions
    {
      RowCases(p, i);
      if p.OldRow(i).None? {
        var k :| 0 <= k < |p.users| && IsNew(p, i, k);
        NewRowOf(p, k, i, k);
        assert p.transactions[k] in p.transactions;
      }
    }
    forall i, j | i in after.splits && j in after.splits && i != j
      && after.splits[i].transaction == after.splits[j].transaction
      ensures after.splits[i].account != after.splits[j].account
    {
      AccountsApart(p, i, j);
    }
  }
}
