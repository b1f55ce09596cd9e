/**
 Members in default of payment: `Account.in_default_days` of `pycroft/model/finance.py` and the
 selection in `pycroft/lib/finance/payment_in_default.py`.  Dates are day numbers, instants and
 durations are in seconds, and the instant of a date is its midnight.
 */
module Defaults {
  import opened Wrappers
  import opened Fees

  /** A split of the account of a user: its amount and the day its transaction is valid on. */
  datatype Booking = Booking(amount: int, validOn: int)

  function Balance(s: seq<Booking>): int {
    if s == [] then 0 else Balance(s[..|s| - 1]) + s[|s| - 1].amount
  }

  ghost predicate ByDay(s: seq<Booking>) {
    forall i, j :: 0 <= i < j < |s| ==> s[i].validOn <= s[j].validOn
  }

  /** The running balance turned positive with the k-th split and has been so ever since. */
  ghost predicate PositiveSince(s: seq<Booking>, k: int) {
    && 0 <= k < |s|
    && Balance(s[..k]) <= 0
    && forall i :: k < i <= |s| ==> Balance(s[..i]) > 0
  }

  function Abs(x: int): nat {
    if x < 0 then -x else x
  }

  // ----- days in default -----

  /** What the scan knows after the splits: the day of the first overdue one. */
  function FirstOverdue(s: seq<Booking>): Option<int> {
    if s == [] || Balance(s) <= 0 then None
    else
      var earlier := FirstOverdue(s[..|s| - 1]);
      if earlier.None? then Some(s[|s| - 1].validOn) else earlier
  }

  /** `in_default_days`. */
  function InDefaultDays(s: seq<Booking>, today: int): nat {
    match FirstOverdue(s)
    case None => 0
    case Some(day) => Abs(day - today)
  }

  method CountInDefaultDays(splits: seq<Booking>, today: int) returns (days: nat)
    ensures days == InDefaultDays(splits, today)
  {
    var firstOverdue: Option<int> := None;
    var splitSum := 0;
    var n := 0;
    while n < |splits|
      invariant n <= |splits|
      invariant splitSum == Balance(splits[..n])
      invariant firstOverdue == FirstOverdue(splits[..n])
    {
      assert splits[..n + 1][..n] == splits[..n];
      splitSum := splitSum + splits[n].amount;
      if splitSum > 0 {
        if firstOverdue == None {
          firstOverdue := Some(splits[n].validOn);
        }
      } else {
        firstOverdue := None;
      }
      n := n + 1;
    }
    assert splits[..n] == splits;
    if firstOverdue == None {
      return 0;
    }
    return Abs(firstOverdue.value - today);
  }

  /** The day is that of the split with which the balance turned positive for the last time. */
  lemma {:induction false} FirstOverdueMeaning(s: seq<Booking>)
    ensures FirstOverdue(s) == None <==> Balance(s) <= 0
    ensures FirstOverdue(s).Some? ==> exists k :: PositiveSince(s, k) && FirstOverdue(s) == Some(s[k].validOn)
  {
    if s != [] && Balance(s) > 0 {
      var shorter, last := s[..|s| - 1], |s| - 1;
      FirstOverdueMeaning(shorter);
      assert s[..|s|] == s;
      if FirstOverdue(shorter) == None {
        assert PositiveSince(s, last);
      } else {
        var k :| PositiveSince(shorter, k) && FirstOverdue(shorter) == Some(shorter[k].validOn);
        assert shorter[..k] == s[..k];
        assert forall i :: k < i < |s| ==> shorter[..i] == s[..i];
        assert PositiveSince(s, k);
      }
    }
  }

  lemma PositiveSinceUnique(s: seq<Booking>, k: int, l: int)
    requires PositiveSince(s, k) && PositiveSince(s, l)
    ensures k == l
  {
  }

  /** The splits before the i-th are those up to some moment of the last `days` days. */
  predicate UpToRecently(s: seq<Booking>, today: int, days: nat, i: int) {
    i == |s| || (0 <= i < |s| && s[i].validOn > today - days)
  }

  /** The balance is positive after every such stretch of splits. */
  ghost predicate PositiveRecently(s: seq<Booking>, today: int, days: nat) {
    forall i :: 0 <= i <= |s| && UpToRecently(s, today, days, i) ==> Balance(s[..i]) > 0
  }

  /**
   A member is at least `days` days in default exactly when the balance has been positive throughout
   the last `days` days, whatever it was before.
   */
  lemma {:induction false} InDefaultIff(s: seq<Booking>, today: int, days: nat)
    requires ByDay(s) && (forall b :: b in s ==> b.validOn <= today) && days > 0
    ensures InDefaultDays(s, today) >= days <==> PositiveRecently(s, today, days)
  {
    FirstOverdueMeaning(s);
    assert s[..|s|] == s && UpToRecently(s, today, days, |s|);
    if Balance(s) > 0 {
      var k :| PositiveSince(s, k) && FirstOverdue(s) == Some(s[k].validOn);
      assert s[k] in s && InDefaultDays(s, today) == today - s[k].validOn;
      if InDefaultDays(s, today) < days {
        assert UpToRecently(s, today, days, k);
      } else {
        LaterThan(s, today, days, k);
      }
    }
  }

  lemma LaterThan(s: seq<Booking>, today: int, days: nat, k: int)
    requires ByDay(s) && PositiveSince(s, k) && s[k].validOn <= today - days
    ensures PositiveRecently(s, today, days)
  {
    forall i | 0 <= i <= |s| && UpToRecently(s, today, days, i)
      ensures Balance(s[..i]) > 0
    {
      assert i > k;
    }
  }

  lemma {:induction false} RunningBalance(x: Booking, y: Booking, z: Booking)
    ensures FirstOverdue([x]) == if x.amount > 0 then Some(x.validOn) else None
    ensures Balance([x, y]) == x.amount + y.amount && Balance([x, y, z]) == x.amount + y.amount + z.amount
    ensures FirstOverdue([x, y])
            == if Balance([x, y]) <= 0 then None
               else if x.amount > 0 then Some(x.validOn) else Some(y.validOn)
    ensures FirstOverdue([x, y, z])
            == if Balance([x, y, z]) <= 0 then None
               else if Balance([x, y]) > 0 then FirstOverdue([x, y]) else Some(z.validOn)
  {
    assert [x, y, z][..2] == [x, y] && [x, y][..1] == [x] && [x][..0] == [];
    assert Balance([x]) == x.amount;
  }

  /** Splits of one day in another order can change the count: the query leaves ties open. */
  lemma {:induction false} TiesMatter(day: int, today: int)
    requires day + 1 <= today
    ensures
      var before, pay, fee := Booking(5, day), Booking(-5, day + 1), Booking(5, day + 1);
      && InDefaultDays([before, pay, fee], today) == today - day - 1
      && InDefaultDays([before, fee, pay], today) == today - day
  {
    var before, pay, fee := Booking(5, day), Booking(-5, day + 1), Booking(5, day + 1);
    RunningBalance(before, pay, fee);
    RunningBalance(before, fee, pay);
  }

  // ----- the fee that applies -----

  datatype FeeResult = Found(fee: Fee) | NoFee | SeveralFees

  /** `get_membership_fee_for_date` compares an instant with the midnights of two dates. */
  predicate Covers(fee: Fee, at: int) {
    fee.beginsOn * DAY <= at <= fee.endsOn * DAY
  }

  function FeesAt(fees: seq<Fee>, at: int): (r: seq<Fee>)
    ensures forall f :: f in r <==> f in fees && Covers(f, at)
  {
    if fees == [] then []
    else if Covers(fees[0], at) then [fees[0]] + FeesAt(fees[1..], at)
    else FeesAt(fees[1..], at)
  }

  /** `get_last_applied_membership_fee`; of two fees with the same end the former. */
  function LastApplied(fees: seq<Fee>, now: int): (r: Option<Fee>)
    ensures r == None <==> forall f :: f in fees ==> f.endsOn * DAY > now
    ensures r.Some? ==> r.value in fees && r.value.endsOn * DAY <= now
    ensures r.Some? ==> forall f :: f in fees && f.endsOn * DAY <= now ==> f.endsOn <= r.value.endsOn
  {
    if fees == [] then None else
      var rest := LastApplied(fees[1..], now);
      if fees[0].endsOn * DAY > now then rest
      else if rest.Some? && rest.value.endsOn > fees[0].endsOn then rest
      else Some(fees[0])
  }

  /** The fee of an instant, or the last applied one; two fees for an instant are an error. */
  function FeeFor(fees: seq<Fee>, at: int, now: int): FeeResult {
    var found := FeesAt(fees, at);
    if |found| == 1 then Found(found[0])
    else if |found| > 1 then SeveralFees
    else match LastApplied(fees, now)
      case None => NoFee
      case Some(fee) => Found(fee)
  }

  /** One of the listed fees, and only one, covers the instant. */
  ghost predicate OnlyCover(fees: seq<Fee>, at: int, i: int) {
    0 <= i < |fees| && Covers(fees[i], at) && forall j :: 0 <= j < |fees| && j != i ==> !Covers(fees[j], at)
  }

  /** It is the first of those that ended last, of all that have ended. */
  ghost predicate EndedLast(fees: seq<Fee>, now: int, i: int) {
    && 0 <= i < |fees| && fees[i].endsOn * 86400 <= now
    && forall j :: 0 <= j < |fees| && fees[j].endsOn * 86400 <= now ==>
         fees[j].endsOn < fees[i].endsOn || (fees[j].endsOn == fees[i].endsOn && i <= j)
  }

  /** The deadlines of the i-th fee decide. */
  ghost predicate Decides(fees: seq<Fee>, at: int, now: int, i: int) {
    || OnlyCover(fees, at, i)
    || ((forall f :: f in fees ==> !Covers(f, at)) && EndedLast(fees, now, i))
  }

  ghost predicate SeveralCover(fees: seq<Fee>, at: int) {
    exists i, j :: 0 <= i < j < |fees| && Covers(fees[i], at) && Covers(fees[j], at)
  }

  /** No fee covers the instant, and none has ended. */
  ghost predicate NoneApplies(fees: seq<Fee>, at: int, now: int) {
    forall f :: f in fees ==> !Covers(f, at) && f.endsOn * 86400 > now
  }

  ghost predicate NoneDecides(fees: seq<Fee>, at: int, now: int) {
    SeveralCover(fees, at) || NoneApplies(fees, at, now)
  }

  lemma {:induction false} FeesAtCount(fees: seq<Fee>, at: int)
    ensures |FeesAt(fees, at)| == 0 <==> forall f :: f in fees ==> !Covers(f, at)
    ensures |FeesAt(fees, at)| == 1 <==> exists i :: OnlyCover(fees, at, i)
    ensures forall i :: OnlyCover(fees, at, i) ==> FeesAt(fees, at) == [fees[i]]
  {
    if fees == [] {
    } else {
      var rest := fees[1..];
      FeesAtCount(rest, at);
      assert forall i :: 0 < i < |fees| ==> fees[i] == rest[i - 1];
      if Covers(fees[0], at) {
        assert forall i :: OnlyCover(fees, at, i) ==> i == 0;
        assert forall k :: 0 <= k < |rest| ==> rest[k] == fees[k + 1];
        if FeesAt(rest, at) == [] {
          assert OnlyCover(fees, at, 0);
        }
      } else {
        assert forall i :: i > 0 ==> (OnlyCover(fees, at, i) <==> OnlyCover(rest, at, i - 1));
        if i :| OnlyCover(rest, at, i) {
          assert OnlyCover(fees, at, i + 1);
        }
      }
    }
  }

  lemma {:induction false} LastAppliedFirst(fees: seq<Fee>, now: int)
    ensures LastApplied(fees, now).Some? ==>
              exists i :: EndedLast(fees, now, i) && LastApplied(fees, now) == Some(fees[i])
  {
    if fees != [] && LastApplied(fees, now).Some? {
      var rest := LastApplied(fees[1..], now);
      LastAppliedFirst(fees[1..], now);
      if LastApplied(fees, now) == Some(fees[0]) && !(rest.Some? && rest.value.endsOn > fees[0].endsOn)
         && fees[0].endsOn * DAY <= now {
        assert EndedLast(fees, now, 0);
      } else {
        var i :| EndedLast(fees[1..], now, i) && rest == Some(fees[1..][i]);
        assert EndedLast(fees, now, i + 1);
      }
    }
  }

  /** Which fee decides, and when none does. */
  lemma {:induction false} FeeForMeaning(fees: seq<Fee>, at: int, now: int)
    ensures FeeFor(fees, at, now).Found? <==> exists i :: Decides(fees, at, now, i)
    ensures forall i :: Decides(fees, at, now, i) ==> FeeFor(fees, at, now) == Found(fees[i])
    ensures !FeeFor(fees, at, now).Found? <==> NoneDecides(fees, at, now)
  {
    FeesAtCount(fees, at);
    LastAppliedFirst(fees, now);
    forall i | EndedLast(fees, now, i)
      ensures LastApplied(fees, now) == Some(fees[i])
    {
      EndedLastUnique(fees, now, i);
    }
    CoverCases(fees, at);
    if FeeFor(fees, at, now).Found? {
      if |FeesAt(fees, at)| == 1 {
        var i :| OnlyCover(fees, at, i);
        assert Decides(fees, at, now, i);
      } else {
        var i :| EndedLast(fees, now, i) && LastApplied(fees, now) == Some(fees[i]);
        assert Decides(fees, at, now, i);
      }
    }
  }

  lemma EndedLastUnique(fees: seq<Fee>, now: int, i: int)
    requires EndedLast(fees, now, i)
    ensures LastApplied(fees, now) == Some(fees[i])
  {
    LastAppliedFirst(fees, now);
    assert fees[i] in fees;
    var k :| EndedLast(fees, now, k) && LastApplied(fees, now) == Some(fees[k]);
    assert k == i;
  }

  lemma CoverCases(fees: seq<Fee>, at: int)
    ensures SeveralCover(fees, at) <==> (exists f :: f in fees && Covers(f, at)) && !exists i :: OnlyCover(fees, at, i)
  {
    if f :| f in fees && Covers(f, at) {
      var i :| 0 <= i < |fees| && fees[i] == f;
      if !OnlyCover(fees, at, i) {
        var j :| 0 <= j < |fees| && j != i && Covers(fees[j], at);
        assert SeveralCover(fees, at) by {
          if i < j {
            assert Covers(fees[i], at) && Covers(fees[j], at);
          } else {
            assert Covers(fees[j], at) && Covers(fees[i], at);
          }
        }
      }
    }
  }

  /** The comparison means the days of the fee, except after midnight of the last one. */
  lemma {:induction false} CoversIff(fee: Fee, at: int)
    requires fee.beginsOn <= fee.endsOn
    ensures Covers(fee, at) == (fee.beginsOn <= at / DAY <= fee.endsOn)
            <==> !(at / DAY == fee.endsOn && at % DAY != 0)
  {
    var day, rest := at / DAY, at % DAY;
    assert at == day * 86400 + rest && 0 <= rest < 86400;
  }

  /** At noon of its last day, a fee of 31 days does not cover the instant. */
  lemma {:induction false} NoonUncovered(fee: Fee)
    requires fee.beginsOn == 0 && fee.endsOn == 30
    ensures 30 * DAY + 43200 == 2635200 && !Covers(fee, 2635200) && fee.beginsOn <= 2635200 / DAY <= fee.endsOn
  {
    CoversIff(fee, 2635200);
    assert 2635200 / 86400 == 30;
  }

  /** After midnight of its last day a fee no longer covers the day it ends on. */
  lemma {:induction false} LastDayUncovered(fees: seq<Fee>, last: int, at: int)
    requires last * DAY < at < (last + 1) * DAY
    requires forall f :: f in fees ==> f.endsOn <= last || f.beginsOn > last
    ensures FeesAt(fees, at) == []
  {
    if fees == [] {
    } else {
      assert fees[0] in fees;
      assert fees[0].endsOn * DAY <= last * DAY || fees[0].beginsOn * DAY >= (last + 1) * DAY;
      LastDayUncovered(fees[1..], last, at);
    }
  }

  // ----- whom to block and whose membership to end -----

  /** `lastRelease` is the end of the latest default membership, if there is one and it has an end. */
  datatype Member = Member(id: nat, paysFee: bool, splits: seq<Booking>, inDefault: bool, lastRelease: Option<int>)

  /** `get_negative_members`. */
  predicate Negative(u: Member) {
    u.paysFee && Balance(u.splits) > 0
  }

  datatype Clock = Clock(now: int, today: int)

  function Days(u: Member, c: Clock): nat {
    InDefaultDays(u.splits, c.today)
  }

  function FeeOf(u: Member, fees: seq<Fee>, c: Clock): FeeResult {
    FeeFor(fees, c.now - Days(u, c) * DAY, c.now)
  }

  predicate Released(u: Member, c: Clock) {
    u.lastRelease.Some? && u.lastRelease.value >= c.now - 7 * DAY
  }

  predicate PastDeadline(u: Member, fee: Fee, c: Clock) {
    Days(u, c) >= DaysOf(fee.paymentDeadline)
  }

  predicate ToBlock(u: Member, fee: Fee, c: Clock) {
    PastDeadline(u, fee, c) && !Released(u, c) && !u.inDefault
  }

  predicate ToTerminate(u: Member, fee: Fee, c: Clock) {
    && Days(u, c) >= DaysOf(fee.paymentDeadlineFinal)
    && (PastDeadline(u, fee, c) ==> !Released(u, c) && u.inDefault)
  }

  predicate Resolved(u: Member, fees: seq<Fee>, c: Clock) {
    FeeOf(u, fees, c).Found?
  }

  predicate IsBlocked(u: Member, fees: seq<Fee>, c: Clock) {
    Negative(u) && Resolved(u, fees, c) && ToBlock(u, FeeOf(u, fees, c).fee, c)
  }

  predicate IsTerminated(u: Member, fees: seq<Fee>, c: Clock) {
    Negative(u) && Resolved(u, fees, c) && ToTerminate(u, FeeOf(u, fees, c).fee, c)
  }

  // ----- the selection, from the splits, the deadlines and the last default membership -----

  /** The instant as many days ago as the member is in default. */
  function OverdueSince(u: Member, c: Clock): int {
    c.now - InDefaultDays(u.splits, c.today) * 86400
  }

  /** The latest default membership ended within a week, or is to end later. */
  predicate LeftThisWeek(u: Member, c: Clock) {
    u.lastRelease.Some? && c.now - u.lastRelease.value <= 604800
  }

  /** A debtor past the deadline who is not in the group, and did not leave it this week. */
  predicate MustBlock(u: Member, fee: Fee, c: Clock) {
    && InDefaultDays(u.splits, c.today) >= fee.paymentDeadline / 86400
    && !u.inDefault && !LeftThisWeek(u, c)
  }

  /**
   A debtor past the final deadline, who, if past the deadline as well, is in the group and did not leave
   an earlier membership in it this week.
   */
  predicate MustEnd(u: Member, fee: Fee, c: Clock) {
    && InDefaultDays(u.splits, c.today) >= fee.paymentDeadlineFinal / 86400
    && (|| InDefaultDays(u.splits, c.today) < fee.paymentDeadline / 86400
        || (u.inDefault && !LeftThisWeek(u, c)))
  }

  /** What is selected, and with which deadlines. */
  lemma {:induction false} SelectionMeaning(u: Member, fees: seq<Fee>, c: Clock, i: int)
    requires Decides(fees, OverdueSince(u, c), c.now, i)
    ensures Resolved(u, fees, c) && FeeOf(u, fees, c).fee == fees[i]
    ensures IsBlocked(u, fees, c) <==> u.paysFee && Balance(u.splits) > 0 && MustBlock(u, fees[i], c)
    ensures IsTerminated(u, fees, c) <==> u.paysFee && Balance(u.splits) > 0 && MustEnd(u, fees[i], c)
    ensures EndDate(u, fees[i], c) == OverdueSince(u, c) + fees[i].paymentDeadlineFinal
  {
    FeeForMeaning(fees, OverdueSince(u, c), c.now);
  }

  lemma {:induction false} ResolvedMeaning(u: Member, fees: seq<Fee>, c: Clock)
    ensures Resolved(u, fees, c) <==> exists i :: Decides(fees, OverdueSince(u, c), c.now, i)
    ensures !Resolved(u, fees, c) <==> NoneDecides(fees, OverdueSince(u, c), c.now)
  {
    assert FeeOf(u, fees, c) == FeeFor(fees, OverdueSince(u, c), c.now);
    FeeForMeaning(fees, OverdueSince(u, c), c.now);
  }

  datatype Selection = Selection(blocked: set<Member>, terminated: set<Member>) | Failed

  method NegativeMembers(users: seq<Member>) returns (negative: seq<Member>)
    ensures forall u :: u in negative <==> u in users && Negative(u)
  {
    negative := [];
    var n := 0;
    while n < |users|
      invariant n <= |users|
      invariant forall u :: u in negative <==> u in users[..n] && Negative(u)
    {
      if Negative(users[n]) {
        negative := negative + [users[n]];
      }
      n := n + 1;
    }
  }

  /** The outcome, from what is known of the members. */
  ghost predicate RightlySelected(users: seq<Member>, fees: seq<Fee>, c: Clock, r: Selection) {
    match r
    case Failed =>
      exists u :: u in users && u.paysFee && Balance(u.splits) > 0 && NoneDecides(fees, OverdueSince(u, c), c.now)
    case Selection(blocked, terminated) =>
      && (forall u :: u in blocked + terminated ==> u in users && u.paysFee && Balance(u.splits) > 0)
      && (forall u :: u in users && u.paysFee && Balance(u.splits) > 0 ==>
            !NoneDecides(fees, OverdueSince(u, c), c.now))
      && (forall u, i ::
            u in users && u.paysFee && Balance(u.splits) > 0 && Decides(fees, OverdueSince(u, c), c.now, i) ==>
              && (u in blocked <==> MustBlock(u, fees[i], c))
              && (u in terminated <==> MustEnd(u, fees[i], c)))
  }

  lemma {:induction false} RightlyFailed(users: seq<Member>, u: Member, fees: seq<Fee>, c: Clock)
    requires u in users && Negative(u) && !Resolved(u, fees, c)
    ensures RightlySelected(users, fees, c, Failed)
  {
    ResolvedMeaning(u, fees, c);
  }

  lemma {:induction false} RightlyDone(users: seq<Member>, fees: seq<Fee>, c: Clock, blocked: set<Member>,
                                       terminated: set<Member>)
    requires forall u :: u in users && Negative(u) ==> Resolved(u, fees, c)
    requires forall u :: u in blocked <==> u in users && IsBlocked(u, fees, c)
    requires forall u :: u in terminated <==> u in users && IsTerminated(u, fees, c)
    ensures RightlySelected(users, fees, c, Selection(blocked, terminated))
  {
    forall u | u in users && u.paysFee && Balance(u.splits) > 0
      ensures !NoneDecides(fees, OverdueSince(u, c), c.now)
    {
      ResolvedMeaning(u, fees, c);
    }
    forall u, i | u in users && u.paysFee && Balance(u.splits) > 0 && Decides(fees, OverdueSince(u, c), c.now, i)
      ensures (u in blocked <==> MustBlock(u, fees[i], c)) && (u in terminated <==> MustEnd(u, fees[i], c))
    {
      SelectionMeaning(u, fees, c, i);
    }
  }

  /**
   `get_users_with_payment_in_default`: it fails if some debtor has no fee or several; otherwise the
   two sets are exactly the members described.
   */
  method SelectInDefault(users: seq<Member>, fees: seq<Fee>, c: Clock) returns (r: Selection)
    ensures r.Failed? <==> exists u :: u in users && Negative(u) && !Resolved(u, fees, c)
    ensures r.Selection? ==> forall u :: u in r.blocked <==> u in users && IsBlocked(u, fees, c)
    ensures r.Selection? ==> forall u :: u in r.terminated <==> u in users && IsTerminated(u, fees, c)
    ensures RightlySelected(users, fees, c, r)
  {
    var negative := NegativeMembers(users);
    var blocked: set<Member>, terminated: set<Member> := {}, {};
    var n := 0;
    while n < |negative|
      invariant n <= |negative|
      invariant forall u :: u in negative[..n] ==> Resolved(u, fees, c)
      invariant forall u :: u in blocked <==> u in negative[..n] && IsBlocked(u, fees, c)
      invariant forall u :: u in terminated && u !in blocked <==> u in negative[..n] && IsTerminated(u, fees, c)
    {
      var u := negative[n];
      assert u in negative && negative[..n + 1] == negative[..n] + [u];
      n := n + 1;
      var inDefaultDays := CountInDefaultDays(u.splits, c.today);
      var found := FeeFor(fees, c.now - inDefaultDays * DAY, c.now);
      if !found.Found? {
        RightlyFailed(users, u, fees, c);
        return Failed;
      }
      var fee := found.fee;
      if inDefaultDays >= DaysOf(fee.paymentDeadline) {
        if u.lastRelease.Some? && u.lastRelease.value >= c.now - 7 * DAY {
          continue;
        }
        if !u.inDefault {
          blocked := blocked + {u};
        }
      }
      if inDefaultDays >= DaysOf(fee.paymentDeadlineFinal) {
        terminated := terminated + {u};
      }
    }
    assert negative[..n] == negative;
    RightlyDone(users, fees, c, blocked, terminated - blocked);
    return Selection(blocked, terminated - blocked);
  }

  lemma NeverBoth(u: Member, fees: seq<Fee>, c: Clock)
    ensures !(IsBlocked(u, fees, c) && IsTerminated(u, fees, c))
  {
  }

  // ----- the end of a terminated membership -----

  /** The end date given to `move_out`. */
  function EndDate(u: Member, fee: Fee, c: Clock): int {
    c.now - (Days(u, c) * DAY - fee.paymentDeadlineFinal)
  }

  /** The end is the final deadline counted from the overdue day, at the current time of day. */
  lemma {:induction false} EndDateMeaning(u: Member, fee: Fee, c: Clock, k: int)
    requires PositiveSince(u.splits, k) && u.splits[k].validOn <= c.today
    ensures EndDate(u, fee, c) == u.splits[k].validOn * DAY + (c.now - c.today * DAY) + fee.paymentDeadlineFinal
  {
    FirstOverdueMeaning(u.splits);
    assert u.splits[..|u.splits|] == u.splits;
    var l :| PositiveSince(u.splits, l) && FirstOverdue(u.splits) == Some(u.splits[l].validOn);
    PositiveSinceUnique(u.splits, k, l);
  }

  /**
   The end of a terminated membership lies in the future exactly when the member has been in default
   for the whole days of the final deadline and the deadline has a further part of a day.
   */
  lemma FutureEndIff(u: Member, fee: Fee, c: Clock)
    requires ToTerminate(u, fee, c)
    ensures EndDate(u, fee, c) > c.now
            <==> Days(u, c) == DaysOf(fee.paymentDeadlineFinal) && fee.paymentDeadlineFinal % DAY != 0
  {
    assert fee.paymentDeadlineFinal == DaysOf(fee.paymentDeadlineFinal) * DAY + fee.paymentDeadlineFinal % DAY;
    assert 0 <= fee.paymentDeadlineFinal % DAY < DAY;
  }

  /** A final deadline of a day and a half, and a member who is in default for a day. */
  lemma {:induction false} FutureEnd(fee: Fee)
    requires fee.paymentDeadline == 0 && fee.paymentDeadlineFinal == 129600
    ensures
      var u, c := Member(0, true, [Booking(1, 0)], true, None), Clock(86400, 1);
      ToTerminate(u, fee, c) && EndDate(u, fee, c) == 129600 && EndDate(u, fee, c) > c.now
  {
    var u, c := Member(0, true, [Booking(1, 0)], true, None), Clock(86400, 1);
    RunningBalance(Booking(1, 0), Booking(0, 0), Booking(0, 0));
    assert Days(u, c) == 1;
  }
}
