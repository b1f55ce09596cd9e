/**
 The splits of one day come in any order (`pycroft/model/finance.py` sorts by day only).  When do the days
 in default depend on it?
 */
module Ties {
  import opened Wrappers
  import opened Defaults

  // ----- weighted sums -----

  type Weight = Booking -> int

  /** The sum of the weights. */
  function Total(s: seq<Booking>, w: Weight): int {
    if s == [] then 0 else Total(s[..|s| - 1], w) + w(s[|s| - 1])
  }

  function Amount(): Weight {
    (b: Booking) => b.amount
  }

  /** Amounts up to the end of a day. */
  function UpTo(day: int): Weight {
    (b: Booking) => if b.validOn <= day then b.amount else 0
  }

  function OnDay(day: int): Weight {
    (b: Booking) => if b.validOn == day then b.amount else 0
  }

  /** Negative amounts of a day. */
  function NegativeOn(day: int): Weight {
    (b: Booking) => if b.validOn == day && b.amount < 0 then b.amount else 0
  }

  lemma {:induction false} BalanceIsTotal(s: seq<Booking>)
    ensures Balance(s) == Total(s, Amount())
  {
    if s == [] {
    } else {
      BalanceIsTotal(s[..|s| - 1]);
    }
  }

  lemma {:induction false} TotalConcat(s: seq<Booking>, t: seq<Booking>, w: Weight)
    ensures Total(s + t, w) == Total(s, w) + Total(t, w)
  {
    if t == [] {
      assert s + t == s;
    } else {
      var u := s + t;
      assert u[..|u| - 1] == s + t[..|t| - 1] && u[|u| - 1] == t[|t| - 1];
      TotalConcat(s, t[..|t| - 1], w);
    }
  }

  lemma {:induction false} TotalSame(s: seq<Booking>, v: Weight, w: Weight)
    requires forall b :: b in s ==> v(b) == w(b)
    ensures Total(s, v) == Total(s, w)
  {
    if s == [] {
    } else {
      assert s[|s| - 1] in s;
      TotalSame(s[..|s| - 1], v, w);
    }
  }

  lemma {:induction false} TotalLess(s: seq<Booking>, v: Weight, w: Weight)
    requires forall b :: b in s ==> v(b) <= w(b)
    ensures Total(s, v) <= Total(s, w)
  {
    if s == [] {
    } else {
      assert s[|s| - 1] in s;
      TotalLess(s[..|s| - 1], v, w);
    }
  }

  lemma {:induction false} TotalPlus(s: seq<Booking>, u: Weight, v: Weight, w: Weight)
    requires forall b :: b in s ==> u(b) == v(b) + w(b)
    ensures Total(s, u) == Total(s, v) + Total(s, w)
  {
    if s == [] {
    } else {
      assert s[|s| - 1] in s;
      TotalPlus(s[..|s| - 1], u, v, w);
    }
  }

  lemma {:induction false} TotalNothing(s: seq<Booking>, w: Weight)
    requires forall b :: b in s ==> w(b) == 0
    ensures Total(s, w) == 0
  {
    if s == [] {
    } else {
      assert s[|s| - 1] in s;
      TotalNothing(s[..|s| - 1], w);
    }
  }

  lemma {:induction false} TotalWithout(t: seq<Booking>, i: nat, w: Weight)
    requires i < |t|
    ensures Total(t, w) == Total(t[..i] + t[i + 1..], w) + w(t[i])
  {
    var x, rest := t[i], t[i + 1..];
    assert t == t[..i] + ([x] + rest);
    TotalConcat(t[..i], [x] + rest, w);
    TotalConcat([x], rest, w);
    TotalConcat(t[..i], rest, w);
    assert [x][..0] == [];
  }

  lemma ElementsWithout(t: seq<Booking>, i: nat)
    requires i < |t|
    ensures multiset(t[..i] + t[i + 1..]) == multiset(t) - multiset{t[i]}
  {
    assert t == t[..i] + [t[i]] + t[i + 1..];
  }

  /** The order does not matter to a sum. */
  lemma {:induction false} TotalPermuted(s: seq<Booking>, t: seq<Booking>, w: Weight)
    requires multiset(s) == multiset(t)
    ensures Total(s, w) == Total(t, w)
  {
    if s == [] {
      assert |multiset(t)| == |t|;
    } else {
      var x, rest := s[|s| - 1], s[..|s| - 1];
      assert s == rest + [x];
      assert x in multiset(t);
      var i :| 0 <= i < |t| && t[i] == x;
      ElementsWithout(t, i);
      TotalPermuted(rest, t[..i] + t[i + 1..], w);
      TotalWithout(t, i, w);
    }
  }

  // ----- balances at the end of days -----

  /** The balance at the end of a day. */
  function EndOfDay(s: seq<Booking>, day: int): int {
    Total(s, UpTo(day))
  }

  /** The least balance a day can see, if its negative amounts come first. */
  function LeastOn(s: seq<Booking>, day: int): int {
    EndOfDay(s, day - 1) + Total(s, NegativeOn(day))
  }

  /** The first day from which the balance is positive at the end of every day. */
  ghost predicate OverdueDay(s: seq<Booking>, day: int) {
    EndOfDay(s, day - 1) <= 0 && forall d :: d >= day ==> EndOfDay(s, d) > 0
  }

  ghost predicate Rearranged(s: seq<Booking>, t: seq<Booking>) {
    multiset(s) == multiset(t) && ByDay(t)
  }

  lemma {:induction false} SameDays(s: seq<Booking>, t: seq<Booking>, day: int)
    requires multiset(s) == multiset(t)
    ensures EndOfDay(s, day) == EndOfDay(t, day) && LeastOn(s, day) == LeastOn(t, day) && Balance(s) == Balance(t)
  {
    TotalPermuted(s, t, UpTo(day));
    TotalPermuted(s, t, UpTo(day - 1));
    TotalPermuted(s, t, NegativeOn(day));
    TotalPermuted(s, t, Amount());
    BalanceIsTotal(s);
    BalanceIsTotal(t);
  }

  lemma Sides(t: seq<Booking>, i: nat)
    requires ByDay(t) && i < |t|
    ensures t == t[..i] + t[i..]
    ensures forall b :: b in t[..i] ==> b.validOn <= t[i].validOn
    ensures forall b :: b in t[i..] ==> b.validOn >= t[i].validOn
  {
  }

  lemma {:induction false} AmountByDay(s: seq<Booking>, d: int)
    requires forall b :: b in s ==> b.validOn <= d
    ensures Balance(s) == Total(s, UpTo(d)) == Total(s, UpTo(d - 1)) + Total(s, OnDay(d))
  {
    BalanceIsTotal(s);
    TotalSame(s, UpTo(d), Amount());
    TotalPlus(s, Amount(), UpTo(d - 1), OnDay(d));
  }

  lemma {:induction false} FromDay(s: seq<Booking>, d: int)
    requires forall b :: b in s ==> b.validOn >= d
    ensures Total(s, UpTo(d - 1)) == 0 && Total(s, UpTo(d)) == Total(s, OnDay(d))
  {
    TotalNothing(s, UpTo(d - 1));
    TotalSame(s, UpTo(d), OnDay(d));
  }

  /** A balance within a day: what was there before, and what of the day has come. */
  lemma {:induction false} WithinDay(t: seq<Booking>, i: nat)
    requires ByDay(t) && i < |t|
    ensures Balance(t[..i]) == EndOfDay(t, t[i].validOn - 1) + Total(t[..i], OnDay(t[i].validOn))
  {
    var d := t[i].validOn;
    Sides(t, i);
    AmountByDay(t[..i], d);
    FromDay(t[i..], d);
    TotalConcat(t[..i], t[i..], UpTo(d - 1));
  }

  /** It is also what is there at the end of the day, without what is still to come. */
  lemma {:induction false} WithinDayBackwards(t: seq<Booking>, i: nat)
    requires ByDay(t) && i < |t|
    ensures Balance(t[..i]) == EndOfDay(t, t[i].validOn) - Total(t[i..], OnDay(t[i].validOn))
  {
    var d := t[i].validOn;
    Sides(t, i);
    AmountByDay(t[..i], d);
    FromDay(t[i..], d);
    TotalConcat(t[..i], t[i..], UpTo(d));
  }

  lemma {:induction false} AtLeast(t: seq<Booking>, i: nat)
    requires ByDay(t) && i < |t|
    ensures Balance(t[..i]) >= LeastOn(t, t[i].validOn)
  {
    var d := t[i].validOn;
    WithinDay(t, i);
    assert t == t[..i] + t[i..];
    TotalConcat(t[..i], t[i..], NegativeOn(d));
    TotalLess(t[..i], NegativeOn(d), OnDay(d));
    TotalLess(t[i..], NegativeOn(d), (b: Booking) => 0);
    TotalNothing(t[i..], (b: Booking) => 0);
  }

  /** How many splits lie before a day. */
  lemma {:induction false} SplitAt(t: seq<Booking>, p: Booking -> bool) returns (i: nat)
    requires forall j, k :: 0 <= j < k < |t| && p(t[k]) ==> p(t[j])
    ensures i <= |t| && (forall j :: 0 <= j < i ==> p(t[j])) && (forall j :: i <= j < |t| ==> !p(t[j]))
  {
    i := 0;
    while i < |t| && p(t[i])
      invariant i <= |t| && forall j :: 0 <= j < i ==> p(t[j])
    {
      i := i + 1;
    }
  }

  lemma {:induction false} UpToSplit(t: seq<Booking>, i: nat, p: Booking -> bool, w: Weight)
    requires i <= |t| && (forall j :: 0 <= j < i ==> p(t[j])) && (forall j :: i <= j < |t| ==> !p(t[j]))
    requires forall b :: w(b) == if p(b) then b.amount else 0
    ensures Balance(t[..i]) == Total(t, w)
  {
    assert t == t[..i] + t[i..];
    TotalConcat(t[..i], t[i..], w);
    TotalNothing(t[i..], w);
    TotalSame(t[..i], w, Amount());
    BalanceIsTotal(t[..i]);
  }

  // ----- the overdue split of an arrangement -----

  /** The overdue split never lies before the overdue day. */
  lemma {:induction false} NotBefore(t: seq<Booking>, day: int, k: int)
    requires ByDay(t) && OverdueDay(t, day) && PositiveSince(t, k)
    ensures t[k].validOn >= day
  {
    var p := (b: Booking) => b.validOn <= day - 1;
    var i := SplitAt(t, p);
    UpToSplit(t, i, p, UpTo(day - 1));
    assert t[..|t|] == t;
  }

  lemma {:induction false} OverdueAt(t: seq<Booking>, today: int, k: int)
    requires PositiveSince(t, k) && t[k].validOn <= today
    ensures InDefaultDays(t, today) == today - t[k].validOn
  {
    FirstOverdueMeaning(t);
    assert t[..|t|] == t;
    var l :| PositiveSince(t, l) && FirstOverdue(t) == Some(t[l].validOn);
    PositiveSinceUnique(t, k, l);
  }

  lemma {:induction false} SomeOverdue(t: seq<Booking>) returns (k: int)
    requires Balance(t) > 0
    ensures PositiveSince(t, k)
  {
    FirstOverdueMeaning(t);
    k :| PositiveSince(t, k) && FirstOverdue(t) == Some(t[k].validOn);
  }

  ghost predicate NotInFuture(s: seq<Booking>, today: int) {
    forall b :: b in s ==> b.validOn <= today
  }

  lemma {:induction false} SameElements(s: seq<Booking>, t: seq<Booking>, today: int)
    requires multiset(s) == multiset(t) && NotInFuture(s, today)
    ensures NotInFuture(t, today)
  {
    assert forall b :: b in t ==> b in multiset(t) && b in multiset(s);
  }

  /** If no later day can see a balance that is not positive, the count starts at the overdue day. */
  lemma {:induction false} Determined(t: seq<Booking>, today: int, day: int)
    requires ByDay(t) && NotInFuture(t, today) && Balance(t) > 0 && OverdueDay(t, day)
    requires forall d :: d > day ==> LeastOn(t, d) > 0
    ensures InDefaultDays(t, today) == today - day
  {
    var k := SomeOverdue(t);
    assert t[k] in t;
    NotBefore(t, day, k);
    AtLeast(t, k);
    OverdueAt(t, today, k);
  }

  // ----- two extreme arrangements -----

  /** Where a split goes within its day: negative amounts first, or last. */
  function Rank(b: Booking, negativeFirst: bool): int {
    if (b.amount < 0) == negativeFirst then 0 else 1
  }

  predicate Comes(a: Booking, b: Booking, negativeFirst: bool) {
    a.validOn < b.validOn || (a.validOn == b.validOn && Rank(a, negativeFirst) <= Rank(b, negativeFirst))
  }

  ghost predicate Ranked(t: seq<Booking>, negativeFirst: bool) {
    forall i, j :: 0 <= i < j < |t| ==> Comes(t[i], t[j], negativeFirst)
  }

  lemma {:induction false} Insert(t: seq<Booking>, x: Booking, negativeFirst: bool) returns (r: seq<Booking>)
    requires Ranked(t, negativeFirst)
    ensures Ranked(r, negativeFirst) && multiset(r) == multiset(t) + multiset{x}
  {
    var p := (b: Booking) => Comes(b, x, negativeFirst);
    var i := SplitAt(t, p);
    r := t[..i] + [x] + t[i..];
    assert t == t[..i] + t[i..];
    InsertRanked(t, x, i, negativeFirst);
  }

  lemma {:induction false} InsertRanked(t: seq<Booking>, x: Booking, i: nat, negativeFirst: bool)
    requires Ranked(t, negativeFirst) && i <= |t|
    requires forall j :: 0 <= j < i ==> Comes(t[j], x, negativeFirst)
    requires forall j :: i <= j < |t| ==> Comes(x, t[j], negativeFirst)
    ensures Ranked(t[..i] + [x] + t[i..], negativeFirst)
  {
    var r := t[..i] + [x] + t[i..];
    forall j, k | 0 <= j < k < |r|
      ensures Comes(r[j], r[k], negativeFirst)
    {
      var j', k' := if j > i then j - 1 else j, if k > i then k - 1 else k;
      assert j != i ==> r[j] == t[j'];
      assert k != i ==> r[k] == t[k'];
    }
  }

  lemma {:induction false} Arrange(s: seq<Booking>, negativeFirst: bool) returns (t: seq<Booking>)
    ensures Ranked(t, negativeFirst) && multiset(t) == multiset(s) && ByDay(t)
  {
    if s == [] {
      t := [];
    } else {
      var rest := Arrange(s[..|s| - 1], negativeFirst);
      t := Insert(rest, s[|s| - 1], negativeFirst);
      assert s == s[..|s| - 1] + [s[|s| - 1]];
    }
  }

  /** With the negative amounts first, a day that can see a balance that is not positive does. */
  lemma {:induction false} NegativeFirst(t: seq<Booking>, today: int, day: int, d: int)
    requires Ranked(t, true) && ByDay(t) && NotInFuture(t, today) && Balance(t) > 0
    requires d > day && LeastOn(t, d) <= 0
    ensures InDefaultDays(t, today) < today - day
  {
    var p := (b: Booking) => b.validOn < d || (b.validOn == d && b.amount < 0);
    var w: Weight := (b: Booking) => if p(b) then b.amount else 0;
    var i := SplitAt(t, p);
    UpToSplit(t, i, p, w);
    TotalPlus(t, w, UpTo(d - 1), NegativeOn(d));
    var k := SomeOverdue(t);
    assert t[..|t|] == t && i <= k;
    assert !p(t[k]) && t[k] in t;
    OverdueAt(t, today, k);
  }

  /** With the negative amounts last, the count starts at the overdue day. */
  lemma {:induction false} NegativeLast(t: seq<Booking>, today: int, day: int)
    requires Ranked(t, false) && ByDay(t) && NotInFuture(t, today) && Balance(t) > 0 && OverdueDay(t, day)
    ensures InDefaultDays(t, today) == today - day
  {
    var k := SomeOverdue(t);
    assert t[k] in t;
    NotBefore(t, day, k);
    OverdueAt(t, today, k);
    if t[k].validOn > day {
      StaysPositive(t, k);
    }
  }

  /** Within a day, nonnegative amounts keep the balance above that of the day before, and negative ones
   above that of the day itself. */
  lemma {:induction false} StaysPositive(t: seq<Booking>, k: nat)
    requires Ranked(t, false) && ByDay(t) && k < |t|
    ensures Balance(t[..k]) >= EndOfDay(t, t[k].validOn - 1) || Balance(t[..k]) >= EndOfDay(t, t[k].validOn)
  {
    var d := t[k].validOn;
    if t[k].amount >= 0 {
      WithinDay(t, k);
      forall b | b in t[..k]
        ensures OnDay(d)(b) >= 0
      {
        var j :| 0 <= j < k && t[j] == b;
        assert Comes(t[j], t[k], false);
      }
      TotalLess(t[..k], (b: Booking) => 0, OnDay(d));
      TotalNothing(t[..k], (b: Booking) => 0);
    } else {
      WithinDayBackwards(t, k);
      forall b | b in t[k..]
        ensures OnDay(d)(b) <= 0
      {
        var j :| 0 <= j < |t| - k && t[k..][j] == b;
        assert b == t[k + j] && (j > 0 ==> Comes(t[k], t[k + j], false));
      }
      TotalLess(t[k..], OnDay(d), (b: Booking) => 0);
      TotalNothing(t[k..], (b: Booking) => 0);
    }
  }

  // ----- when ties matter -----

  /** The overdue day depends on the amounts and days only, not on their order. */
  lemma {:induction false} SameOverdueDay(s: seq<Booking>, t: seq<Booking>, day: int)
    requires multiset(s) == multiset(t) && OverdueDay(s, day)
    ensures OverdueDay(t, day)
  {
    SameDays(s, t, day - 1);
    forall d | d >= day
      ensures EndOfDay(t, d) > 0
    {
      SameDays(s, t, d);
    }
  }

  ghost predicate OrderIrrelevant(s: seq<Booking>, today: int) {
    forall t :: Rearranged(s, t) ==> InDefaultDays(t, today) == InDefaultDays(s, today)
  }

  lemma {:induction false} IrrelevantIf(s: seq<Booking>, today: int, day: int)
    requires ByDay(s) && NotInFuture(s, today) && Balance(s) > 0 && OverdueDay(s, day)
    requires forall d :: d > day ==> LeastOn(s, d) > 0
    ensures OrderIrrelevant(s, today)
  {
    Determined(s, today, day);
    forall t | Rearranged(s, t)
      ensures InDefaultDays(t, today) == today - day
    {
      SameOverdueDay(s, t, day);
      SameElements(s, t, today);
      SameDays(s, t, day);
      forall d | d > day
        ensures LeastOn(t, d) > 0
      {
        SameDays(s, t, d);
      }
      Determined(t, today, day);
    }
  }

  lemma {:induction false} RelevantIf(s: seq<Booking>, today: int, day: int, d: int)
    requires ByDay(s) && NotInFuture(s, today) && Balance(s) > 0 && OverdueDay(s, day)
    requires d > day && LeastOn(s, d) <= 0
    ensures !OrderIrrelevant(s, today)
  {
    var first := Arrange(s, true);
    var last := Arrange(s, false);
    SameOverdueDay(s, last, day);
    SameElements(s, first, today);
    SameElements(s, last, today);
    SameDays(s, first, d);
    SameDays(s, last, d);
    NegativeFirst(first, today, day, d);
    NegativeLast(last, today, day);
    assert Rearranged(s, first) && Rearranged(s, last);
  }

  /**
   The days in default are the same for all orders of the splits of a day exactly when on every day after
   the overdue one the balance stays positive even if the negative amounts of the day come first.
   */
  lemma {:induction false} OrderIrrelevantIff(s: seq<Booking>, today: int, day: int)
    requires ByDay(s) && NotInFuture(s, today) && Balance(s) > 0 && OverdueDay(s, day)
    ensures OrderIrrelevant(s, today) <==> forall d :: d > day ==> LeastOn(s, d) > 0
  {
    if d :| d > day && LeastOn(s, d) <= 0 {
      RelevantIf(s, today, day, d);
    } else {
      IrrelevantIf(s, today, day);
    }
  }

  /** There is such a day whenever the balance is positive. */
  lemma {:induction false} OverdueDayExists(s: seq<Booking>) returns (day: int)
    requires Balance(s) > 0
    ensures OverdueDay(s, day)
  {
    var t := Arrange(s, false);
    SameDays(s, t, 0);
    var lo, hi := t[0].validOn, t[|t| - 1].validOn;
    EndsOfDays(t);
    day := hi;
    while EndOfDay(t, day - 1) > 0
      invariant day >= lo && forall d :: d >= day ==> EndOfDay(t, d) > 0
      decreases day - lo
    {
      day := day - 1;
    }
    SameOverdueDay(t, s, day);
  }

  lemma {:induction false} EndsOfDays(t: seq<Booking>)
    requires ByDay(t) && t != []
    ensures forall d :: d >= t[|t| - 1].validOn ==> EndOfDay(t, d) == Balance(t)
    ensures forall d :: d < t[0].validOn ==> EndOfDay(t, d) == 0
  {
    BalanceIsTotal(t);
    forall d
      ensures d >= t[|t| - 1].validOn ==> EndOfDay(t, d) == Balance(t)
      ensures d < t[0].validOn ==> EndOfDay(t, d) == 0
    {
      if d >= t[|t| - 1].validOn {
        TotalSame(t, UpTo(d), Amount());
      }
      if d < t[0].validOn {
        TotalNothing(t, UpTo(d));
      }
    }
  }
}
