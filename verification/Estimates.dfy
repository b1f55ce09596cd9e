/**
 `estimate_balance` of `pycroft/lib/finance/membership_fee.py`: how many fees are still to come until a
 membership ends.  Amounts are in cents, days are numbers.
 */
module Estimates {
  import opened Calendar
  import opened Fees

  datatype FeeInfo = NoFees | Latest(fee: Fee)

  /** What is known of the user: the days whose midnight has the fee property, and the days on which a fee is booked. */
  datatype Account = Account(balance: int, pays: int -> bool, booked: set<int>)

  datatype Estimate = Balance(amount: int) | NoFeeInformation | NoSuchDay

  /** How many months after the m-th begin on or before the day. */
  function MonthsAfter(m: int, day: int): (n: nat)
    decreases day - FirstDay(m)
  {
    NextMonth(m);
    if FirstDay(m + 1) <= day then 1 + MonthsAfter(m + 1, day) else 0
  }

  /** The count skips nothing: the months counted are all that begin on or before the day. */
  lemma {:induction false} MonthsAfterMeaning(m: int, day: int, k: int)
    requires k > m
    ensures FirstDay(k) <= day <==> k <= m + MonthsAfter(m, day)
    decreases day - FirstDay(m)
  {
    NextMonth(m);
    if FirstDay(m + 1) > day {
      if k > m + 1 {
        MonthsInOrder(m + 1, k);
      }
    } else if k > m + 1 {
      MonthsAfterMeaning(m + 1, day, k);
    }
  }

  /** The closed form is the count whenever it is not negative. */
  lemma {:induction false} ClosedFormIff(m: int, day: int)
    ensures MonthOf(day) - m == MonthsAfter(m, day) <==> MonthOf(day) >= m
  {
    var r := MonthOf(day);
    if r >= m {
      MonthsAfterMeaning(m, day, r + 1);
      if r > m {
        MonthsAfterMeaning(m, day, r);
      }
    }
  }

  /** The months after this one whose booking begins on or before the end of the membership. */
  function FutureMonths(tomorrow: int, endDate: int, fee: Fee): nat {
    MonthsAfter(MonthOf(tomorrow), endDate - (DaysOf(fee.bookingBegin) - 1))
  }

  lemma {:induction false} FutureMonthsMeaning(tomorrow: int, endDate: int, fee: Fee, k: int)
    requires k > MonthOf(tomorrow)
    ensures FirstDay(k) + DaysOf(fee.bookingBegin) - 1 <= endDate
            <==> k <= MonthOf(tomorrow) + FutureMonths(tomorrow, endDate, fee)
  {
    MonthsAfterMeaning(MonthOf(tomorrow), endDate - (DaysOf(fee.bookingBegin) - 1), k);
  }

  /** The day of a month given by the end of booking. */
  function BookingEndIn(m: int, fee: Fee): int {
    FirstDay(m) + DaysOf(fee.bookingEnd) - 1
  }

  predicate LastMonthOutstanding(a: Account, m: int) {
    LastDay(m - 1) !in a.booked
  }

  function OwedForLastMonth(a: Account, m: int, fee: Fee): int {
    if LastMonthOutstanding(a, m) && a.pays(BookingEndIn(m - 1, fee)) then 1 else 0
  }

  /** The fees of the present and of the last month: to pay, outstanding, or already booked. */
  function PresentMonths(a: Account, m: int, fee: Fee): int {
    (if a.pays(BookingEndIn(m, fee)) then 1 else 0)
    + OwedForLastMonth(a, m, fee)
    - (if LastDay(m) in a.booked then 1 else 0)
  }

  /** The whole months between tomorrow and the end, by the difference of month numbers. */
  function Difference(today: int, endDate: int, fee: Fee): int {
    MonthOf(endDate - (DaysOf(fee.bookingBegin) - 1)) - MonthOf(today + 1)
  }

  /** Some `replace` raises because a month is too short for the end of booking. */
  predicate Raises(a: Account, m: int, fee: Fee) {
    !DayExists(m, DaysOf(fee.bookingEnd)) || (LastMonthOutstanding(a, m) && !DayExists(m - 1, DaysOf(fee.bookingEnd)))
  }

  /** 1 if the last month is still to be paid; `ok` is false if its end of booking does not exist. */
  method LastMonthToPay(a: Account, fee: Fee, tomorrow: int) returns (ok: bool, months: int)
    ensures ok <==> !(LastMonthOutstanding(a, MonthOf(tomorrow))
                      && !DayExists(MonthOf(tomorrow) - 1, DaysOf(fee.bookingEnd)))
    ensures ok ==> months == OwedForLastMonth(a, MonthOf(tomorrow), fee)
  {
    var _, first := ReplaceDay(tomorrow, 1);
    var lastMonthLast := first - 1;
    LastDayOfPrevious(MonthOf(tomorrow));
    if lastMonthLast in a.booked {
      return true, 0;
    }
    var bookingEnd;
    ok, bookingEnd := ReplaceDay(lastMonthLast, DaysOf(fee.bookingEnd));
    if !ok {
      return false, 0;
    }
    return true, if a.pays(bookingEnd) then 1 else 0;
  }

  /** The number of months, built up step by step. */
  method MonthsToPay(a: Account, fee: Fee, today: int, endDate: int) returns (ok: bool, months: int)
    ensures ok <==> !Raises(a, MonthOf(today + 1), fee)
    ensures ok ==> months == Difference(today, endDate, fee) + PresentMonths(a, MonthOf(today + 1), fee)
  {
    var tomorrow := today + 1;
    var endDateJustified := endDate - (DaysOf(fee.bookingBegin) - 1);
    months := MonthsBetween(endDateJustified, tomorrow);
    var bookingEnd;
    ok, bookingEnd := ReplaceDay(tomorrow, DaysOf(fee.bookingEnd));
    if !ok {
      return;
    }
    if a.pays(bookingEnd) {
      months := months + 1;
    }
    var lastMonth;
    ok, lastMonth := LastMonthToPay(a, fee, tomorrow);
    months := months + lastMonth;
    var last := LastDayIn(tomorrow);
    if last in a.booked {
      months := months - 1;
    }
  }

  /** The balance after paying for some months. */
  function After(a: Account, months: int, fee: Fee): int {
    -a.balance - months * fee.regularFee
  }

  lemma {:induction false} FutureIsDifference(today: int, endDate: int, fee: Fee)
    ensures Difference(today, endDate, fee) >= 0
            <==> Difference(today, endDate, fee) == FutureMonths(today + 1, endDate, fee)
  {
    ClosedFormIff(MonthOf(today + 1), endDate - (DaysOf(fee.bookingBegin) - 1));
  }

  // ----- the estimate, from the days concerned -----

  function One(b: bool): int {
    if b then 1 else 0
  }

  /** m is the month of tomorrow, and the end, brought forward by the begin of booking, lies `later` months after it. */
  ghost predicate Between(m: int, later: int, today: int, endDate: int, fee: Fee) {
    && FirstDay(m) <= today + 1 < FirstDay(m + 1)
    && FirstDay(m + later) <= endDate + 1 - fee.bookingBegin / 86400 < FirstDay(m + later + 1)
  }

  /**
   The months charged: those later; the m-th if the midnight of its booking end has the property; the one
   before it likewise, unless a fee is booked on its last day; but not the m-th if one is booked on its
   last day.
   */
  function Charged(a: Account, fee: Fee, m: int, later: int): int {
    later
    + One(a.pays(FirstDay(m) - 1 + fee.bookingEnd / 86400))
    + One(FirstDay(m) - 1 !in a.booked && a.pays(FirstDay(m - 1) - 1 + fee.bookingEnd / 86400))
    - One(FirstDay(m + 1) - 1 in a.booked)
  }

  /** A month that has no day for the booking end, which is asked for. */
  ghost predicate TooShort(a: Account, fee: Fee, m: int) {
    || !(1 <= fee.bookingEnd / 86400 <= FirstDay(m + 1) - FirstDay(m))
    || (FirstDay(m) - 1 !in a.booked && !(1 <= fee.bookingEnd / 86400 <= FirstDay(m) - FirstDay(m - 1)))
  }

  lemma {:induction false} MonthsMatch(today: int, endDate: int, fee: Fee, m: int, later: int)
    requires Between(m, later, today, endDate, fee)
    ensures MonthOf(today + 1) == m && Difference(today, endDate, fee) == later
  {
    MonthUnique(today + 1, m);
    MonthUnique(endDate + 1 - fee.bookingBegin / 86400, m + later);
    assert endDate - (DaysOf(fee.bookingBegin) - 1) == endDate + 1 - fee.bookingBegin / 86400;
  }

  lemma {:induction false} LastDays(m: int)
    ensures LastDay(m) == FirstDay(m + 1) - 1 && LastDay(m - 1) == FirstDay(m) - 1
    ensures LengthOfMonth(m) == FirstDay(m + 1) - FirstDay(m) && LengthOfMonth(m - 1) == FirstDay(m) - FirstDay(m - 1)
  {
    NextMonth(m);
    NextMonth(m - 1);
  }

  lemma {:induction false} PresentCharged(a: Account, fee: Fee, m: int, later: int)
    ensures later + PresentMonths(a, m, fee) == Charged(a, fee, m, later)
    ensures Raises(a, m, fee) <==> TooShort(a, fee, m)
  {
    LastDays(m);
    assert BookingEndIn(m, fee) == FirstDay(m) - 1 + fee.bookingEnd / 86400;
    assert BookingEndIn(m - 1, fee) == FirstDay(m - 1) - 1 + fee.bookingEnd / 86400;
  }

  lemma AfterMeaning(a: Account, months: int, fee: Fee)
    ensures After(a, months, fee) + a.balance == -(fee.regularFee * months)
  {
  }

  lemma {:induction false} MonthsMeaning(a: Account, fee: Fee, today: int, endDate: int, m: int, later: int)
    requires Between(m, later, today, endDate, fee)
    ensures Difference(today, endDate, fee) + PresentMonths(a, MonthOf(today + 1), fee) == Charged(a, fee, m, later)
  {
    MonthsMatch(today, endDate, fee, m, later);
    PresentCharged(a, fee, m, later);
  }

  lemma {:induction false} AmountMeaning(a: Account, fee: Fee, today: int, endDate: int, months: int)
    requires months == Difference(today, endDate, fee) + PresentMonths(a, MonthOf(today + 1), fee)
    ensures forall m, later :: Between(m, later, today, endDate, fee) ==>
              After(a, months, fee) + a.balance == -(fee.regularFee * Charged(a, fee, m, later))
  {
    AfterMeaning(a, months, fee);
    forall m, later | Between(m, later, today, endDate, fee)
      ensures months == Charged(a, fee, m, later)
    {
      MonthsMeaning(a, fee, today, endDate, m, later);
    }
  }

  lemma {:induction false} RaisesMeaning(a: Account, fee: Fee, today: int, endDate: int)
    ensures forall m, later :: Between(m, later, today, endDate, fee) ==>
              (Raises(a, MonthOf(today + 1), fee) <==> TooShort(a, fee, m))
  {
    forall m, later | Between(m, later, today, endDate, fee)
      ensures Raises(a, MonthOf(today + 1), fee) <==> TooShort(a, fee, m)
    {
      MonthsMatch(today, endDate, fee, m, later);
      PresentCharged(a, fee, m, later);
    }
  }

  /** There is always such a month. */
  lemma {:induction false} BetweenExists(today: int, endDate: int, fee: Fee)
    ensures Between(MonthOf(today + 1), Difference(today, endDate, fee), today, endDate, fee)
  {
  }

  /**
   `estimate_balance`.  If the end lies in the present month or later, the fees are those of the months
   after it whose booking begins by the end, and those of the present and the last month.
   */
  method EstimateBalance(a: Account, info: FeeInfo, today: int, endDate: int) returns (r: Estimate)
    ensures r.NoFeeInformation? <==> info.NoFees?
    ensures r.NoSuchDay? <==> info.Latest? && Raises(a, MonthOf(today + 1), info.fee)
    ensures r.Balance? ==>
      r.amount == After(a, Difference(today, endDate, info.fee)
                        + PresentMonths(a, MonthOf(today + 1), info.fee), info.fee)
    ensures r.Balance? && Difference(today, endDate, info.fee) >= 0 ==>
      r.amount == After(a, FutureMonths(today + 1, endDate, info.fee)
                        + PresentMonths(a, MonthOf(today + 1), info.fee), info.fee)
    ensures r.Balance? ==> forall m, later :: Between(m, later, today, endDate, info.fee) ==>
              r.amount + a.balance == -(info.fee.regularFee * Charged(a, info.fee, m, later))
    ensures info.Latest? ==> forall m, later :: Between(m, later, today, endDate, info.fee) ==>
              (r.NoSuchDay? <==> TooShort(a, info.fee, m))
  {
    if info.NoFees? {
      return NoFeeInformation;
    }
    RaisesMeaning(a, info.fee, today, endDate);
    var ok, monthsToPay := MonthsToPay(a, info.fee, today, endDate);
    if !ok {
      return NoSuchDay;
    }
    FutureIsDifference(today, endDate, info.fee);
    AmountMeaning(a, info.fee, today, endDate, monthsToPay);
    return Balance(After(a, monthsToPay, info.fee));
  }
}
