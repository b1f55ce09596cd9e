/**
 `MembershipFee` of `pycroft/model/finance.py`.  Amounts are in cents, dates are day numbers, durations
 are in seconds.
 */
module Fees {
  const DAY: int := 86400

  datatype Fee = Fee(
    regularFee: int,
    bookingBegin: int,
    bookingEnd: int,
    paymentDeadline: int,
    paymentDeadlineFinal: int,
    beginsOn: int,
    endsOn: int)

  /** The `days` of a duration: whole days, rounded down. */
  function DaysOf(duration: int): int {
    duration / DAY
  }
}
