/**
 * A permit lottery (`recyoself.models.lottery.Lottery`). Timestamps are instants on one
 * integer time line; the current time `now` is a parameter.
 */
module Lotteries {

  datatype LotteryStatus = Active | Executed

  datatype Lottery = Lottery(
    lotteryId: string,
    name: string,
    status: LotteryStatus,
    openAt: int,
    closeAt: int,
    accessStartAt: int,
    accessEndAt: int)

  /** The `in_early_access` property, read at instant `now`. */
  predicate InEarlyAccess(l: Lottery, now: int) {
    l.accessStartAt < now < l.accessEndAt
  }

  /** Both bounds are strict, and an empty or inverted access window is never open. */
  lemma EarlyAccessBounds(l: Lottery, now: int)
    ensures now == l.accessStartAt || now == l.accessEndAt ==> !InEarlyAccess(l, now)
    ensures l.accessStartAt >= l.accessEndAt ==> !InEarlyAccess(l, now)
    ensures l.accessStartAt < now < l.accessEndAt ==> InEarlyAccess(l, now)
  {
  }

  /** Only the two access instants matter: status, open and close times do not. */
  lemma EarlyAccessDependsOnAccessWindow(l1: Lottery, l2: Lottery, now: int)
    requires l1.accessStartAt == l2.accessStartAt && l1.accessEndAt == l2.accessEndAt
    ensures InEarlyAccess(l1, now) == InEarlyAccess(l2, now)
  {
  }
}
