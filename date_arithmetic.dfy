/**
  Date arithmetic of the certificate checker (main.ts:6-16).

  Instants are integer milliseconds since the epoch, the value that `+date` and
  `date.getTime()` yield. `Math.round` applied to the non-negative quotient
  `|a - b| / 8.64e7` rounds half up, which on integers is
  `(|a - b| + 43200000) / 86400000` with floor division, 86400000 being even.
*/
module DateArithmetic {

  /** Milliseconds in a day: the divisor `8.64e7` of main.ts:7. */
  const MillisPerDay: int := 86400000

  /** Half a day: the rounding threshold of `Math.round` on day counts. */
  const HalfDayMillis: int := 43200000

  function Abs(x: int): nat
  {
    if x < 0 then -x else x
  }

  /**
    `days` is the whole number of days nearest to `millis` milliseconds, a tie
    (exactly half a day over) going to the larger count, as `Math.round` does.
  */
  predicate IsNearestDayCount(millis: nat, days: nat)
  {
    days * MillisPerDay - HalfDayMillis <= millis < days * MillisPerDay + HalfDayMillis
  }

  /** `daysBetween`: the absolute distance between two instants, rounded to whole days. */
  function DaysBetween(a: int, b: int): (r: nat)
    ensures IsNearestDayCount(Abs(a - b), r)
  {
    (Abs(a - b) + HalfDayMillis) / MillisPerDay
  }

  /**
    `daysRemaining(from, to)`: the day distance from `from` to `to`, negated
    when `to` lies before the clock reading `now` that the function takes on
    its own (main.ts:12); `from` and `now` need not be equal.
  */
  function DaysRemaining(from: int, to: int, now: int): (r: int)
    ensures Abs(r) == DaysBetween(from, to)
    ensures to < now ==> r <= 0
    ensures now <= to ==> r >= 0
  {
    var remaining: int := DaysBetween(from, to);
    if to < now then -remaining else remaining
  }

  /**
    `Math.round(x)` over exact reals: the nearest integer, a tie going up
    (towards positive infinity).
  */
  function MathRound(x: real): int
  {
    (x + 0.5).Floor
  }

  /**
    The integer formula is the source's expression `Math.round(Math.abs(a - b) / 8.64e7)`
    evaluated over exact reals.
  */
  lemma DaysBetweenIsRoundedQuotient(a: int, b: int)
    ensures DaysBetween(a, b) == MathRound(Abs(a - b) as real / MillisPerDay as real)
  {
  }

  /** The rounded day count is the only nearest day count: both directions. */
  lemma NearestDayCountUnique(a: int, b: int, days: nat)
    ensures IsNearestDayCount(Abs(a - b), days) <==> days == DaysBetween(a, b)
  {
  }

  /** `daysBetween` does not depend on the order of its arguments (`Math.abs`). */
  lemma DaysBetweenSymmetric(a: int, b: int)
    ensures DaysBetween(a, b) == DaysBetween(b, a)
  {
  }

  /** The distance from an instant to itself is zero days. */
  lemma DaysBetweenSelf(a: int)
    ensures DaysBetween(a, a) == 0
  {
  }

  /** A longer distance never rounds to fewer days. */
  lemma DaysBetweenMonotone(a: int, b: int, c: int, d: int)
    requires Abs(a - b) <= Abs(c - d)
    ensures DaysBetween(a, b) <= DaysBetween(c, d)
  {
  }

  /**
    With one clock reading, the remaining days are negative exactly when the
    expiry lies at least half a day in the past, positive exactly when it lies
    at least half a day in the future, and zero in between.
  */
  lemma DaysRemainingSign(to: int, now: int)
    ensures DaysRemaining(now, to, now) < 0 <==> to <= now - HalfDayMillis
    ensures DaysRemaining(now, to, now) > 0 <==> to >= now + HalfDayMillis
    ensures DaysRemaining(now, to, now) == 0 <==> now - HalfDayMillis < to < now + HalfDayMillis
  {
  }

  /** An expiry less than twelve hours in the past still counts as zero days left, not negative. */
  lemma RecentExpiryIsZero(to: int, now: int)
    requires now - HalfDayMillis < to < now
    ensures DaysRemaining(now, to, now) == 0
  {
  }

  /** With one clock reading, a later expiry never leaves fewer days. */
  lemma DaysRemainingMonotone(to1: int, to2: int, now: int)
    requires to1 <= to2
    ensures DaysRemaining(now, to1, now) <= DaysRemaining(now, to2, now)
  {
  }

  /** An expiry exactly `k` whole days away, in either direction, gives `k` days remaining. */
  lemma WholeDaysRemaining(now: int, k: int)
    ensures DaysRemaining(now, now + k * MillisPerDay, now) == k
  {
  }

  /**
    A note on the range of `DaysRemaining`, not a promise of the program:
    every signed day count is the remaining-days value of some expiry instant.
  */
  lemma EveryDayCountOccurs(now: int, k: int)
    ensures exists to :: DaysRemaining(now, to, now) == k
  {
    WholeDaysRemaining(now, k);
  }
}
