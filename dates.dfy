/**
 * Points in time as the task code sees them through JavaScript's `Date`:
 * a local civil date (year, zero-based month as `getMonth` returns it, day
 * of month) and the milliseconds elapsed since local midnight. `Ticks`
 * orders instants the way `<` orders two `Date` objects; `StartOfDay` is
 * `setHours(0, 0, 0, 0)`.
 */
module Dates {

  const MillisPerDay: int := 86400000

  datatype Instant = Instant(year: int, month: int, day: int, millis: int)

  predicate IsLeapYear(y: int) {
    y % 4 == 0 && (y % 100 != 0 || y % 400 == 0)
  }

  function DaysInMonth(y: int, m: int): (n: int)
    requires 0 <= m < 12
    ensures 28 <= n <= 31
  {
    if m == 1 then (if IsLeapYear(y) then 29 else 28)
    else if m == 3 || m == 5 || m == 8 || m == 10 then 30
    else 31
  }

  /** A real date: the others stand for JavaScript's "Invalid Date", whose time value is NaN. */
  predicate Valid(i: Instant) {
    0 <= i.month < 12 && 1 <= i.day <= DaysInMonth(i.year, i.month) && 0 <= i.millis < MillisPerDay
  }

  /** Consecutive integers for consecutive calendar days of one month; 31 slots per month. */
  function DayKey(i: Instant): int {
    (i.year * 12 + i.month) * 31 + (i.day - 1)
  }

  function Ticks(i: Instant): int {
    DayKey(i) * MillisPerDay + i.millis
  }

  /** `a < b` on two `Date` objects. */
  predicate Before(a: Instant, b: Instant) {
    Ticks(a) < Ticks(b)
  }

  /** `setHours(0, 0, 0, 0)`: the same calendar day, at local midnight. */
  function StartOfDay(i: Instant): (r: Instant)
    ensures SameDay(r, i) && r.millis == 0
    ensures Valid(i) ==> Valid(r)
  {
    i.(millis := 0)
  }

  predicate SameDay(a: Instant, b: Instant) {
    a.year == b.year && a.month == b.month && a.day == b.day
  }

  /** Calendar order: year, then month, then day; the time of day plays no part. */
  predicate DayBefore(a: Instant, b: Instant) {
    a.year < b.year ||
    (a.year == b.year && a.month < b.month) ||
    (a.year == b.year && a.month == b.month && a.day < b.day)
  }

  /**
   * The "today or later" rule of the request validator: both sides are moved
   * to midnight before they are compared.
   */
  predicate IsTodayOrLater(candidate: Instant, now: Instant) {
    !Before(StartOfDay(candidate), StartOfDay(now))
  }

  /** On real dates, `Ticks` orders instants by day first and by time of day second. */
  lemma TicksFollowCalendar(a: Instant, b: Instant)
    requires Valid(a) && Valid(b)
    ensures Before(a, b) <==> DayBefore(a, b) || (SameDay(a, b) && a.millis < b.millis)
  {
    assert DayBefore(a, b) <==> DayKey(a) < DayKey(b);
    assert SameDay(a, b) <==> DayKey(a) == DayKey(b);
  }

  /** The validator's rule compares calendar days: a candidate passes exactly when its day is not before today. */
  lemma TodayOrLaterIsByDay(candidate: Instant, now: Instant)
    requires Valid(candidate) && Valid(now)
    ensures IsTodayOrLater(candidate, now) <==> !DayBefore(candidate, now)
    ensures SameDay(candidate, now) ==> IsTodayOrLater(candidate, now)
  {
    TicksFollowCalendar(StartOfDay(candidate), StartOfDay(now));
  }

  /**
   * Midnight of today passes the validator's day-based rule, yet as an instant
   * it lies before `now` whenever `now` is past midnight: the schema's
   * instant-based rule rejects what the validator admitted.
   */
  lemma DayRuleAdmitsPastInstant(now: Instant)
    requires Valid(now) && now.millis > 0
    ensures IsTodayOrLater(StartOfDay(now), now)
    ensures Before(StartOfDay(now), now)
  {
    TodayOrLaterIsByDay(StartOfDay(now), now);
  }
}
