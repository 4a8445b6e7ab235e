/** The proleptic Gregorian calendar behind `Date.UTC`, in whole days and
    minutes since 1970-01-01 00:00 UTC. */
module Calendar {

  const MINUTES_PER_DAY: int := 1440

  /** `Date.UTC` yields NaN beyond 8.64e15 ms of the epoch; in minutes that is
      8.64e15 / 60000. */
  const MAX_TIME_MINUTES: int := 144_000_000_000

  predicate IsLeapYear(y: int) {
    y % 4 == 0 && (y % 100 != 0 || y % 400 == 0)
  }

  function DaysInMonth(y: int, m: int): (n: int)
    requires 1 <= m <= 12
    ensures 28 <= n <= 31
  {
    if m == 2 then (if IsLeapYear(y) then 29 else 28)
    else if m == 4 || m == 6 || m == 9 || m == 11 then 30
    else 31
  }

  predicate ValidDate(y: int, m: int, d: int) {
    1 <= m <= 12 && 1 <= d <= DaysInMonth(y, m)
  }

  /** `Date.UTC` reads a year from 0 to 99 as 1900 plus that year. */
  function FullYear(y: int): int {
    if 0 <= y <= 99 then 1900 + y else y
  }

  /** Days before the first of March of the year that starts on March 1 of `z`,
      counted from 1970-01-01. Years are grouped in 400-year eras of 146097 days;
      `/` and `%` here round towards minus infinity, as the era count needs. */
  function MarchFirst(z: int): int {
    var era := z / 400;
    var yoe := z % 400;
    era * 146097 + yoe * 365 + yoe / 4 - yoe / 100 - 719468
  }

  /** Days from March 1 to the first of month `m`, in the year that starts in March. */
  function MonthOffset(m: int): (n: int)
    requires 1 <= m <= 12
    ensures 0 <= n <= 337
  {
    (153 * (if m > 2 then m - 3 else m + 9) + 2) / 5
  }

  /** Days from 1970-01-01 to the date (y, m, d); `d` may lie outside the month,
      in which case the count simply runs on, as `Date.UTC` does. */
  function DaysFromCivil(y: int, m: int, d: int): int
    requires 1 <= m <= 12
  {
    MarchFirst(if m <= 2 then y - 1 else y) + MonthOffset(m) + d - 1
  }

  /** `Date.UTC(year, monthIndex, day, hour, minute) / 60000`: the month index
      carries into the year, and day, hour and minute carry into the larger units.
      The result is a midnight plus the time of day, so a time of day within
      one day is the remainder modulo a day. */
  function UtcMinutes(year: int, monthIndex: int, day: int, hour: int, minute: int): (r: int)
    ensures (r - (hour * 60 + minute)) % MINUTES_PER_DAY == 0
    ensures 0 <= hour * 60 + minute < MINUTES_PER_DAY ==> r % MINUTES_PER_DAY == hour * 60 + minute
  {
    var y := FullYear(year) + monthIndex / 12;
    var m := monthIndex % 12 + 1;
    DaysFromCivil(y, m, day) * MINUTES_PER_DAY + hour * 60 + minute
  }

  /** For a month index in range, `Date.UTC` is the day count of the calendar date
      plus the time of day; the day need not be valid in that month. */
  lemma UtcMinutesInRange(year: int, month: int, day: int, hour: int, minute: int)
    requires 1 <= month <= 12
    ensures UtcMinutes(year, month - 1, day, hour, minute)
         == DaysFromCivil(FullYear(year), month, day) * MINUTES_PER_DAY + hour * 60 + minute
  {
    assert (month - 1) / 12 == 0 && (month - 1) % 12 == month - 1;
  }

  /** For any fields a four-digit year and two-digit month, day, hour and
      minute can spell, `Date.UTC` stays inside its range, so never yields NaN. */
  lemma UtcMinutesBounds(year: int, monthIndex: int, day: int, hour: int, minute: int)
    requires 0 <= year <= 9999 && -1 <= monthIndex <= 98
    requires 0 <= day <= 99 && 0 <= hour <= 111 && 0 <= minute <= 99
    ensures -MAX_TIME_MINUTES <= UtcMinutes(year, monthIndex, day, hour, minute) <= MAX_TIME_MINUTES
  {
    var y := FullYear(year) + monthIndex / 12;
    var m := monthIndex % 12 + 1;
    assert 1 <= y <= 10008;
    DaysFromCivilBounds(y, m, day);
  }

  /** A month index of 12 or more rolls over into the following year. */
  lemma UtcMinutesMonthCarry(year: int, monthIndex: int, day: int, hour: int, minute: int)
    requires year >= 100
    ensures UtcMinutes(year, monthIndex + 12, day, hour, minute)
         == UtcMinutes(year + 1, monthIndex, day, hour, minute)
  {
    assert (monthIndex + 12) / 12 == monthIndex / 12 + 1;
    assert (monthIndex + 12) % 12 == monthIndex % 12;
  }

  /** 1970-01-01 is day zero. */
  lemma DaysFromCivilEpoch()
    ensures DaysFromCivil(1970, 1, 1) == 0
  {
    assert 1969 / 400 == 4 && 1969 % 400 == 369;
  }

  /** Within one era, the year after `r` adds 365 days and one more for each
      fourth year that is not a century year. */
  lemma EraYearStep(r: int)
    requires 0 <= r < 399
    ensures (r + 1) * 365 + (r + 1) / 4 - (r + 1) / 100
         == r * 365 + r / 4 - r / 100 + 365
            + (if (r + 1) % 4 == 0 && (r + 1) % 100 != 0 then 1 else 0)
  {
    var a := r / 4;
    var c := r / 100;
    assert (r + 1) / 4 == (if (r + 1) % 4 == 0 then a + 1 else a);
    assert (r + 1) / 100 == (if (r + 1) % 100 == 0 then c + 1 else c);
    assert (r + 1) % 100 == 0 ==> (r + 1) % 4 == 0;
  }

  /** Shifting a year by whole eras does not change whether it is a leap year. */
  lemma LeapYearModEra(z: int, q: int, r: int)
    requires z == 400 * q + r
    ensures IsLeapYear(z) == (r % 4 == 0 && (r % 100 != 0 || r % 400 == 0))
  {
    ShiftMod4(r, 100 * q);
    ShiftMod100(r, 4 * q);
    ShiftMod400(r, q);
  }

  /** Adding whole multiples of 4, 100 or 400 keeps the remainder. */
  lemma ShiftMod4(r: int, t: int)
    ensures (r + 4 * t) % 4 == r % 4
  {
  }

  lemma ShiftMod100(r: int, t: int)
    ensures (r + 100 * t) % 100 == r % 100
  {
  }

  lemma ShiftMod400(r: int, t: int)
    ensures (r + 400 * t) % 400 == r % 400
  {
  }

  /** 2022-01-12 is day 19004. */
  lemma DaysFromCivilExample()
    ensures DaysFromCivil(2022, 1, 12) == 19004
  {
    assert 2021 / 400 == 5 && 2021 % 400 == 21;
  }

  /** A year that starts in March has 365 days, plus one when the February that
      ends it has a 29th. */
  lemma {:induction false} MarchFirstStep(z: int)
    ensures MarchFirst(z + 1) == MarchFirst(z) + 365 + (if IsLeapYear(z + 1) then 1 else 0)
  {
    var q := z / 400;
    var r := z % 400;
    LeapYearModEra(z + 1, q, r + 1);
    if r < 399 {
      assert (z + 1) / 400 == q && (z + 1) % 400 == r + 1;
      EraYearStep(r);
    } else {
      assert (z + 1) / 400 == q + 1 && (z + 1) % 400 == 0;
    }
  }

  /** The first of the next month is the length of this month later. */
  lemma MonthStep(y: int, m: int)
    requires 1 <= m <= 11
    ensures DaysFromCivil(y, m + 1, 1) == DaysFromCivil(y, m, 1) + DaysInMonth(y, m)
  {
    if m == 2 {
      MarchFirstStep(y - 1);
    }
  }

  /** January 1 follows December 1 by 31 days. */
  lemma YearStep(y: int)
    ensures DaysFromCivil(y + 1, 1, 1) == DaysFromCivil(y, 12, 1) + 31
  {
  }

  /** The calendar date that follows a valid date. */
  function NextDate(y: int, m: int, d: int): (r: (int, int, int))
    requires ValidDate(y, m, d)
    ensures ValidDate(r.0, r.1, r.2)
  {
    if d < DaysInMonth(y, m) then (y, m, d + 1)
    else if m < 12 then (y, m + 1, 1)
    else (y + 1, 1, 1)
  }

  /** Consecutive calendar dates are consecutive day numbers: together with
      `DaysFromCivilEpoch` this pins `DaysFromCivil` down on every valid date. */
  lemma DaysFromCivilNextDate(y: int, m: int, d: int)
    requires ValidDate(y, m, d)
    ensures var n := NextDate(y, m, d); DaysFromCivil(n.0, n.1, n.2) == DaysFromCivil(y, m, d) + 1
  {
    if d == DaysInMonth(y, m) {
      if m < 12 {
        MonthStep(y, m);
      } else {
        YearStep(y);
      }
    }
  }

  /** Bounds on day numbers for years 0 through 20000. */
  lemma DaysFromCivilBounds(y: int, m: int, d: int)
    requires 1 <= y <= 20000 && 1 <= m <= 12
    ensures -719468 + d - 1 <= DaysFromCivil(y, m, d) <= 51 * 146097 + d
  {
    var z := if m <= 2 then y - 1 else y;
    assert 0 <= z / 400 <= 50;
    assert 0 <= z % 400 < 400;
  }
}
