/** The proleptic Gregorian calendar, as Python's `datetime` uses it: which
    days a month has, and the day ordinal the headcount series is indexed
    by. */
module Calendar {

  predicate IsLeapYear(y: int) {
    y % 4 == 0 && (y % 100 != 0 || y % 400 == 0)
  }

  function DaysInMonth(y: int, m: int): (n: int)
    requires 1 <= m <= 12
    ensures 28 <= n <= 31
    ensures m == 2 ==> (n == 29 <==> IsLeapYear(y))
  {
    if m == 2 then (if IsLeapYear(y) then 29 else 28)
    else if m == 4 || m == 6 || m == 9 || m == 11 then 30
    else 31
  }

  predicate ValidDate(y: int, m: int, d: int) {
    1 <= m <= 12 && 1 <= d <= DaysInMonth(y, m)
  }

  /** Number of days from 1970-01-01 to the given date (negative before it).
      The year is shifted to start in March so that the leap day is the last
      day of its year; `(153 * mp + 2) / 5` is the number of days before
      month `mp` of that shifted year. */
  function DayNumber(y: int, m: int, d: int): int
    requires ValidDate(y, m, d)
  {
    var y' := if m <= 2 then y - 1 else y;
    var mp := (m + 9) % 12;
    var doy := (153 * mp + 2) / 5 + d - 1;
    (y' / 400) * 146097 + DaysBeforeYear(y' % 400) + doy - 719468
  }

  /** Days in the shifted years of a 400-year era before year `yoe` of it. */
  function DaysBeforeYear(yoe: int): int {
    yoe * 365 + yoe / 4 - yoe / 100
  }

  /** The date after `(y, m, d)`. */
  function NextDate(y: int, m: int, d: int): (r: (int, int, int))
    requires ValidDate(y, m, d)
    ensures ValidDate(r.0, r.1, r.2)
  {
    if d < DaysInMonth(y, m) then (y, m, d + 1)
    else if m < 12 then (y, m + 1, 1)
    else (y + 1, 1, 1)
  }

  /** Consecutive dates get consecutive day numbers, so an integer range of
      day numbers is a run of consecutive calendar days. */
  lemma NextDateIsNextDay(y: int, m: int, d: int)
    requires ValidDate(y, m, d)
    ensures var n := NextDate(y, m, d); DayNumber(n.0, n.1, n.2) == DayNumber(y, m, d) + 1
  {
    var n := NextDate(y, m, d);
    if d < DaysInMonth(y, m) {
    } else if m == 2 {
      MarchFirstFollowsFebruary(y);
    } else if m < 12 {
      assert n == (y, m + 1, 1);
      MonthStart(y, m);
    } else {
      assert n == (y + 1, 1, 1);
      NewYear(y);
    }
  }

  /** 1 January follows 31 December: both lie in the same shifted year. */
  lemma NewYear(y: int)
    ensures DayNumber(y + 1, 1, 1) == DayNumber(y, 12, 31) + 1
  {
    assert DayNumber(y + 1, 1, 1) == (y / 400) * 146097 + DaysBeforeYear(y % 400) + 306 - 719468;
    assert DayNumber(y, 12, 31) == (y / 400) * 146097 + DaysBeforeYear(y % 400) + 305 - 719468;
  }

  /** Inside one shifted year the first of the next month follows the last
      day of this one. */
  lemma MonthStart(y: int, m: int)
    requires 1 <= m < 12 && m != 2
    ensures DayNumber(y, m + 1, 1) == DayNumber(y, m, DaysInMonth(y, m)) + 1
  {
    var y' := if m <= 2 then y - 1 else y;
    var base := (y' / 400) * 146097 + DaysBeforeYear(y' % 400) - 719468;
    var mp := (m + 9) % 12;
    var mp' := (m + 10) % 12;
    assert DayNumber(y, m, DaysInMonth(y, m)) == base + (153 * mp + 2) / 5 + DaysInMonth(y, m) - 1;
    assert DayNumber(y, m + 1, 1) == base + (153 * mp' + 2) / 5;
  }

  /** 1 March follows the last day of February, leap year or not. */
  lemma MarchFirstFollowsFebruary(y: int)
    ensures DayNumber(y, 3, 1) == DayNumber(y, 2, DaysInMonth(y, 2)) + 1
  {
    var p := y - 1;
    var L := DaysInMonth(y, 2);
    assert DayNumber(y, 3, 1) == (y / 400) * 146097 + DaysBeforeYear(y % 400) - 719468;
    assert DayNumber(y, 2, L) == (p / 400) * 146097 + DaysBeforeYear(p % 400) + 336 + L - 719468;
    NextYearOfEra(p);
    LeapByEraYear(y);
    if p % 400 < 399 {
      LeapDayCount(p % 400);
    } else {
      assert DaysBeforeYear(399) == 146097 - 366;
    }
  }

  /** Stepping the year moves one year into the era, or starts the next. */
  lemma NextYearOfEra(p: int)
    ensures p % 400 < 399 ==> (p + 1) / 400 == p / 400 && (p + 1) % 400 == p % 400 + 1
    ensures p % 400 == 399 ==> (p + 1) / 400 == p / 400 + 1 && (p + 1) % 400 == 0
  {
  }

  /** Leap years repeat every 400 years. */
  lemma LeapByEraYear(y: int)
    ensures IsLeapYear(y) <==> IsLeapYear(y % 400)
  {
    var q, r := y / 400, y % 400;
    assert y == 400 * q + r;
    assert y % 4 == r % 4 by { assert y == 4 * (100 * q) + r; }
    assert y % 100 == r % 100 by { assert y == 100 * (4 * q) + r; }
  }

  /** Within one era, moving from shifted year `yoe` to `yoe + 1` adds one
      leap day exactly when the calendar year `yoe + 1` of the era is a leap
      year; February of that year has `28` days plus that leap day. */
  lemma LeapDayCount(yoe: int)
    requires 0 <= yoe < 399
    ensures DaysBeforeYear(yoe + 1) - DaysBeforeYear(yoe) == 365 + (if IsLeapYear(yoe + 1) then 1 else 0)
  {
    assert (yoe + 1) / 4 - yoe / 4 == (if (yoe + 1) % 4 == 0 then 1 else 0);
    assert (yoe + 1) / 100 - yoe / 100 == (if (yoe + 1) % 100 == 0 then 1 else 0);
    assert (yoe + 1) % 400 == yoe + 1;
  }
}
