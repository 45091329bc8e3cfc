/**
 * The proleptic Gregorian calendar on integers, standing in for PHP's
 * `mktime`/`date('t')`/`date('N')`, plus the `YYYY-MM-DD` text form of a
 * date (the extended calendar-date format of ISO 8601:2004 section 4.1.2.2).
 * Weekdays are numbered Monday = 1 ... Sunday = 7 as in the week dates of
 * ISO 8601:2004 section 4.1.4.
 */
module Gregorian {
  import opened Text

  predicate IsLeapYear(y: int) {
    (y % 4 == 0 && y % 100 != 0) || y % 400 == 0
  }

  function YearLength(y: int): int {
    if IsLeapYear(y) then 366 else 365
  }

  /** Number of days of month `m` of year `y` (PHP `date('t')`). */
  function DaysInMonth(y: int, m: int): (n: int)
    requires 1 <= m <= 12
    ensures 28 <= n <= 31
  {
    if m == 2 then (if IsLeapYear(y) then 29 else 28)
    else if m == 4 || m == 6 || m == 9 || m == 11 then 30
    else 31
  }

  predicate IsRealDate(y: int, m: int, d: int) {
    1 <= m <= 12 && 1 <= d <= DaysInMonth(y, m)
  }

  /** Days from 0001-01-01 to the first of January of year `y`. */
  function DaysBeforeYear(y: int): int {
    365 * (y - 1) + (y - 1) / 4 - (y - 1) / 100 + (y - 1) / 400
  }

  /** Days from the first of January of year `y` to the first of month `m` (13 meaning the next January). */
  function DaysBeforeMonth(y: int, m: int): int
    requires 1 <= m <= 13
  {
    [0, 31, 59, 90, 120, 151, 181, 212, 243, 273, 304, 334, 365][m - 1] + (if m > 2 && IsLeapYear(y) then 1 else 0)
  }

  /** Each month starts where the previous one ends. */
  lemma DaysBeforeMonthStep(y: int, m: int)
    requires 1 <= m <= 12
    ensures DaysBeforeMonth(y, m + 1) == DaysBeforeMonth(y, m) + DaysInMonth(y, m)
  {
  }

  /** Serial number of a day: 0001-01-01 is day 0, and each next day is one more. */
  function DayNumber(y: int, m: int, d: int): int
    requires 1 <= m <= 12
  {
    DaysBeforeYear(y) + DaysBeforeMonth(y, m) + d - 1
  }

  /** ISO weekday (Monday = 1 ... Sunday = 7; PHP `date('N')`); day 0, 0001-01-01, was a Monday. */
  function IsoWeekday(y: int, m: int, d: int): (w: int)
    requires 1 <= m <= 12
    ensures 1 <= w <= 7
  {
    DayNumber(y, m, d) % 7 + 1
  }

  /** The month before (`y`, `m`); January goes back to December of `y - 1`. */
  function PrevMonth(y: int, m: int): (r: (int, int))
    requires 1 <= m <= 12
    ensures 1 <= r.1 <= 12
    ensures r.1 == m - 1 || (m == 1 && r == (y - 1, 12))
    ensures r.1 == m - 1 ==> r.0 == y
  {
    if m - 1 < 1 then (y - 1, 12) else (y, m - 1)
  }

  /** The month after (`y`, `m`); December goes on to January of `y + 1`. */
  function NextMonth(y: int, m: int): (r: (int, int))
    requires 1 <= m <= 12
    ensures 1 <= r.1 <= 12
    ensures r.1 == m + 1 || (m == 12 && r == (y + 1, 1))
    ensures r.1 == m + 1 ==> r.0 == y
  {
    if m + 1 > 12 then (y + 1, 1) else (y, m + 1)
  }

  /** Previous and next month undo each other. */
  lemma PrevNextInverse(y: int, m: int)
    requires 1 <= m <= 12
    ensures NextMonth(PrevMonth(y, m).0, PrevMonth(y, m).1) == (y, m)
    ensures PrevMonth(NextMonth(y, m).0, NextMonth(y, m).1) == (y, m)
  {
  }

  lemma YearStep(y: int)
    ensures DaysBeforeYear(y + 1) == DaysBeforeYear(y) + YearLength(y)
  {
    var x := y - 1;
    assert y / 4 - x / 4 == (if y % 4 == 0 then 1 else 0);
    assert y / 100 - x / 100 == (if y % 100 == 0 then 1 else 0);
    assert y / 400 - x / 400 == (if y % 400 == 0 then 1 else 0);
  }

  lemma DaysBeforeNewYear(y: int)
    ensures DaysBeforeMonth(y, 13) == YearLength(y)
  {
  }

  /** The first day of the next month comes exactly `DaysInMonth(y, m)` days after the first of this month. */
  lemma NextMonthStart(y: int, m: int)
    requires 1 <= m <= 12
    ensures DayNumber(NextMonth(y, m).0, NextMonth(y, m).1, 1) == DayNumber(y, m, 1) + DaysInMonth(y, m)
  {
    if m == 12 {
      YearStep(y);
      DaysBeforeNewYear(y);
    } else {
      DaysBeforeMonthStep(y, m);
    }
  }

  /** The ISO weekday advances by one, cyclically, from each day to the next. */
  lemma WeekdayOfNextDay(y: int, m: int, d: int)
    requires 1 <= m <= 12
    ensures IsoWeekday(y, m, d + 1) == (if IsoWeekday(y, m, d) == 7 then 1 else IsoWeekday(y, m, d) + 1)
  {
  }

  /** 2024-01-01 was a Monday and 2025-01-01 a Wednesday. */
  lemma KnownWeekdays()
    ensures IsoWeekday(2024, 1, 1) == 1
    ensures IsoWeekday(2025, 1, 1) == 3
  {
    assert DaysBeforeYear(2024) == 738885;
    assert DayNumber(2024, 1, 1) == 738885;
    assert 738885 % 7 == 0;
    assert DaysBeforeYear(2025) == 739251;
    assert DayNumber(2025, 1, 1) == 739251;
    assert 739251 % 7 == 2;
  }

  // ---------------------------------------------------------------------
  // YYYY-MM-DD
  // ---------------------------------------------------------------------

  /** PHP `sprintf('%04d-%02d-%02d', $y, $m, $d)`. */
  function FormatDate(y: int, m: int, d: int): string {
    FormatInt(y, 4) + "-" + FormatInt(m, 2) + "-" + FormatInt(d, 2)
  }

  /** For a four-digit year and two-digit month and day, the text is exactly ten characters of fixed layout. */
  lemma FormatDateFixed(y: int, m: int, d: int)
    requires 0 <= y <= 9999 && 0 <= m <= 99 && 0 <= d <= 99
    ensures FormatDate(y, m, d) == Fixed(y, 4) + "-" + Fixed(m, 2) + "-" + Fixed(d, 2)
  {
    FormatIntFixed(y, 4);
    FormatIntFixed(m, 2);
    FormatIntFixed(d, 2);
  }

  lemma ConcatEqual(a1: string, b1: string, a2: string, b2: string)
    requires a1 + b1 == a2 + b2 && |a1| == |a2|
    ensures a1 == a2 && b1 == b2
  {
    assert a1 == (a1 + b1)[..|a1|];
    assert a2 == (a2 + b2)[..|a2|];
    assert b1 == (a1 + b1)[|a1|..];
    assert b2 == (a2 + b2)[|a2|..];
  }

  /** With the same year and month (of any width), different days print differently. */
  lemma FormatDateDayInjective(y: int, m: int, d1: int, d2: int)
    requires 0 <= d1 <= 99 && 0 <= d2 <= 99
    requires FormatDate(y, m, d1) == FormatDate(y, m, d2)
    ensures d1 == d2
  {
    var p := FormatInt(y, 4) + "-" + FormatInt(m, 2) + "-";
    FormatIntFixed(d1, 2);
    FormatIntFixed(d2, 2);
    assert FormatDate(y, m, d1) == p + Fixed(d1, 2);
    assert FormatDate(y, m, d2) == p + Fixed(d2, 2);
    assert Fixed(d1, 2) == (p + Fixed(d1, 2))[|p|..];
    assert Fixed(d2, 2) == (p + Fixed(d2, 2))[|p|..];
    ValueOfFixed(d1, 2);
    ValueOfFixed(d2, 2);
  }

  /** Dates printed with four-digit years compare as text exactly as they compare in time. */
  lemma FormatDateLe(y1: nat, m1: nat, d1: nat, y2: nat, m2: nat, d2: nat)
    requires y1 <= 9999 && m1 <= 99 && d1 <= 99
    requires y2 <= 9999 && m2 <= 99 && d2 <= 99
    ensures LexLe(FormatDate(y1, m1, d1), FormatDate(y2, m2, d2)) <==>
            y1 < y2 || (y1 == y2 && (m1 < m2 || (m1 == m2 && d1 <= d2)))
  {
    SmallPowers();
    FormatDateFixed(y1, m1, d1);
    FormatDateFixed(y2, m2, d2);
    DashedLe(Fixed(y1, 4), Fixed(m1, 2), Fixed(d1, 2), Fixed(y2, 4), Fixed(m2, 2), Fixed(d2, 2));
    FixedLe(y1, y2, 4);
    FixedEqual(y1, y2, 4);
    FixedLe(m1, m2, 2);
    FixedEqual(m1, m2, 2);
    FixedLe(d1, d2, 2);
  }

  /** Three fields joined by dashes, of equal widths on both sides, compare field by field. */
  lemma DashedLe(a1: string, b1: string, c1: string, a2: string, b2: string, c2: string)
    requires |a1| == |a2| && |b1| == |b2|
    ensures LexLe(a1 + "-" + b1 + "-" + c1, a2 + "-" + b2 + "-" + c2) <==>
            (LexLe(a1, a2) && a1 != a2) ||
            (a1 == a2 && ((LexLe(b1, b2) && b1 != b2) || (b1 == b2 && LexLe(c1, c2))))
  {
    var r1, r2 := "-" + b1 + "-" + c1, "-" + b2 + "-" + c2;
    assert a1 + "-" + b1 + "-" + c1 == a1 + r1 && a2 + "-" + b2 + "-" + c2 == a2 + r2;
    LexLeAppend(a1, a2, r1, r2);
    assert r1 == "-" + (b1 + ("-" + c1)) && r2 == "-" + (b2 + ("-" + c2));
    LexLeAppend("-", "-", b1 + ("-" + c1), b2 + ("-" + c2));
    LexLeAppend(b1, b2, "-" + c1, "-" + c2);
    LexLeAppend("-", "-", c1, c2);
  }

  lemma FixedEqual(a: nat, b: nat, w: nat)
    requires a < Pow10(w) && b < Pow10(w)
    ensures Fixed(a, w) == Fixed(b, w) <==> a == b
  {
    ValueOfFixed(a, w);
    ValueOfFixed(b, w);
  }
}

