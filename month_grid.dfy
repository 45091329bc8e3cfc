/**
 * The month view of the calendar (`Calendario::generar_estructura_mes`):
 * a list of weeks of seven cells, Monday first, covering one month and
 * padded with the last days of the previous month and the first days of the
 * next month.
 */
module MonthGrid {
  import opened Text
  import opened Gregorian

  /** One cell of the view: `dia`, `fecha`, `es_mes_actual`, `es_hoy`. */
  datatype Cell = Cell(day: int, date: string, inMonth: bool, isToday: bool)

  /** The year `mktime` really uses: it reads 0..69 as 2000..2069 and 70..100 as 1970..2000. */
  function MktimeYear(y: int): int {
    if 0 <= y <= 69 then y + 2000 else if 70 <= y <= 100 then y + 1900 else y
  }

  /** Number of leading cells: the ISO weekday of the first of the month, minus one. */
  function LeadCount(year: int, month: int): (n: int)
    requires 1 <= month <= 12
    ensures 0 <= n <= 6
  {
    IsoWeekday(MktimeYear(year), month, 1) - 1
  }

  function MonthLength(year: int, month: int): (n: int)
    requires 1 <= month <= 12
    ensures 28 <= n <= 31
  {
    DaysInMonth(MktimeYear(year), month)
  }

  function PrevMonthLength(year: int, month: int): (n: int)
    requires 1 <= month <= 12
    ensures 28 <= n <= 31
  {
    var (py, pm) := PrevMonth(year, month);
    DaysInMonth(MktimeYear(py), pm)
  }

  /** Number of trailing cells: what the last week lacks to reach seven cells. */
  function TrailCount(year: int, month: int): (n: int)
    requires 1 <= month <= 12
    ensures 0 <= n <= 6
  {
    (7 - (LeadCount(year, month) + MonthLength(year, month)) % 7) % 7
  }

  /** The view always fills whole weeks: four, five or six of them. */
  function CellCount(year: int, month: int): (n: nat)
    requires 1 <= month <= 12
    ensures n % 7 == 0 && 28 <= n <= 42
    ensures n - 7 < LeadCount(year, month) + MonthLength(year, month) <= n
  {
    WholeWeeks(LeadCount(year, month), MonthLength(year, month));
    LeadCount(year, month) + MonthLength(year, month) + TrailCount(year, month)
  }

  /** Padding `lead + len` cells up to the next multiple of seven gives four to six weeks. */
  lemma WholeWeeks(lead: int, len: int)
    requires 0 <= lead <= 6 && 28 <= len <= 31
    ensures var a := lead + len;
            var n := a + (7 - a % 7) % 7;
            n % 7 == 0 && 28 <= n <= 42 && n - 7 < a <= n
  {
    var a := lead + len;
    assert a == 7 * (a / 7) + a % 7;
  }

  /** The calendar date (year, month, day) shown by cell `k` of the view, reading it row by row. */
  function CellDate(year: int, month: int, k: int): (int, int, int)
    requires 1 <= month <= 12
  {
    var lead := LeadCount(year, month);
    var len := MonthLength(year, month);
    if k < lead then
      var (py, pm) := PrevMonth(year, month);
      (py, pm, PrevMonthLength(year, month) - lead + 1 + k)
    else if k < lead + len then
      (year, month, k - lead + 1)
    else
      var (ny, nm) := NextMonth(year, month);
      (ny, nm, k - lead - len + 1)
  }

  /** Cell `k` of the view.  Only cells of the month itself can be today. */
  function CellAt(year: int, month: int, today: string, k: int): Cell
    requires 1 <= month <= 12
  {
    var (y, m, d) := CellDate(year, month, k);
    var inMonth := LeadCount(year, month) <= k < LeadCount(year, month) + MonthLength(year, month);
    var date := FormatDate(y, m, d);
    Cell(d, date, inMonth, inMonth && date == today)
  }

  /** All cells of the view, row by row. */
  function GridCells(year: int, month: int, today: string): (cells: seq<Cell>)
    requires 1 <= month <= 12
    ensures |cells| == CellCount(year, month)
  {
    seq(CellCount(year, month), k requires 0 <= k < CellCount(year, month) => CellAt(year, month, today, k))
  }

  /** Leading cells: previous-month days, consecutive, ending at that month's last day; never in the month, never today. */
  lemma LeadingCell(year: int, month: int, today: string, k: int)
    requires 1 <= month <= 12 && 0 <= k < LeadCount(year, month)
    ensures var (py, pm) := PrevMonth(year, month);
            var d := PrevMonthLength(year, month) - (LeadCount(year, month) - k) + 1;
            CellAt(year, month, today, k) == Cell(d, FormatDate(py, pm, d), false, false)
  {
    var lead := LeadCount(year, month);
    var (py, pm) := PrevMonth(year, month);
    assert CellDate(year, month, k) == (py, pm, PrevMonthLength(year, month) - lead + 1 + k);
  }

  /** Month cells: day `k - lead + 1` of the month itself, today exactly when its date is `today`. */
  lemma MonthCell(year: int, month: int, today: string, k: int)
    requires 1 <= month <= 12
    requires LeadCount(year, month) <= k < LeadCount(year, month) + MonthLength(year, month)
    ensures var d := k - LeadCount(year, month) + 1;
            var date := FormatDate(year, month, d);
            CellAt(year, month, today, k) == Cell(d, date, true, date == today)
  {
    assert CellDate(year, month, k) == (year, month, k - LeadCount(year, month) + 1);
  }

  /** Trailing cells: next-month days 1, 2, ...; never in the month, never today. */
  lemma TrailingCell(year: int, month: int, today: string, k: int)
    requires 1 <= month <= 12
    requires LeadCount(year, month) + MonthLength(year, month) <= k
    ensures var (ny, nm) := NextMonth(year, month);
            var d := k - LeadCount(year, month) - MonthLength(year, month) + 1;
            CellAt(year, month, today, k) == Cell(d, FormatDate(ny, nm, d), false, false)
  {
    var lead, len := LeadCount(year, month), MonthLength(year, month);
    var (ny, nm) := NextMonth(year, month);
    assert CellDate(year, month, k) == (ny, nm, k - lead - len + 1);
  }

  /** `done` holds the first `|done|` cells of the view. */
  ghost predicate GridPrefix(year: int, month: int, today: string, done: seq<Cell>)
    requires 1 <= month <= 12
  {
    |done| <= CellCount(year, month) &&
    forall k :: 0 <= k < |done| ==> done[k] == CellAt(year, month, today, k)
  }

  lemma GridPrefixSnoc(year: int, month: int, today: string, done: seq<Cell>, c: Cell)
    requires 1 <= month <= 12
    requires GridPrefix(year, month, today, done) && |done| < CellCount(year, month)
    requires c == CellAt(year, month, today, |done|)
    ensures GridPrefix(year, month, today, done + [c])
  {
  }

  lemma GridPrefixFull(year: int, month: int, today: string, done: seq<Cell>)
    requires 1 <= month <= 12
    requires GridPrefix(year, month, today, done) && |done| == CellCount(year, month)
    ensures done == GridCells(year, month, today)
  {
  }

  /** The weeks laid end to end. */
  function Flatten(weeks: seq<seq<Cell>>): seq<Cell> {
    if weeks == [] then [] else Flatten(weeks[..|weeks| - 1]) + weeks[|weeks| - 1]
  }

  lemma FlattenSnoc(weeks: seq<seq<Cell>>, w: seq<Cell>)
    ensures Flatten(weeks + [w]) == Flatten(weeks) + w
  {
    assert (weeks + [w])[..|weeks|] == weeks;
  }

  /** With every week seven cells long, cell `j` of week `i` is cell `7 * i + j` of the flattened view. */
  lemma {:induction false} FlattenIndex(weeks: seq<seq<Cell>>, i: int, j: int)
    requires forall w :: 0 <= w < |weeks| ==> |weeks[w]| == 7
    requires 0 <= i < |weeks| && 0 <= j < 7
    ensures |Flatten(weeks)| == 7 * |weeks|
    ensures Flatten(weeks)[7 * i + j] == weeks[i][j]
    decreases |weeks|
  {
    var init := weeks[..|weeks| - 1];
    FlattenLength(init);
    if i < |weeks| - 1 {
      FlattenIndex(init, i, j);
    }
  }

  lemma {:induction false} FlattenLength(weeks: seq<seq<Cell>>)
    requires forall w :: 0 <= w < |weeks| ==> |weeks[w]| == 7
    ensures |Flatten(weeks)| == 7 * |weeks|
    decreases |weeks|
  {
    if weeks != [] {
      FlattenLength(weeks[..|weeks| - 1]);
    }
  }

  /** The first loop of `generar_estructura_mes`: the last `lead` days of the previous month. */
  method LeadingDays(year: int, month: int, today: string) returns (week: seq<Cell>)
    requires 1 <= month <= 12
    ensures |week| == LeadCount(year, month)
    ensures GridPrefix(year, month, today, week)
  {
    var startWeekday := IsoWeekday(MktimeYear(year), month, 1);
    ghost var lead := LeadCount(year, month);
    var (prevYear, prevMonth) := PrevMonth(year, month);
    var prevDays := DaysInMonth(MktimeYear(prevYear), prevMonth);
    assert prevDays == PrevMonthLength(year, month);
    week := [];
    var i := startWeekday - 1;
    while i > 0
      invariant 0 <= i <= lead
      invariant |week| == lead - i
      invariant GridPrefix(year, month, today, week)
    {
      var day := prevDays - i + 1;
      var cell := Cell(day, FormatDate(prevYear, prevMonth, day), false, false);
      LeadingCell(year, month, today, lead - i);
      GridPrefixSnoc(year, month, today, week, cell);
      week := week + [cell];
      i := i - 1;
    }
  }

  /**
   * The second loop: the days of the month, appended to the partial week
   * `week0` and flushed every seven cells.  Afterwards the complete weeks and
   * the pending partial week together are the view up to the month's last day.
   */
  method MonthDays(year: int, month: int, today: string, week0: seq<Cell>) returns (weeks: seq<seq<Cell>>, week: seq<Cell>)
    requires 1 <= month <= 12
    requires |week0| == LeadCount(year, month) && GridPrefix(year, month, today, week0)
    ensures forall w :: 0 <= w < |weeks| ==> |weeks[w]| == 7
    ensures |Flatten(weeks)| == 7 * |weeks| && |week| < 7
    ensures |Flatten(weeks) + week| == LeadCount(year, month) + MonthLength(year, month)
    ensures GridPrefix(year, month, today, Flatten(weeks) + week)
  {
    var daysInMonth := DaysInMonth(MktimeYear(year), month);
    ghost var lead := LeadCount(year, month);
    ghost var done := week0;
    weeks := [];
    week := week0;
    var day := 1;
    while day <= daysInMonth
      invariant 1 <= day <= daysInMonth + 1
      invariant |week| < 7
      invariant forall w :: 0 <= w < |weeks| ==> |weeks[w]| == 7
      invariant |Flatten(weeks)| == 7 * |weeks|
      invariant Flatten(weeks) + week == done && |done| == lead + day - 1
      invariant GridPrefix(year, month, today, done)
    {
      var date := FormatDate(year, month, day);
      var cell := Cell(day, date, true, date == today);
      MonthCell(year, month, today, lead + day - 1);
      GridPrefixSnoc(year, month, today, done, cell);
      week := week + [cell];
      done := done + [cell];
      if |week| == 7 {
        FlattenSnoc(weeks, week);
        weeks := weeks + [week];
        week := [];
      }
      day := day + 1;
    }
  }

  lemma MultiplesOfSeven(a: int, b: int)
    requires a % 7 == 0 && b % 7 == 0 && a < b
    ensures a + 7 <= b
  {
    assert a == 7 * (a / 7) && b == 7 * (b / 7);
  }

  /** The third loop: the first days of the next month, filling the last week up to seven cells. */
  method TrailingDays(year: int, month: int, today: string, ghost done: seq<Cell>, week0: seq<Cell>) returns (week: seq<Cell>)
    requires 1 <= month <= 12
    requires |done| == LeadCount(year, month) + MonthLength(year, month)
    requires GridPrefix(year, month, today, done)
    requires 0 < |week0| < 7 && |week0| <= |done| && week0 == done[|done| - |week0|..]
    requires (|done| - |week0|) % 7 == 0
    ensures |week| == 7
    ensures GridPrefix(year, month, today, done[..|done| - |week0|] + week)
  {
    var (nextYear, nextMonth) := NextMonth(year, month);
    ghost var base := done[..|done| - |week0|];
    assert base + week0 == done;
    ghost var n := CellCount(year, month);
    MultiplesOfSeven(|base|, n);
    ghost var cur := done;
    week := week0;
    var d := 1;
    while |week| < 7
      invariant 1 <= d
      invariant |week| <= 7
      invariant base + week == cur && |cur| == |done| + d - 1
      invariant GridPrefix(year, month, today, cur)
      decreases 7 - |week|
    {
      var date := FormatDate(nextYear, nextMonth, d);
      var cell := Cell(d, date, false, false);
      TrailingCell(year, month, today, |cur|);
      GridPrefixSnoc(year, month, today, cur, cell);
      week := week + [cell];
      cur := cur + [cell];
      d := d + 1;
    }
  }

  /**
   * `generar_estructura_mes($anio, $mes)`, with the current date (`date('Y-m-d')`)
   * passed in as `today`.  The weeks are seven cells each, four to six of them,
   * and laid end to end they are exactly `GridCells`; the first week ends and
   * the last week starts inside the month, so no week is all padding.
   */
  method BuildMonth(year: int, month: int, today: string) returns (weeks: seq<seq<Cell>>)
    requires 1 <= month <= 12
    ensures forall w :: 0 <= w < |weeks| ==> |weeks[w]| == 7
    ensures Flatten(weeks) == GridCells(year, month, today)
    ensures 4 <= |weeks| <= 6
    ensures weeks[0][6].inMonth && weeks[|weeks| - 1][0].inMonth
  {
    var week := LeadingDays(year, month, today);
    weeks, week := MonthDays(year, month, today, week);
    ghost var done := Flatten(weeks) + week;
    if |week| > 0 {
      assert Flatten(weeks) == done[..|done| - |week|];
      week := TrailingDays(year, month, today, done, week);
      FlattenSnoc(weeks, week);
      weeks := weeks + [week];
    } else {
      assert Flatten(weeks) == done;
    }
    GridPrefixFull(year, month, today, Flatten(weeks));
    FlattenIndex(weeks, 0, 6);
    FlattenIndex(weeks, |weeks| - 1, 0);
  }

  // ---------------------------------------------------------------------
  // Properties of the view
  // ---------------------------------------------------------------------

  /** Exactly the cells `lead .. lead + len - 1` belong to the month; they show days 1 .. len in order, each with its own date. */
  lemma InMonthCells(year: int, month: int, today: string)
    requires 1 <= month <= 12
    ensures var cells := GridCells(year, month, today);
            var lead := LeadCount(year, month);
            forall k :: 0 <= k < |cells| ==>
              (cells[k].inMonth <==> lead <= k < lead + MonthLength(year, month)) &&
              (cells[k].inMonth ==> cells[k].day == k - lead + 1 && cells[k].date == FormatDate(year, month, k - lead + 1))
  {
    var cells := GridCells(year, month, today);
    var lead := LeadCount(year, month);
    forall k | 0 <= k < |cells|
      ensures cells[k].inMonth <==> lead <= k < lead + MonthLength(year, month)
      ensures cells[k].inMonth ==> cells[k].day == k - lead + 1 && cells[k].date == FormatDate(year, month, k - lead + 1)
    {
      assert cells[k] == CellAt(year, month, today, k);
      if k < lead {
        LeadingCell(year, month, today, k);
      } else if k < lead + MonthLength(year, month) {
        MonthCell(year, month, today, k);
      } else {
        TrailingCell(year, month, today, k);
      }
    }
  }

  /**
   * `es_hoy`: a cell is today exactly when it belongs to the month and its
   * date is `today`; at most one cell is today, and one is exactly when
   * `today` is the text of some day of the month.
   */
  lemma TodayCells(year: int, month: int, today: string)
    requires 1 <= month <= 12
    ensures var cells := GridCells(year, month, today);
            forall k :: 0 <= k < |cells| ==> (cells[k].isToday <==> cells[k].inMonth && cells[k].date == today)
    ensures var cells := GridCells(year, month, today);
            forall k1, k2 :: 0 <= k1 < |cells| && 0 <= k2 < |cells| && cells[k1].isToday && cells[k2].isToday ==> k1 == k2
    ensures var cells := GridCells(year, month, today);
            (exists k :: 0 <= k < |cells| && cells[k].isToday) <==>
            (exists d :: 1 <= d <= MonthLength(year, month) && FormatDate(year, month, d) == today)
  {
    TodayCellsIff(year, month, today);
    TodayCellsUnique(year, month, today);
    TodayCellsExist(year, month, today);
  }

  /** A cell is today exactly when it is in the month with today's date, and then it is that day's cell. */
  lemma TodayCellsIff(year: int, month: int, today: string)
    requires 1 <= month <= 12
    ensures var cells := GridCells(year, month, today);
            forall k :: 0 <= k < |cells| ==> (cells[k].isToday <==> cells[k].inMonth && cells[k].date == today) &&
                                             (cells[k].isToday ==> TodayDay(year, month, today, k))
  {
    var cells := GridCells(year, month, today);
    forall k | 0 <= k < |cells|
      ensures cells[k].isToday <==> cells[k].inMonth && cells[k].date == today
      ensures cells[k].isToday ==> TodayDay(year, month, today, k)
    {
      TodayCell(year, month, today, k);
    }
  }

  /** At most one cell is today. */
  lemma TodayCellsUnique(year: int, month: int, today: string)
    requires 1 <= month <= 12
    ensures var cells := GridCells(year, month, today);
            forall k1, k2 :: 0 <= k1 < |cells| && 0 <= k2 < |cells| && cells[k1].isToday && cells[k2].isToday ==> k1 == k2
  {
    var cells := GridCells(year, month, today);
    var lead := LeadCount(year, month);
    TodayCellsIff(year, month, today);
    forall k1, k2 | 0 <= k1 < |cells| && 0 <= k2 < |cells| && cells[k1].isToday && cells[k2].isToday
      ensures k1 == k2
    {
      FormatDateDayInjective(year, month, k1 - lead + 1, k2 - lead + 1);
    }
  }

  /** Some cell is today exactly when `today` is the printed date of a day of the month. */
  lemma TodayCellsExist(year: int, month: int, today: string)
    requires 1 <= month <= 12
    ensures var cells := GridCells(year, month, today);
            (exists k :: 0 <= k < |cells| && cells[k].isToday) <==>
            (exists d :: 1 <= d <= MonthLength(year, month) && FormatDate(year, month, d) == today)
  {
    var cells := GridCells(year, month, today);
    var lead := LeadCount(year, month);
    TodayCellsIff(year, month, today);
    if d :| 1 <= d <= MonthLength(year, month) && FormatDate(year, month, d) == today {
      MonthCell(year, month, today, lead + d - 1);
      assert cells[lead + d - 1].isToday;
    }
    if k :| 0 <= k < |cells| && cells[k].isToday {
      var d := k - lead + 1;
      assert 1 <= d <= MonthLength(year, month) && FormatDate(year, month, d) == today;
    }
  }

  /** Cell `k` is a day of the month whose printed date is `today`. */
  ghost predicate TodayDay(year: int, month: int, today: string, k: int)
    requires 1 <= month <= 12
  {
    LeadCount(year, month) <= k < LeadCount(year, month) + MonthLength(year, month) &&
    FormatDate(year, month, k - LeadCount(year, month) + 1) == today
  }

  /** The today flag of one cell. */
  lemma TodayCell(year: int, month: int, today: string, k: int)
    requires 1 <= month <= 12 && 0 <= k < CellCount(year, month)
    ensures var c := GridCells(year, month, today)[k];
            (c.isToday <==> c.inMonth && c.date == today) && (c.isToday ==> TodayDay(year, month, today, k))
  {
    var lead := LeadCount(year, month);
    assert GridCells(year, month, today)[k] == CellAt(year, month, today, k);
    if k < lead {
      LeadingCell(year, month, today, k);
    } else if k < lead + MonthLength(year, month) {
      MonthCell(year, month, today, k);
    } else {
      TrailingCell(year, month, today, k);
    }
  }

  /** The trailing padding is empty exactly when the month's last day is a Sunday. */
  lemma TrailingPadding(year: int, month: int)
    requires 1 <= month <= 12
    ensures TrailCount(year, month) == 0 <==> IsoWeekday(MktimeYear(year), month, MonthLength(year, month)) == 7
  {
    var first := DayNumber(MktimeYear(year), month, 1);
    var len := MonthLength(year, month);
    assert first == 7 * (first / 7) + LeadCount(year, month);
    assert DayNumber(MktimeYear(year), month, len) == first + len - 1;
    ModShift(first + len - 1, first / 7, LeadCount(year, month) + len - 1);
  }

  lemma ModShift(a: int, q: int, b: int)
    requires a == 7 * q + b
    ensures a % 7 == b % 7
  {
    assert b == 7 * (b / 7) + b % 7;
    assert a == 7 * (q + b / 7) + b % 7;
  }

  /** Outside `mktime`'s two-digit range, a month of year `y` has the same length in both readings of the year. */
  lemma MktimeMonthLength(y: int, m: int)
    requires 1 <= m <= 12
    requires y < 0 || y > 100 || (y == 100 && m == 12)
    ensures DaysInMonth(MktimeYear(y), m) == DaysInMonth(y, m)
  {
  }

  /**
   * For a year that `mktime` reads as written, the cells are consecutive
   * real days (cell `k` is `k` days after cell 0), and the cell in column
   * `j` of any row falls on ISO weekday `j + 1`.
   */
  lemma CellDateContiguous(year: int, month: int, k: int)
    requires 1 <= month <= 12
    requires year < 0 || year > 100
    requires 0 <= k < CellCount(year, month)
    ensures var (y, m, d) := CellDate(year, month, k);
            IsRealDate(y, m, d) &&
            DayNumber(y, m, d) == DayNumber(year, month, 1) - LeadCount(year, month) + k &&
            IsoWeekday(y, m, d) == k % 7 + 1
  {
    var lead := LeadCount(year, month);
    var len := MonthLength(year, month);
    var first := DayNumber(year, month, 1);
    var (y, m, d) := CellDate(year, month, k);
    if k < lead {
      var (py, pm) := PrevMonth(year, month);
      MktimeMonthLength(py, pm);
      PrevNextInverse(year, month);
      NextMonthStart(py, pm);
      assert DayNumber(y, m, d) == DayNumber(py, pm, 1) + d - 1;
    } else if k >= lead + len {
      NextMonthStart(year, month);
      var (ny, nm) := NextMonth(year, month);
      assert DayNumber(y, m, d) == DayNumber(ny, nm, 1) + d - 1;
    }
    assert DayNumber(y, m, d) == first - lead + k;
    assert first == 7 * (first / 7) + lead;
    ModShift(DayNumber(y, m, d), first / 7, k);
  }

  /**
   * Read back through the weeks of `BuildMonth`: cell `j` of week `i` is
   * cell `7 * i + j` of the view, and (for a year `mktime` reads as written)
   * it falls on ISO weekday `j + 1`, matching the Monday-first header.
   */
  lemma WeekColumn(year: int, month: int, today: string, weeks: seq<seq<Cell>>, i: int, j: int)
    requires 1 <= month <= 12
    requires forall w :: 0 <= w < |weeks| ==> |weeks[w]| == 7
    requires Flatten(weeks) == GridCells(year, month, today)
    requires 0 <= i < |weeks| && 0 <= j < 7
    ensures weeks[i][j] == CellAt(year, month, today, 7 * i + j)
    ensures year < 0 || year > 100 ==> IsoWeekday(CellDate(year, month, 7 * i + j).0, CellDate(year, month, 7 * i + j).1, CellDate(year, month, 7 * i + j).2) == j + 1
  {
    WeekCell(year, month, today, weeks, i, j);
    if year < 0 || year > 100 {
      assert 7 * i + j < CellCount(year, month) by {
        FlattenIndex(weeks, i, j);
      }
      CellWeekday(year, month, i, j);
    }
  }

  /** Cell `j` of week `i` is cell `7 * i + j` of the view. */
  lemma WeekCell(year: int, month: int, today: string, weeks: seq<seq<Cell>>, i: int, j: int)
    requires 1 <= month <= 12
    requires forall w :: 0 <= w < |weeks| ==> |weeks[w]| == 7
    requires Flatten(weeks) == GridCells(year, month, today)
    requires 0 <= i < |weeks| && 0 <= j < 7
    ensures 7 * i + j < CellCount(year, month)
    ensures weeks[i][j] == CellAt(year, month, today, 7 * i + j)
  {
    var k := 7 * i + j;
    FlattenIndex(weeks, i, j);
    assert k < |GridCells(year, month, today)|;
    assert weeks[i][j] == GridCells(year, month, today)[k];
  }

  /** For a year `mktime` reads as written, cell `7 * i + j` falls on ISO weekday `j + 1`. */
  lemma CellWeekday(year: int, month: int, i: int, j: int)
    requires 1 <= month <= 12
    requires year < 0 || year > 100
    requires 0 <= j < 7 && 0 <= 7 * i + j < CellCount(year, month)
    ensures var (y, m, d) := CellDate(year, month, 7 * i + j); IsoWeekday(y, m, d) == j + 1
  {
    RowColumn(i, j);
    CellDateContiguous(year, month, 7 * i + j);
  }

  lemma RowColumn(i: int, j: int)
    requires 0 <= j < 7
    ensures (7 * i + j) % 7 == j
  {
    ModShift(7 * i + j, i, j);
  }
}
