/**
 * The three statistics queries of `Calendario` (`obtener_estadisticas_mes`,
 * `obtener_estadisticas_anio`, `obtener_estadisticas_totales`) as folds over
 * the rows the SQL `WHERE` selects.  SQL aggregates over no rows are NULL
 * (`None`), except `COUNT(*)`, which is 0.  PHP's `round(x, 1)` of the
 * averages is kept exactly, in integer tenths.
 */
module Statistics {
  import opened Base
  import opened Text
  import opened Gregorian
  import opened Helpers
  import opened DayStore

  // ---------------------------------------------------------------------
  // Aggregates
  // ---------------------------------------------------------------------

  /** The `numero_valor` column of the selected rows. */
  function Values(sel: seq<Row>): (xs: seq<int>)
    ensures |xs| == |sel| && forall i :: 0 <= i < |sel| ==> xs[i] == sel[i].value
  {
    seq(|sel|, i requires 0 <= i < |sel| => sel[i].value)
  }

  function Sum(xs: seq<int>): int {
    if xs == [] then 0 else xs[0] + Sum(xs[1..])
  }

  /** SQL `MIN`: NULL over no rows, otherwise an element no larger than any other. */
  function MinOf(xs: seq<int>): (r: Option<int>)
    ensures r.None? <==> xs == []
    ensures r.Some? ==> (exists i :: 0 <= i < |xs| && xs[i] == r.value) && forall i :: 0 <= i < |xs| ==> r.value <= xs[i]
  {
    if xs == [] then None
    else match MinOf(xs[1..])
      case None => Some(xs[0])
      case Some(m) => Some(if xs[0] <= m then xs[0] else m)
  }

  /** SQL `MAX`: NULL over no rows, otherwise an element no smaller than any other. */
  function MaxOf(xs: seq<int>): (r: Option<int>)
    ensures r.None? <==> xs == []
    ensures r.Some? ==> (exists i :: 0 <= i < |xs| && xs[i] == r.value) && forall i :: 0 <= i < |xs| ==> xs[i] <= r.value
  {
    if xs == [] then None
    else match MaxOf(xs[1..])
      case None => Some(xs[0])
      case Some(m) => Some(if xs[0] >= m then xs[0] else m)
  }

  /**
   * `t = ''` in the table's `utf8mb4_unicode_ci` collation, which is PAD
   * SPACE: trailing spaces are ignored, so a text of spaces equals `''`.
   */
  predicate PadsToEmpty(t: string) {
    forall i :: 0 <= i < |t| ==> t[i] == ' '
  }

  /** `observaciones IS NOT NULL AND observaciones != ''`: NULL, `''` and a text of spaces are "no note". */
  predicate HasNote(r: Row) {
    r.notes.Some? && !PadsToEmpty(r.notes.value)
  }

  /** `SUM(CASE WHEN <has note> THEN 1 ELSE 0 END)`, before the NULL of an empty selection. */
  function NotedCount(sel: seq<Row>): (n: nat)
    ensures n <= |sel|
    ensures n == 0 <==> forall i :: 0 <= i < |sel| ==> !HasNote(sel[i])
    ensures n == |sel| <==> forall i :: 0 <= i < |sel| ==> HasNote(sel[i])
  {
    if sel == [] then 0
    else (if HasNote(sel[0]) then 1 else 0) + NotedCount(sel[1..])
  }

  /** Every value is at least lo, so the sum is at least lo * count. */
  lemma {:induction false} SumLower(xs: seq<int>, lo: int)
    requires forall i :: 0 <= i < |xs| ==> lo <= xs[i]
    ensures lo * |xs| <= Sum(xs)
  {
    if xs != [] {
      assert forall i :: 0 <= i < |xs| - 1 ==> xs[1..][i] == xs[i + 1];
      SumLower(xs[1..], lo);
    }
  }

  /** Every value is at most hi, so the sum is at most hi * count. */
  lemma {:induction false} SumUpper(xs: seq<int>, hi: int)
    requires forall i :: 0 <= i < |xs| ==> xs[i] <= hi
    ensures Sum(xs) <= hi * |xs|
  {
    if xs != [] {
      assert forall i :: 0 <= i < |xs| - 1 ==> xs[1..][i] == xs[i + 1];
      SumUpper(xs[1..], hi);
    }
  }

  // ---------------------------------------------------------------------
  // Rounding of the averages
  // ---------------------------------------------------------------------

  /**
   * PHP `round(n / d, 1)` in tenths: the integer nearest to 10 n / d, halves
   * going away from zero.
   */
  function RoundTenths(n: int, d: pos): (r: int)
    ensures n >= 0 ==> d * (2 * r - 1) <= 20 * n < d * (2 * r + 1)
    ensures n < 0 ==> d * (2 * r - 1) < 20 * n <= d * (2 * r + 1)
  {
    if n >= 0 then
      var q := (20 * n + d) / (2 * d);
      assert 20 * n + d == 2 * d * q + (20 * n + d) % (2 * d);
      q
    else
      var q := (-20 * n + d) / (2 * d);
      assert -20 * n + d == 2 * d * q + (-20 * n + d) % (2 * d);
      -q
  }

  /** The bounds of `RoundTenths` leave only one possible value. */
  lemma RoundTenthsUnique(n: int, d: pos, r: int)
    requires n >= 0 ==> d * (2 * r - 1) <= 20 * n < d * (2 * r + 1)
    requires n < 0 ==> d * (2 * r - 1) < 20 * n <= d * (2 * r + 1)
    ensures r == RoundTenths(n, d)
  {
    var t := RoundTenths(n, d);
    if r < t {
      assert d * (2 * r + 1) <= d * (2 * t - 1) by {
        assert 2 * r + 1 <= 2 * t - 1;
        MulLe(d, 2 * r + 1, 2 * t - 1);
      }
    } else if r > t {
      assert d * (2 * t + 1) <= d * (2 * r - 1) by {
        assert 2 * t + 1 <= 2 * r - 1;
        MulLe(d, 2 * t + 1, 2 * r - 1);
      }
    }
  }

  lemma MulLe(d: pos, a: int, b: int)
    requires a <= b
    ensures d * a <= d * b
  {
  }

  /** 13 / 12 = 1.08 shows as 1.1; 100 / 3 as 33.3; 1 / 4 = 0.25 rounds up to 0.3 and -0.25 down to -0.3. */
  lemma RoundTenthsExamples()
    ensures RoundTenths(13, 12) == 11
    ensures RoundTenths(100, 3) == 333
    ensures RoundTenths(1, 4) == 3
    ensures RoundTenths(-1, 4) == -3
    ensures RoundTenths(60, 12) == 50
  {
  }

  // ---------------------------------------------------------------------
  // Month and year statistics
  // ---------------------------------------------------------------------

  /** The dictionary `total_dias`, `total`, `minimo`, `maximo`, `dias_con_observaciones`. */
  datatype Stats = Stats(totalDays: int, total: int, minimum: Option<int>, maximum: Option<int>, notedDays: Option<int>)

  /** The dictionary returned when the query fails: every entry 0. */
  const FailedStats := Stats(0, 0, Some(0), Some(0), Some(0))

  /** PHP `$x ? intval($x) : 0` on the SQL `SUM`: NULL becomes 0. */
  function NullToZero(o: Option<int>): (n: int)
    ensures o.None? ==> n == 0
    ensures o.Some? ==> n == o.value
  {
    if o.Some? then o.value else 0
  }

  /** The fetched row of the aggregate query over `sel`, with `total` normalised. */
  function Aggregate(sel: seq<Row>): (s: Stats)
    ensures s.totalDays == |sel|
    ensures sel == [] ==> s == Stats(0, 0, None, None, None)
    ensures sel != [] ==> s.minimum.Some? && s.maximum.Some? && s.minimum.value <= s.maximum.value
    ensures sel != [] ==> s.notedDays.Some? && 0 <= s.notedDays.value <= |sel|
  {
    var xs := Values(sel);
    Stats(|sel|, NullToZero(if sel == [] then None else Some(Sum(xs))), MinOf(xs), MaxOf(xs),
          if sel == [] then None else Some(NotedCount(sel)))
  }

  /** The rows `WHERE usuario_id = ? AND fecha BETWEEN <first> AND <last day of month>`. */
  function MonthRows(rows: seq<Row>, user: int, year: int, month: int): seq<Row>
    requires 1 <= month <= 12
  {
    SelectRange(rows, user, MonthStart(year, month), MonthEnd(year, month))
  }

  /** The rows `WHERE usuario_id = ? AND fecha BETWEEN 'YYYY-01-01' AND 'YYYY-12-31'`. */
  function YearRows(rows: seq<Row>, user: int, year: int): seq<Row> {
    SelectRange(rows, user, FormatDate(year, 1, 1), FormatDate(year, 12, 31))
  }

  /** `obtener_estadisticas_mes`. */
  function MonthStatistics(rows: seq<Row>, user: int, year: int, month: int, dbOk: bool): (s: Stats)
    requires 1 <= month <= 12
    ensures !dbOk ==> s == FailedStats
    ensures dbOk ==> s.totalDays == |MonthRows(rows, user, year, month)|
  {
    if dbOk then Aggregate(MonthRows(rows, user, year, month)) else FailedStats
  }

  /** The dictionary of `obtener_estadisticas_anio`: the month entries plus `promedio_mensual`, in tenths. */
  datatype YearStats = YearStats(stats: Stats, monthlyAverage: int)

  /** `promedio_mensual`: `round(total / 12, 1)` with halves away from zero, or 0 when the total is 0. */
  function MonthlyAverage(total: int): (a: int)
    ensures total == 0 ==> a == 0
    ensures total > 0 ==> 12 * (2 * a - 1) <= 20 * total < 12 * (2 * a + 1)
    ensures total < 0 ==> 12 * (2 * a - 1) < 20 * total <= 12 * (2 * a + 1)
  {
    if total != 0 then RoundTenths(total, 12) else 0
  }

  /** A total of 3 is 0.25 a month, a half, which rounds away from zero to 0.3. */
  lemma MonthlyAverageTie()
    ensures MonthlyAverage(3) == 3 && MonthlyAverage(-3) == -3
  {
  }

  /** `obtener_estadisticas_anio`. */
  function YearStatistics(rows: seq<Row>, user: int, year: int, dbOk: bool): (y: YearStats)
    ensures !dbOk ==> y == YearStats(FailedStats, 0)
    ensures dbOk ==> y.stats.totalDays == |YearRows(rows, user, year)|
    ensures y.stats.total == 0 ==> y.monthlyAverage == 0
  {
    if dbOk then
      var s := Aggregate(YearRows(rows, user, year));
      YearStats(s, MonthlyAverage(s.total))
    else YearStats(FailedStats, 0)
  }

  // ---------------------------------------------------------------------
  // All-time statistics
  // ---------------------------------------------------------------------

  /** The rows `WHERE usuario_id = ?`. */
  function UserRows(rows: seq<Row>, user: int): (sel: seq<Row>)
    ensures forall r :: r in sel <==> r in rows && r.user == user
  {
    if rows == [] then []
    else if rows[0].user == user then [rows[0]] + UserRows(rows[1..], user)
    else UserRows(rows[1..], user)
  }

  /** MySQL `YEAR(fecha)`; on the text of a date it is the leading integer. */
  function YearOf(date: string): int {
    PhpIntval(date)
  }

  function Years(sel: seq<Row>): (ys: seq<int>)
    ensures |ys| == |sel| && forall i :: 0 <= i < |sel| ==> ys[i] == YearOf(sel[i].date)
  {
    seq(|sel|, i requires 0 <= i < |sel| => YearOf(sel[i].date))
  }

  /** PHP truthiness of a fetched integer column: NULL and 0 are false. */
  predicate Truthy(o: Option<int>) {
    o.Some? && o.value != 0
  }

  /** The dictionary `total_dias`, `total`, `primer_anio`, `ultimo_anio`, `promedio_anual` (tenths). */
  datatype TotalStats = TotalStats(totalDays: int, total: int, firstYear: Option<int>, lastYear: Option<int>, yearlyAverage: int)

  /** `$anios_con_datos`: last year minus first year plus one, or 0 unless both are truthy. */
  function YearsWithData(first: Option<int>, last: Option<int>): (n: int)
    ensures !(Truthy(first) && Truthy(last)) ==> n == 0
    ensures Truthy(first) && Truthy(last) ==> n == last.value - first.value + 1
  {
    if Truthy(first) && Truthy(last) then last.value - first.value + 1 else 0
  }

  /** `promedio_anual`: `round(total / years, 1)` when both are positive, otherwise 0. */
  function YearlyAverage(total: int, years: int): (a: int)
    ensures !(years > 0 && total > 0) ==> a == 0
    ensures years > 0 && total > 0 ==> years * (2 * a - 1) <= 20 * total < years * (2 * a + 1)
  {
    if years > 0 && total > 0 then RoundTenths(total, years) else 0
  }

  /** `obtener_estadisticas_totales`. */
  function TotalStatistics(rows: seq<Row>, user: int, dbOk: bool): (t: TotalStats)
    ensures !dbOk ==> t == TotalStats(0, 0, None, None, 0)
    ensures dbOk ==> t.totalDays == |UserRows(rows, user)|
    ensures dbOk ==> (t.firstYear.None? <==> UserRows(rows, user) == []) && (t.lastYear.None? <==> UserRows(rows, user) == [])
  {
    if dbOk then
      var sel := UserRows(rows, user);
      var total := NullToZero(if sel == [] then None else Some(Sum(Values(sel))));
      var first, last := MinOf(Years(sel)), MaxOf(Years(sel));
      TotalStats(|sel|, total, first, last, YearlyAverage(total, YearsWithData(first, last)))
    else TotalStats(0, 0, None, None, 0)
  }

  // ---------------------------------------------------------------------
  // Properties
  // ---------------------------------------------------------------------

  /** With no rows the query succeeds with `total` 0 and the other aggregates NULL; the zeros are the failure path only. */
  lemma MonthStatisticsNoRows(rows: seq<Row>, user: int, year: int, month: int)
    requires 1 <= month <= 12
    requires MonthRows(rows, user, year, month) == []
    ensures MonthStatistics(rows, user, year, month, true) == Stats(0, 0, None, None, None)
    ensures MonthStatistics(rows, user, year, month, true) != MonthStatistics(rows, user, year, month, false)
  {
  }

  /**
   * On success, the minimum and maximum are ratings of selected rows and bound
   * all of them; with ratings 1 .. 5 the total is between the count and five times it.
   */
  lemma AggregateBounds(sel: seq<Row>)
    requires forall i :: 0 <= i < |sel| ==> 1 <= sel[i].value <= 5
    ensures var s := Aggregate(sel);
            s.totalDays <= s.total <= 5 * s.totalDays &&
            (sel != [] ==> 1 <= s.minimum.value && s.maximum.value <= 5) &&
            forall i :: 0 <= i < |sel| ==> s.minimum.value <= sel[i].value <= s.maximum.value
  {
    var xs := Values(sel);
    SumLower(xs, 1);
    SumUpper(xs, 5);
    if sel != [] {
      var i :| 0 <= i < |xs| && xs[i] == MinOf(xs).value;
      var j :| 0 <= j < |xs| && xs[j] == MaxOf(xs).value;
    }
  }

  /** A note counts exactly when it is present and holds some character other than a space. */
  lemma NotedDaysCount(sel: seq<Row>)
    requires sel != []
    ensures var n := Aggregate(sel).notedDays.value;
            (n == 0 <==> forall i :: 0 <= i < |sel| ==> sel[i].notes.None? || forall k :: 0 <= k < |sel[i].notes.value| ==> sel[i].notes.value[k] == ' ') &&
            (n == |sel| <==> forall i :: 0 <= i < |sel| ==> sel[i].notes.Some? && exists k :: 0 <= k < |sel[i].notes.value| && sel[i].notes.value[k] != ' ')
  {
    assert Aggregate(sel).notedDays.value == NotedCount(sel);
    forall i | 0 <= i < |sel|
      ensures HasNote(sel[i]) <==> sel[i].notes.Some? && exists k :: 0 <= k < |sel[i].notes.value| && sel[i].notes.value[k] != ' '
    {
    }
  }

  /**
   * The page stores `sanitizar_entrada` of the posted note, which is
   * trimmed, so a stored note compares equal to `''` only when it is `''`.
   */
  lemma SanitizedNoteBlank(s: string)
    ensures var t := Sanitize(Str(s)).s;
            PadsToEmpty(t) <==> t == ""
  {
    var t := Sanitize(Str(s)).s;
    SanitizeString(s);
    assert t == [] || !IsTrimChar(t[0]);
    if t != [] {
      assert IsTrimChar(' ');
      assert t[0] != ' ';
    }
  }

  /** For stored dates, the month statistics count exactly the user's rows dated on a day of that month. */
  lemma MonthRowsSpec(rows: seq<Row>, user: int, year: nat, month: int, r: Row)
    requires year <= 9999 && 1 <= month <= 12
    requires IsValidDate(r.date)
    ensures r in MonthRows(rows, user, year, month) <==>
            r in rows && r.user == user && exists d :: 1 <= d <= DaysInMonth(year, month) && r.date == FormatDate(year, month, d)
  {
    InMonthRange(r.date, year, month);
  }

  /** For stored dates, the year statistics count exactly the user's rows dated in that year. */
  lemma YearRowsSpec(rows: seq<Row>, user: int, year: nat, r: Row)
    requires year <= 9999
    requires IsValidDate(r.date)
    ensures r in YearRows(rows, user, year) <==>
            r in rows && r.user == user && exists m, d :: IsRealDate(year, m, d) && r.date == FormatDate(year, m, d)
  {
    InYearRange(r.date, year);
  }

  /** Several rows of one date would be several map entries; with one row per (user, date) the counts agree. */
  lemma {:induction false} DayMapSize(sel: seq<Row>)
    requires DistinctDates(sel)
    ensures |DayMap(sel).Keys| == |sel|
    decreases |sel|
  {
    if sel != [] {
      var init := sel[..|sel| - 1];
      var last := sel[|sel| - 1];
      assert forall i :: 0 <= i < |init| ==> init[i] == sel[i];
      DayMapSize(init);
      var m := DayMap(init);
      assert last.date !in m;
      assert DayMap(sel).Keys == m.Keys + {last.date};
    }
  }

  lemma SelectedDaysSize(rows: seq<Row>, user: int, lo: string, hi: string)
    requires UniqueKeys(rows)
    ensures |DayMap(SelectRange(rows, user, lo, hi)).Keys| == |SelectRange(rows, user, lo, hi)|
  {
    SelectRangeUnique(rows, user, lo, hi);
    DayMapSize(SelectRange(rows, user, lo, hi));
  }

  /** `total_dias` of the month statistics is the number of entries of the month map `obtener_datos_mes` builds. */
  lemma MonthCountMatchesMap(rows: seq<Row>, user: int, year: int, month: int, dbOk: bool)
    requires 1 <= month <= 12
    requires UniqueKeys(rows)
    ensures MonthStatistics(rows, user, year, month, dbOk).totalDays == |MonthData(rows, user, year, month, dbOk).Keys|
  {
    if dbOk {
      SelectedDaysSize(rows, user, MonthStart(year, month), MonthEnd(year, month));
    }
  }

  /** `YEAR` of a stored date is its four-digit year. */
  lemma YearOfValidDate(date: string)
    requires IsValidDate(date)
    ensures YearOf(date) == DigitsValue(date[..4]) && 0 <= YearOf(date) <= 9999
  {
    assert date == date[..4] + date[4..];
    IntvalOfDigits(date[..4], date[4..]);
    SmallPowers();
  }

  /**
   * When some year is truthy the first year is no later than the last, so
   * `anios_con_datos` is at least 1, and with positive ratings the yearly
   * average is the rounded total per year.
   */
  lemma TotalStatisticsYears(rows: seq<Row>, user: int)
    requires forall r :: r in rows && r.user == user ==> IsValidDate(r.date) && r.value >= 1
    ensures var t := TotalStatistics(rows, user, true);
            var n := YearsWithData(t.firstYear, t.lastYear);
            (t.firstYear.Some? ==> 0 <= t.firstYear.value <= t.lastYear.value <= 9999) &&
            (Truthy(t.firstYear) ==> n >= 1 && n <= 9999) &&
            (Truthy(t.firstYear) ==> t.yearlyAverage == RoundTenths(t.total, n)) &&
            (t.firstYear.None? ==> t.total == 0 && t.yearlyAverage == 0)
  {
    var sel := UserRows(rows, user);
    var ys := Years(sel);
    var xs := Values(sel);
    forall i | 0 <= i < |xs| ensures 1 <= xs[i] {
      assert sel[i] in sel;
    }
    SumLower(xs, 1);
    forall i | 0 <= i < |sel| ensures 0 <= ys[i] <= 9999 {
      assert sel[i] in sel;
      YearOfValidDate(sel[i].date);
    }
    var total := NullToZero(if sel == [] then None else Some(Sum(xs)));
    var n := YearsWithData(MinOf(ys), MaxOf(ys));
    assert TotalStatistics(rows, user, true) == TotalStats(|sel|, total, MinOf(ys), MaxOf(ys), YearlyAverage(total, n));
    if sel != [] {
      YearRange(ys);
      assert total >= 1;
    }
  }

  /** The smallest and largest of some years in 0 .. 9999 are in order and in range. */
  lemma YearRange(ys: seq<int>)
    requires ys != [] && forall i :: 0 <= i < |ys| ==> 0 <= ys[i] <= 9999
    ensures MinOf(ys).Some? && MaxOf(ys).Some?
    ensures 0 <= MinOf(ys).value <= MaxOf(ys).value <= 9999
  {
    var i :| 0 <= i < |ys| && ys[i] == MinOf(ys).value;
    var j :| 0 <= j < |ys| && ys[j] == MaxOf(ys).value;
    assert MinOf(ys).value <= ys[j];
  }
}
