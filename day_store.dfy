/**
 * The `calendario_datos` table and the record operations of `Calendario`:
 * `obtener_datos_dia`, `guardar_datos_dia`, `eliminar_datos_dia`,
 * `obtener_datos_mes` and `validar_datos`.  The table is the sequence of its
 * rows; the unique key (usuario_id, fecha) is the invariant `UniqueKeys`.
 * Whether a statement reaches the database is a parameter (`dbOk`), and the
 * current time is a parameter (`now`).
 */
module DayStore {
  import opened Base
  import opened Text
  import opened Gregorian
  import opened Helpers

  /** One row: user, date, rating, notes (NULL allowed), creation and modification times. */
  datatype Row = Row(user: int, date: string, value: int, notes: Option<string>, created: int, modified: int)

  predicate HasKey(r: Row, user: int, date: string) {
    r.user == user && r.date == date
  }

  /** The unique key (usuario_id, fecha): no two rows share it. */
  predicate UniqueKeys(rows: seq<Row>) {
    forall i, j :: 0 <= i < |rows| && 0 <= j < |rows| && rows[i].user == rows[j].user && rows[i].date == rows[j].date ==> i == j
  }

  predicate SameKey(a: Row, b: Row) {
    a.user == b.user && a.date == b.date
  }

  /** A row in front of a table keeps the key unique exactly when its key is not in the table. */
  lemma UniqueCons(x: Row, t: seq<Row>)
    ensures UniqueKeys([x] + t) <==> UniqueKeys(t) && forall y :: y in t ==> !SameKey(x, y)
  {
    var s := [x] + t;
    if UniqueKeys(s) {
      forall a, b | 0 <= a < |t| && 0 <= b < |t| && t[a].user == t[b].user && t[a].date == t[b].date
        ensures a == b
      {
        assert s[a + 1] == t[a] && s[b + 1] == t[b];
      }
      forall y | y in t ensures !SameKey(x, y) {
        var k :| 0 <= k < |t| && t[k] == y;
        assert s[k + 1] == y && s[0] == x;
      }
    }
    if UniqueKeys(t) && forall y :: y in t ==> !SameKey(x, y) {
      forall k | 0 < k < |s| ensures !SameKey(s[0], s[k]) {
        assert s[k] == t[k - 1] && s[k] in t;
      }
      forall a, b | 0 <= a < |s| && 0 <= b < |s| && s[a].user == s[b].user && s[a].date == s[b].date
        ensures a == b
      {
        if a > 0 && b > 0 {
          assert s[a] == t[a - 1] && s[b] == t[b - 1];
        }
      }
    }
  }

  /** `obtener_datos_dia`: the row stored for (user, date), if any. */
  function Find(rows: seq<Row>, user: int, date: string): (r: Option<Row>)
    ensures r.None? <==> forall i :: 0 <= i < |rows| ==> !HasKey(rows[i], user, date)
    ensures r.Some? ==> r.value in rows && HasKey(r.value, user, date)
  {
    if rows == [] then None
    else if HasKey(rows[0], user, date) then Some(rows[0])
    else Find(rows[1..], user, date)
  }

  /** Under the unique key, the row found for a key is the one row holding that key. */
  lemma {:induction false} FindUnique(rows: seq<Row>, user: int, date: string, i: int)
    requires UniqueKeys(rows) && 0 <= i < |rows| && HasKey(rows[i], user, date)
    ensures Find(rows, user, date) == Some(rows[i])
    decreases |rows|
  {
    if i > 0 && !HasKey(rows[0], user, date) {
      assert rows == [rows[0]] + rows[1..];
      UniqueCons(rows[0], rows[1..]);
      FindUnique(rows[1..], user, date, i - 1);
    }
  }

  /** The `UPDATE` of `guardar_datos_dia`: every row of the key gets the new rating and notes and is stamped `now`. */
  function Updated(rows: seq<Row>, user: int, date: string, value: int, notes: string, now: int): (r: seq<Row>)
    ensures |r| == |rows|
  {
    seq(|rows|, i requires 0 <= i < |rows| =>
      if HasKey(rows[i], user, date) then rows[i].(value := value, notes := Some(notes), modified := now) else rows[i])
  }

  /**
   * `guardar_datos_dia`: update the existing row of (user, date), or insert
   * one whose creation and modification times are both `now`.
   */
  function Upserted(rows: seq<Row>, user: int, date: string, value: int, notes: string, now: int): seq<Row> {
    if Find(rows, user, date).Some? then Updated(rows, user, date, value, notes, now)
    else rows + [Row(user, date, value, Some(notes), now, now)]
  }

  /** `eliminar_datos_dia`: every row of (user, date) removed, the others kept in order. */
  function Removed(rows: seq<Row>, user: int, date: string): (r: seq<Row>)
    ensures forall x :: x in r <==> x in rows && !HasKey(x, user, date)
  {
    if rows == [] then []
    else if HasKey(rows[0], user, date) then Removed(rows[1..], user, date)
    else [rows[0]] + Removed(rows[1..], user, date)
  }

  /**
   * After a save, exactly one row holds the key, with the given rating and
   * notes, stamped `now`, keeping its creation time when it already existed;
   * every other row is unchanged; the unique key still holds.
   */
  lemma UpsertedKey(rows: seq<Row>, user: int, date: string, value: int, notes: string, now: int)
    requires UniqueKeys(rows)
    ensures var r := Upserted(rows, user, date, value, notes, now);
            UniqueKeys(r) &&
            (exists i :: 0 <= i < |r| && HasKey(r[i], user, date)) &&
            Find(r, user, date) == Some(Row(user, date, value, Some(notes),
              if Find(rows, user, date).Some? then Find(rows, user, date).value.created else now, now))
  {
    var r := Upserted(rows, user, date, value, notes, now);
    match Find(rows, user, date)
    case Some(prev) =>
      var i :| 0 <= i < |rows| && rows[i] == prev;
      FindUnique(rows, user, date, i);
      assert r[i] == prev.(value := value, notes := Some(notes), modified := now);
      FindUnique(r, user, date, i);
    case None =>
      assert r[|rows|] == Row(user, date, value, Some(notes), now, now);
      FindUnique(r, user, date, |rows|);
  }

  /** A save leaves every row of another key where it was, and adds no other row. */
  lemma UpsertedOthers(rows: seq<Row>, user: int, date: string, value: int, notes: string, now: int)
    ensures var r := Upserted(rows, user, date, value, notes, now);
            |rows| <= |r| <= |rows| + 1 &&
            (forall i :: 0 <= i < |rows| && !HasKey(rows[i], user, date) ==> r[i] == rows[i]) &&
            (forall i :: |rows| <= i < |r| ==> HasKey(r[i], user, date))
  {
  }

  /** Saving the same data twice at the same time is saving it once. */
  lemma UpsertedIdempotent(rows: seq<Row>, user: int, date: string, value: int, notes: string, now: int)
    requires UniqueKeys(rows)
    ensures var once := Upserted(rows, user, date, value, notes, now);
            Upserted(once, user, date, value, notes, now) == once
  {
    var once := Upserted(rows, user, date, value, notes, now);
    UpsertedKey(rows, user, date, value, notes, now);
    var twice := Upserted(once, user, date, value, notes, now);
    assert Find(once, user, date).Some?;
    assert twice == Updated(once, user, date, value, notes, now);
    forall i | 0 <= i < |once| ensures twice[i] == once[i] {
      if HasKey(once[i], user, date) {
        FindUnique(once, user, date, i);
      }
    }
  }

  /** After a delete no row holds the key; the rest keep their order; the unique key still holds. */
  lemma {:induction false} RemovedKey(rows: seq<Row>, user: int, date: string)
    requires UniqueKeys(rows)
    ensures var r := Removed(rows, user, date);
            Find(r, user, date).None? && UniqueKeys(r) && |r| <= |rows|
    decreases |rows|
  {
    if rows != [] {
      assert rows == [rows[0]] + rows[1..];
      UniqueCons(rows[0], rows[1..]);
      RemovedKey(rows[1..], user, date);
      var tail := Removed(rows[1..], user, date);
      if !HasKey(rows[0], user, date) {
        UniqueCons(rows[0], tail);
      }
    }
  }

  /** Deleting twice is deleting once. */
  lemma {:induction false} RemovedIdempotent(rows: seq<Row>, user: int, date: string)
    ensures Removed(Removed(rows, user, date), user, date) == Removed(rows, user, date)
    decreases |rows|
  {
    if rows != [] {
      RemovedIdempotent(rows[1..], user, date);
    }
  }

  /** The table, as `Calendario` manipulates it. */
  class DayTable {
    var rows: seq<Row>

    ghost predicate Valid()
      reads this
    {
      UniqueKeys(rows)
    }

    constructor ()
      ensures Valid() && rows == []
    {
      rows := [];
    }

    /** `guardar_datos_dia`: true when the statement reached the database, and then the row is saved. */
    method SaveDay(user: int, date: string, value: int, notes: string, now: int, dbOk: bool) returns (ok: bool)
      requires Valid()
      modifies this
      ensures Valid()
      ensures ok == dbOk
      ensures rows == if ok then Upserted(old(rows), user, date, value, notes, now) else old(rows)
    {
      var existing := Find(rows, user, date);
      if !dbOk {
        return false;
      }
      UpsertedKey(rows, user, date, value, notes, now);
      if existing.Some? {
        rows := Updated(rows, user, date, value, notes, now);
      } else {
        rows := rows + [Row(user, date, value, Some(notes), now, now)];
      }
      ok := true;
    }

    /** `eliminar_datos_dia`: true when the statement reached the database, and then the row is gone. */
    method DeleteDay(user: int, date: string, dbOk: bool) returns (ok: bool)
      requires Valid()
      modifies this
      ensures Valid()
      ensures ok == dbOk
      ensures rows == if ok then Removed(old(rows), user, date) else old(rows)
    {
      if !dbOk {
        return false;
      }
      RemovedKey(rows, user, date);
      rows := Removed(rows, user, date);
      ok := true;
    }
  }

  // ---------------------------------------------------------------------
  // obtener_datos_mes
  // ---------------------------------------------------------------------

  /** What the month map holds for a date: `numero_valor` and `observaciones`. */
  datatype DayData = DayData(value: int, notes: Option<string>)

  /** `fecha BETWEEN lo AND hi`, on the date text. */
  predicate InRange(date: string, lo: string, hi: string) {
    LexLe(lo, date) && LexLe(date, hi)
  }

  /** First and last day of the month, as `obtener_datos_mes` and `obtener_estadisticas_mes` print them. */
  function MonthStart(year: int, month: int): string {
    FormatDate(year, month, 1)
  }

  function MonthEnd(year: int, month: int): string
    requires 1 <= month <= 12
  {
    FormatDate(year, month, DaysInMonth(year, month))
  }

  /** The loop of `obtener_datos_mes` over the selected rows: each row writes its date's entry. */
  function DayMap(sel: seq<Row>): (m: map<string, DayData>)
    ensures forall f :: f in m <==> exists i :: 0 <= i < |sel| && sel[i].date == f
  {
    if sel == [] then map[]
    else DayMap(sel[..|sel| - 1])[sel[|sel| - 1].date := DayData(sel[|sel| - 1].value, sel[|sel| - 1].notes)]
  }

  /** The rows of `user` dated inside [lo, hi]. */
  function SelectRange(rows: seq<Row>, user: int, lo: string, hi: string): (sel: seq<Row>)
    ensures forall r :: r in sel <==> r in rows && r.user == user && InRange(r.date, lo, hi)
  {
    if rows == [] then []
    else if rows[0].user == user && InRange(rows[0].date, lo, hi) then [rows[0]] + SelectRange(rows[1..], user, lo, hi)
    else SelectRange(rows[1..], user, lo, hi)
  }

  /** `obtener_datos_mes($usuario_id, $anio, $mes)`: a failed query gives the empty map. */
  function MonthData(rows: seq<Row>, user: int, year: int, month: int, dbOk: bool): map<string, DayData>
    requires 1 <= month <= 12
  {
    if dbOk then DayMap(SelectRange(rows, user, MonthStart(year, month), MonthEnd(year, month))) else map[]
  }

  /** Later rows win in the loop; with one row per date, each entry is that row's data. */
  lemma {:induction false} DayMapValue(sel: seq<Row>, i: int)
    requires 0 <= i < |sel|
    requires forall j :: 0 <= j < |sel| && sel[j].date == sel[i].date ==> j == i
    ensures sel[i].date in DayMap(sel) && DayMap(sel)[sel[i].date] == DayData(sel[i].value, sel[i].notes)
    decreases |sel|
  {
    if i < |sel| - 1 {
      DayMapValue(sel[..|sel| - 1], i);
    }
  }

  lemma {:induction false} SelectRangeKeys(rows: seq<Row>, user: int, lo: string, hi: string)
    requires UniqueKeys(rows)
    ensures UniqueKeys(SelectRange(rows, user, lo, hi))
    decreases |rows|
  {
    if rows != [] {
      assert rows == [rows[0]] + rows[1..];
      UniqueCons(rows[0], rows[1..]);
      SelectRangeKeys(rows[1..], user, lo, hi);
      if rows[0].user == user && InRange(rows[0].date, lo, hi) {
        UniqueCons(rows[0], SelectRange(rows[1..], user, lo, hi));
      }
    }
  }

  /** No two of the rows share a date. */
  predicate DistinctDates(sel: seq<Row>) {
    forall i, j :: 0 <= i < |sel| && 0 <= j < |sel| && sel[i].date == sel[j].date ==> i == j
  }

  /** The selected rows all belong to one user, so their dates are distinct. */
  lemma SelectRangeUnique(rows: seq<Row>, user: int, lo: string, hi: string)
    requires UniqueKeys(rows)
    ensures DistinctDates(SelectRange(rows, user, lo, hi))
  {
    var sel := SelectRange(rows, user, lo, hi);
    SelectRangeKeys(rows, user, lo, hi);
    forall i, j | 0 <= i < |sel| && 0 <= j < |sel| && sel[i].date == sel[j].date
      ensures i == j
    {
      assert sel[i] in sel && sel[j] in sel;
    }
  }

  /**
   * The month map has an entry for a date exactly when the user has a row
   * dated inside the month's range, and the entry is that row's rating and
   * notes.
   */
  lemma MonthDataSpec(rows: seq<Row>, user: int, year: int, month: int, date: string)
    requires 1 <= month <= 12 && UniqueKeys(rows)
    ensures var m := MonthData(rows, user, year, month, true);
            (date in m <==> Find(rows, user, date).Some? && InRange(date, MonthStart(year, month), MonthEnd(year, month))) &&
            (date in m ==> m[date] == DayData(Find(rows, user, date).value.value, Find(rows, user, date).value.notes))
  {
    RangeDataSpec(rows, user, MonthStart(year, month), MonthEnd(year, month), date);
  }

  /** `DayMap` over the rows selected for any range of dates, entry by entry. */
  lemma RangeDataSpec(rows: seq<Row>, user: int, lo: string, hi: string, date: string)
    requires UniqueKeys(rows)
    ensures var m := DayMap(SelectRange(rows, user, lo, hi));
            (date in m <==> Find(rows, user, date).Some? && InRange(date, lo, hi)) &&
            (date in m ==> m[date] == DayData(Find(rows, user, date).value.value, Find(rows, user, date).value.notes))
  {
    var sel := SelectRange(rows, user, lo, hi);
    if date in DayMap(sel) {
      SelectedRow(rows, user, lo, hi, date);
    }
    if Find(rows, user, date).Some? && InRange(date, lo, hi) {
      var r := Find(rows, user, date).value;
      assert r in sel;
      var i :| 0 <= i < |sel| && sel[i] == r;
      assert sel[i].date == date;
    }
  }

  lemma SelectedRow(rows: seq<Row>, user: int, lo: string, hi: string, date: string)
    requires UniqueKeys(rows)
    requires date in DayMap(SelectRange(rows, user, lo, hi))
    ensures Find(rows, user, date).Some? && InRange(date, lo, hi)
    ensures DayMap(SelectRange(rows, user, lo, hi))[date] == DayData(Find(rows, user, date).value.value, Find(rows, user, date).value.notes)
  {
    var sel := SelectRange(rows, user, lo, hi);
    var i :| 0 <= i < |sel| && sel[i].date == date;
    assert sel[i] in sel;
    var k :| 0 <= k < |rows| && rows[k] == sel[i];
    FindUnique(rows, user, date, k);
    SelectRangeUnique(rows, user, lo, hi);
    DayMapValue(sel, i);
  }

  /** For a valid date, being in the month's range means being a day of that month. */
  lemma MonthDataDays(rows: seq<Row>, user: int, year: nat, month: int, date: string)
    requires 1 <= month <= 12 && year <= 9999 && UniqueKeys(rows) && IsValidDate(date)
    ensures date in MonthData(rows, user, year, month, true) <==>
            Find(rows, user, date).Some? && exists d :: 1 <= d <= DaysInMonth(year, month) && date == FormatDate(year, month, d)
  {
    MonthDataSpec(rows, user, year, month, date);
    InMonthRange(date, year, month);
  }

  // ---------------------------------------------------------------------
  // validar_datos
  // ---------------------------------------------------------------------

  const NumberError := "El número debe estar entre 1 y 5"
  const DateError := "La fecha no es válida"

  /** The errors `validar_datos` reports, in its order. */
  function DataErrors(value: Number, date: string): seq<string> {
    (if !ValidNumber1to5(value) then [NumberError] else []) + (if !IsValidDate(date) then [DateError] else [])
  }

  /** `validar_datos`: the number error first, then the date error; none exactly when both checks pass. */
  method ValidateData(value: Number, date: string) returns (errors: seq<string>)
    ensures errors == DataErrors(value, date)
    ensures errors == [] <==> ValidNumber1to5(value) && IsValidDate(date)
    ensures |errors| <= 2
    ensures NumberError in errors <==> !ValidNumber1to5(value)
    ensures DateError in errors <==> !IsValidDate(date)
    ensures !ValidNumber1to5(value) ==> errors[0] == NumberError
  {
    errors := [];
    if !ValidNumber1to5(value) {
      errors := errors + [NumberError];
    }
    if !IsValidDate(date) {
      errors := errors + [DateError];
    }
  }
}
