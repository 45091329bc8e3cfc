/**
 * The request logic of pages/calendario.php: choosing the month to show,
 * the previous/next links, the POST dispatch to save or delete a day, the
 * one-shot success message and the rendering decision of each grid cell.
 * HTML output, headers and redirects are left out; a redirect is the
 * outcome `Redirected`.
 */
module CalendarPage {
  import opened Base
  import opened Text
  import opened Gregorian
  import opened Helpers
  import opened DayStore
  import opened Session
  import MonthGrid

  // ---------------------------------------------------------------------
  // Month shown
  // ---------------------------------------------------------------------

  /** `$mes_actual`: `(int)$_GET['mes']` if given and in 1 .. 12, else the current month. */
  function ClampMonth(param: Option<string>, current: int): (m: int)
    ensures param.Some? && 1 <= PhpIntval(param.value) <= 12 ==> m == PhpIntval(param.value)
    ensures !(param.Some? && 1 <= PhpIntval(param.value) <= 12) ==> m == current
  {
    var m := if param.Some? then PhpIntval(param.value) else current;
    if m < 1 || m > 12 then current else m
  }

  /** `$anio_actual`: `(int)$_GET['anio']` if given and in 2020 .. 2030, else the current year. */
  function ClampYear(param: Option<string>, current: int): (y: int)
    ensures param.Some? && 2020 <= PhpIntval(param.value) <= 2030 ==> y == PhpIntval(param.value)
    ensures !(param.Some? && 2020 <= PhpIntval(param.value) <= 2030) ==> y == current
  {
    var y := if param.Some? then PhpIntval(param.value) else current;
    if y < 2020 || y > 2030 then current else y
  }

  /** With a real current date, the month shown is a real month, and the year one of 2020 .. 2030 or the current one. */
  lemma ClampedInRange(month: Option<string>, year: Option<string>, currentMonth: int, currentYear: int)
    requires 1 <= currentMonth <= 12
    ensures 1 <= ClampMonth(month, currentMonth) <= 12
    ensures 2020 <= ClampYear(year, currentYear) <= 2030 || ClampYear(year, currentYear) == currentYear
    ensures month.Some? && month.value == "13" ==> ClampMonth(month, currentMonth) == currentMonth
  {
    if month.Some? && month.value == "13" {
      assert "13" == "13" + [];
      IntvalOfDigits("13", []);
      assert "13"[..1] == "1";
    }
  }

  /**
   * The navigation links of lines 94 .. 106 are `PrevMonth` and `NextMonth`:
   * January goes back to December of the year before, December on to
   * January of the next, and the two undo each other.
   */
  lemma NavigationLinks(y: int, m: int)
    requires 1 <= m <= 12
    ensures PrevMonth(y, 1) == (y - 1, 12) && NextMonth(y, 12) == (y + 1, 1)
    ensures m > 1 ==> PrevMonth(y, m) == (y, m - 1)
    ensures m < 12 ==> NextMonth(y, m) == (y, m + 1)
    ensures NextMonth(PrevMonth(y, m).0, PrevMonth(y, m).1) == (y, m)
    ensures PrevMonth(NextMonth(y, m).0, NextMonth(y, m).1) == (y, m)
  {
    PrevNextInverse(y, m);
  }

  // ---------------------------------------------------------------------
  // POST dispatch
  // ---------------------------------------------------------------------

  const CsrfError := "Token de seguridad inválido"
  const SaveError := "Error al guardar los datos"
  const DeleteError := "Error al eliminar los datos"
  const SavedMessage := "Datos guardados correctamente"
  const DeletedMessage := "Datos eliminados correctamente"
  const SaveAction := "guardar_dia"
  const DeleteAction := "eliminar_dia"

  /** The fields of `$_POST` the page reads. */
  datatype Post = Post(action: Option<string>, csrf: Option<string>, date: Option<string>,
                       number: Option<string>, notes: Option<string>)

  /** What the request handling ends in: nothing done, a redirect after success, or errors to show. */
  datatype Outcome = NoAction | Redirected(message: string) | Failed(errors: seq<string>)

  /** `sanitizar_entrada($_POST[f] ?? '')` on a text field. */
  function SanitizedField(f: Option<string>): (r: string)
    ensures r == HtmlEscape(Trim(if f.Some? then f.value else ""))
  {
    Sanitize(Str(if f.Some? then f.value else "")).s
  }

  /** `(int)($_POST['numero_valor'] ?? 0)`. */
  function PostNumber(f: Option<string>): int {
    if f.Some? then PhpIntval(f.value) else 0
  }

  /** Text with no trimmed character at either end and nothing to escape goes through `sanitizar_entrada` unchanged. */
  lemma PlainSanitized(s: string)
    requires s == [] || (!IsTrimChar(s[0]) && !IsTrimChar(s[|s| - 1]))
    requires forall i :: 0 <= i < |s| ==> !IsEscaped(s[i])
    ensures SanitizedField(Some(s)) == s
  {
    TrimOfTrimmed(s);
    EscapePlain(s);
  }

  /** An action is processed only with a token that matches the session's. */
  predicate CsrfAccepted(vars: Vars, post: Post) {
    post.csrf.Some? && CsrfValid(vars, post.csrf.value)
  }

  /** The fields the handler uses, read and sanitized from `$_POST`. */
  datatype Request = Request(action: string, date: string, value: int, notes: string)

  /** `sanitizar_entrada` on the action, the date and the notes; `(int)` on the rating. */
  function ReadPost(post: Post): (q: Request)
    ensures q.action == SanitizedField(post.action) && q.date == SanitizedField(post.date)
    ensures q.value == PostNumber(post.number) && q.notes == SanitizedField(post.notes)
  {
    Request(SanitizedField(post.action), SanitizedField(post.date), PostNumber(post.number), SanitizedField(post.notes))
  }

  /** The two actions the page knows, and anything else. */
  datatype Kind = Save | Delete | Unknown

  function KindOf(action: string): (k: Kind)
    ensures k == Save <==> action == SaveAction
    ensures k == Delete <==> action == DeleteAction
  {
    if action == SaveAction then Save else if action == DeleteAction then Delete else Unknown
  }

  /** What handling a POST leaves: the outcome, the `calendario_datos` rows and `$_SESSION`. */
  datatype Effect = Effect(outcome: Outcome, rows: seq<Row>, vars: Vars)

  /** Lines 47 .. 84 on values, once the token has been accepted. */
  function Perform(vars: Vars, rows: seq<Row>, q: Request, user: int, now: int, dbOk: bool): Effect {
    match KindOf(q.action)
    case Save =>
      var errors := DataErrors(IntNum(q.value), q.date);
      if errors != [] then Effect(Failed(errors), rows, vars)
      else if dbOk then Effect(Redirected(SavedMessage), Upserted(rows, user, q.date, q.value, q.notes, now), vars[SuccessKey := TextValue(SavedMessage)])
      else Effect(Failed([SaveError]), rows, vars)
    case Delete =>
      if dbOk then Effect(Redirected(DeletedMessage), Removed(rows, user, q.date), vars[SuccessKey := TextValue(DeletedMessage)])
      else Effect(Failed([DeleteError]), rows, vars)
    case Unknown => Effect(NoAction, rows, vars)
  }

  /** Lines 47 .. 84 on values: nothing without an action, the CSRF check first, then the action. */
  function Dispatch(vars: Vars, rows: seq<Row>, post: Post, user: int, now: int, dbOk: bool): Effect {
    if post.action.None? then Effect(NoAction, rows, vars)
    else if !CsrfAccepted(vars, post) then Effect(Failed([CsrfError]), rows, vars)
    else Perform(vars, rows, ReadPost(post), user, now, dbOk)
  }

  /** Lines 47 .. 84, on a started session, for the authenticated user `user`. */
  method HandlePost(table: DayTable, session: Store, post: Post, user: int, now: int, timeout: int, dbOk: bool)
    returns (outcome: Outcome)
    requires table.Valid() && session.active
    modifies table, session
    ensures table.Valid() && session.active
    ensures Effect(outcome, table.rows, session.vars) == Dispatch(old(session.vars), old(table.rows), post, user, now, dbOk)
  {
    if post.action.None? {
      return NoAction;
    }
    var valid := false;
    if post.csrf.Some? {
      valid := session.ValidateCsrf(post.csrf.value, now, timeout);
    }
    if !valid {
      return Failed([CsrfError]);
    }
    outcome := PerformAction(table, session, ReadPost(post), user, now, dbOk);
  }

  /** Lines 55 .. 82: the action of a request whose token was accepted. */
  method PerformAction(table: DayTable, session: Store, q: Request, user: int, now: int, dbOk: bool)
    returns (outcome: Outcome)
    requires table.Valid()
    modifies table, session
    ensures table.Valid() && session.active == old(session.active)
    ensures Effect(outcome, table.rows, session.vars) == Perform(old(session.vars), old(table.rows), q, user, now, dbOk)
  {
    var kind := KindOf(q.action);
    if kind == Save {
      var errors := ValidateData(IntNum(q.value), q.date);
      if errors == [] {
        var ok := table.SaveDay(user, q.date, q.value, q.notes, now, dbOk);
        if ok {
          session.vars := session.vars[SuccessKey := TextValue(SavedMessage)];
          return Redirected(SavedMessage);
        }
        return Failed([SaveError]);
      }
      return Failed(errors);
    } else if kind == Delete {
      var ok := table.DeleteDay(user, q.date, dbOk);
      if ok {
        session.vars := session.vars[SuccessKey := TextValue(DeletedMessage)];
        return Redirected(DeletedMessage);
      }
      return Failed([DeleteError]);
    }
    return NoAction;
  }

  /** A save whose data validates is written when the database answers, and the page redirects. */
  lemma PerformSave(vars: Vars, rows: seq<Row>, q: Request, user: int, now: int)
    requires q.action == SaveAction && DataErrors(IntNum(q.value), q.date) == []
    ensures Perform(vars, rows, q, user, now, true) ==
              Effect(Redirected(SavedMessage), Upserted(rows, user, q.date, q.value, q.notes, now), vars[SuccessKey := TextValue(SavedMessage)])
  {
  }

  /** With an action and an accepted token, the page performs the action it reads from the POST. */
  lemma DispatchAccepted(vars: Vars, rows: seq<Row>, post: Post, user: int, now: int, dbOk: bool)
    requires post.action.Some? && CsrfAccepted(vars, post)
    ensures Dispatch(vars, rows, post, user, now, dbOk) == Perform(vars, rows, ReadPost(post), user, now, dbOk)
  {
  }

  /** Without a matching CSRF token nothing is saved, deleted or put in the session. */
  lemma CsrfGuardsChanges(vars: Vars, rows: seq<Row>, post: Post, user: int, now: int, dbOk: bool)
    requires !CsrfAccepted(vars, post)
    ensures var e := Dispatch(vars, rows, post, user, now, dbOk);
            e.rows == rows && e.vars == vars && (post.action.Some? <==> e.outcome == Failed([CsrfError]))
  {
  }

  /**
   * The page redirects exactly after a successful write, and only then do the
   * rows or the session change; the success message is the one the action names.
   */
  lemma RedirectIffWritten(vars: Vars, rows: seq<Row>, q: Request, user: int, now: int, dbOk: bool)
    ensures var e := Perform(vars, rows, q, user, now, dbOk);
            (e.outcome.Redirected? <==>
               dbOk && ((q.action == SaveAction && DataErrors(IntNum(q.value), q.date) == []) || q.action == DeleteAction)) &&
            (!e.outcome.Redirected? ==> e.rows == rows && e.vars == vars) &&
            (e.outcome.Redirected? ==>
               e.vars == vars[SuccessKey := TextValue(e.outcome.message)] &&
               (e.outcome.message == SavedMessage <==> q.action == SaveAction))
  {
  }

  /**
   * A save that goes through stores a rating of 1 .. 5 under a valid date:
   * afterwards that date holds exactly the posted rating and notes.
   */
  lemma SavedDayIsValid(vars: Vars, rows: seq<Row>, q: Request, user: int, now: int)
    requires UniqueKeys(rows)
    requires Perform(vars, rows, q, user, now, true).outcome == Redirected(SavedMessage)
    ensures var r := Perform(vars, rows, q, user, now, true).rows;
            1 <= q.value <= 5 && IsValidDate(q.date) && UniqueKeys(r) &&
            Find(r, user, q.date).Some? && Find(r, user, q.date).value.value == q.value &&
            Find(r, user, q.date).value.notes == Some(q.notes)
  {
    UpsertedKey(rows, user, q.date, q.value, q.notes, now);
  }

  /** A delete that goes through leaves no row for the date. */
  lemma DeletedDayIsGone(vars: Vars, rows: seq<Row>, q: Request, user: int, now: int)
    requires UniqueKeys(rows)
    requires Perform(vars, rows, q, user, now, true).outcome == Redirected(DeletedMessage)
    ensures var r := Perform(vars, rows, q, user, now, true).rows;
            Find(r, user, q.date).None? && UniqueKeys(r)
  {
    RemovedKey(rows, user, q.date);
  }

  /** Lines 41 .. 44: the success message is shown once and removed from the session. */
  method TakeSuccessMessage(session: Store) returns (message: Option<SessionValue>)
    modifies session
    ensures message == (if SuccessKey in old(session.vars) then Some(old(session.vars)[SuccessKey]) else None)
    ensures session.vars == old(session.vars) - {SuccessKey} && session.active == old(session.active)
  {
    if SuccessKey in session.vars {
      message := Some(session.vars[SuccessKey]);
      session.vars := session.vars - {SuccessKey};
    } else {
      message := None;
    }
  }

  /** A save needs a rating of 1 .. 5 and a valid date; a rating of 0 (a missing field) never saves. */
  lemma SaveNeedsValidData(post: Post)
    requires PostNumber(post.number) == 0 || !IsValidDate(SanitizedField(post.date))
    ensures DataErrors(IntNum(PostNumber(post.number)), SanitizedField(post.date)) != []
  {
  }

  // ---------------------------------------------------------------------
  // Grid cells
  // ---------------------------------------------------------------------

  /** A rendered day button: its classes, the rating shown and the tooltip. */
  datatype RenderedCell = RenderedCell(otherMonth: bool, today: bool, hasData: bool, value: Option<int>, tooltip: Option<string>)

  /** Lines 244 .. 262: `otro-mes`, `hoy`, `con-datos`, the value and the notes tooltip of one cell. */
  function RenderCell(c: MonthGrid.Cell, data: map<string, DayData>): (r: RenderedCell)
    ensures r.otherMonth <==> !c.inMonth
    ensures r.today <==> c.isToday
    ensures r.hasData <==> c.date in data
    ensures r.value.Some? <==> c.date in data
    ensures r.value.Some? ==> r.value.value == data[c.date].value
    ensures r.tooltip.Some? <==> c.date in data && data[c.date].notes.Some? && !PhpEmpty(data[c.date].notes.value)
    ensures r.tooltip.Some? ==> r.tooltip.value == HtmlEscape(Trim(data[c.date].notes.value))
  {
    var has := c.date in data;
    var tip := if has && data[c.date].notes.Some? && !PhpEmpty(data[c.date].notes.value)
               then Some(SanitizedField(data[c.date].notes)) else None;
    RenderedCell(!c.inMonth, c.isToday, has, if has then Some(data[c.date].value) else None, tip)
  }

  /**
   * A cell of the shown month is drawn `con-datos`, with its rating, exactly
   * when the user saved a row for that date and the date lies in the month.
   */
  lemma CellShowsStoredDay(rows: seq<Row>, user: int, year: int, month: int, c: MonthGrid.Cell)
    requires 1 <= month <= 12 && UniqueKeys(rows)
    ensures var r := RenderCell(c, MonthData(rows, user, year, month, true));
            (r.hasData <==> Find(rows, user, c.date).Some? && InRange(c.date, MonthStart(year, month), MonthEnd(year, month))) &&
            (r.hasData ==> r.value == Some(Find(rows, user, c.date).value.value))
  {
    MonthDataSpec(rows, user, year, month, c.date);
  }
}
