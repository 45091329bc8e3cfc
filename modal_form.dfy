/**
 * The browser side of the calendar page (assets/js/calendario.js):
 * `parseInt` and `formatearFecha`, the reading of the rendered day buttons
 * into `datosCalendario`, and the day dialog with its form: the option
 * selector, `limpiarFormulario`, `cargarDatosExistentes`, the show and
 * hidden handlers, `validarFormulario`, the Guardar, Eliminar and Limpiar
 * buttons and the keyboard shortcuts.  The DOM the script touches is the
 * fields of `DayDialog`; the answers to `confirm()` and the page's CSRF
 * token are parameters, and a form the script submits is the POST it sends.
 */
module ModalForm {
  import opened Base
  import opened Text
  import opened Gregorian
  import opened Helpers
  import opened DayStore
  import opened Session
  import MonthGrid
  import CalendarPage

  // ---------------------------------------------------------------------
  // parseInt and numbers as text
  // ---------------------------------------------------------------------

  /** The white space and line terminators `parseInt` skips (ECMAScript sections 12.2 and 12.3). */
  predicate IsJsSpace(c: char) {
    c == '\t' || c == '\n' || c == '\U{000B}' || c == '\U{000C}' || c == '\r' || c == ' ' ||
    c == '\U{00A0}' || c == '\U{1680}' || ('\U{2000}' <= c <= '\U{200A}') ||
    c == '\U{2028}' || c == '\U{2029}' || c == '\U{202F}' || c == '\U{205F}' ||
    c == '\U{3000}' || c == '\U{FEFF}'
  }

  predicate IsHexDigit(c: char) {
    IsDigit(c) || ('a' <= c <= 'f') || ('A' <= c <= 'F')
  }

  predicate AllHex(t: string) {
    forall i :: 0 <= i < |t| ==> IsHexDigit(t[i])
  }

  function HexValue(c: char): (v: nat)
    requires IsHexDigit(c)
    ensures v < 16
  {
    if IsDigit(c) then DigitValue(c)
    else if 'a' <= c <= 'f' then (c as int - 'a' as int) + 10
    else (c as int - 'A' as int) + 10
  }

  /** The longest prefix of `s` made of hexadecimal digits. */
  function LeadingHex(s: string): (h: string)
    ensures |h| <= |s| && h == s[..|h|] && AllHex(h)
  {
    if |s| > 0 && IsHexDigit(s[0]) then [s[0]] + LeadingHex(s[1..]) else ""
  }

  function HexDigitsValue(t: string): nat
    requires AllHex(t)
  {
    if t == [] then 0 else HexDigitsValue(t[..|t| - 1]) * 16 + HexValue(t[|t| - 1])
  }

  /**
   * What `parseInt` reads after the sign: after `0x` or `0X` the longest run
   * of hexadecimal digits, otherwise of decimal digits; nothing read is NaN.
   */
  function Magnitude(s: string): Option<int> {
    if |s| >= 2 && s[0] == '0' && (s[1] == 'x' || s[1] == 'X') then
      var h := LeadingHex(s[2..]);
      if h == [] then None else Some(HexDigitsValue(h))
    else
      var d := LeadingDigits(s);
      if d == [] then None else Some(DigitsValue(d))
  }

  /** `parseInt(s)` with no radix (ECMAScript section 19.2.5); `None` is NaN. */
  function ParseInt(s: string): Option<int> {
    if |s| > 0 && IsJsSpace(s[0]) then ParseInt(s[1..])
    else if |s| > 0 && s[0] == '-' then
      match Magnitude(s[1..])
      case None => None
      case Some(v) => Some(-v)
    else if |s| > 0 && s[0] == '+' then Magnitude(s[1..])
    else Magnitude(s)
  }

  /** A number written into a template literal: `NaN`, or the integer in decimal. */
  function ShowNumber(v: Option<int>): string {
    if v.None? then "NaN" else FormatInt(v.value, 0)
  }

  lemma MagnitudeOfDigits(t: string, rest: string)
    requires |t| >= 1 && AllDigits(t)
    requires rest == [] || (!IsDigit(rest[0]) && rest[0] != 'x' && rest[0] != 'X')
    ensures Magnitude(t + rest) == Some(DigitsValue(t))
  {
    var s := t + rest;
    assert s[0] == t[0];
    if |s| >= 2 {
      assert s[1] == if |t| >= 2 then t[1] else rest[0];
    }
    LeadingDigitsOfDigits(t, rest);
  }

  /** `parseInt` reads a run of decimal digits up to the first character that is not one. */
  lemma ParseIntOfDigits(t: string, rest: string)
    requires |t| >= 1 && AllDigits(t)
    requires rest == [] || (!IsDigit(rest[0]) && rest[0] != 'x' && rest[0] != 'X')
    ensures ParseInt(t + rest) == Some(DigitsValue(t))
  {
    assert (t + rest)[0] == t[0];
    MagnitudeOfDigits(t, rest);
  }

  /** Leading white space is skipped. */
  lemma {:induction false} ParseIntSkipsSpace(ws: string, s: string)
    requires forall i :: 0 <= i < |ws| ==> IsJsSpace(ws[i])
    ensures ParseInt(ws + s) == ParseInt(s)
    decreases |ws|
  {
    if ws != [] {
      var t := ws + s;
      assert t[0] == ws[0] && IsJsSpace(t[0]);
      assert t[1..] == ws[1..] + s;
      assert ParseInt(t) == ParseInt(t[1..]);
      ParseIntSkipsSpace(ws[1..], s);
    } else {
      assert ws + s == s;
    }
  }

  /** A text that starts with no space, sign or digit is NaN. */
  lemma ParseIntNaN(s: string)
    requires s != [] && !IsJsSpace(s[0]) && !IsDigit(s[0]) && s[0] != '-' && s[0] != '+'
    ensures ParseInt(s) == None
  {
  }

  /** `parseInt` reads back every integer the server or the script writes out. */
  lemma ParseIntShow(n: int)
    ensures ParseInt(ShowNumber(Some(n))) == Some(n)
  {
    if n >= 0 {
      assert ShowNumber(Some(n)) == DigitsOf(n) + [];
      ParseIntOfDigits(DigitsOf(n), []);
      ValueOfDigitsOf(n);
    } else {
      var s := ShowNumber(Some(n));
      assert s == "-" + DigitsOf(-n);
      assert s[1..] == DigitsOf(-n) + [];
      MagnitudeOfDigits(DigitsOf(-n), []);
      ValueOfDigitsOf(-n);
    }
  }

  // ---------------------------------------------------------------------
  // formatearFecha
  // ---------------------------------------------------------------------

  /** `meses[k - 1]` in a template: the month name for 1 .. 12, `undefined` otherwise. */
  function MonthAt(k: Option<int>): (name: string)
    ensures k.Some? && 1 <= k.value <= 12 ==> name == MonthNames()[k.value]
    ensures !(k.Some? && 1 <= k.value <= 12) ==> name == "undefined"
  {
    if k.Some? && 1 <= k.value <= 12 then MonthNames()[k.value] else "undefined"
  }

  /**
   * `formatearFecha(fecha)`: the pieces between the dashes are year, month
   * and day (a missing piece is `undefined`); the result is the day read by
   * `parseInt`, the month's name and the year piece as written.
   */
  function DisplayDate(fecha: string): string {
    var parts := Split(fecha, '-');
    var month := if |parts| > 1 then parts[1] else "undefined";
    var day := if |parts| > 2 then parts[2] else "undefined";
    ShowNumber(ParseInt(day)) + " de " + MonthAt(ParseInt(month)) + " de " + parts[0]
  }

  /** On a date the server printed, the dialog shows the day without its leading zero, the month's name and the four-digit year. */
  lemma DisplayDateOfDate(y: int, m: int, d: int)
    requires 0 <= y <= 9999 && 1 <= m <= 12 && 0 <= d <= 99
    ensures DisplayDate(FormatDate(y, m, d)) == DigitsOf(d) + " de " + MonthNames()[m] + " de " + Fixed(y, 4)
  {
    FormatDateFixed(y, m, d);
    var a, b, c := Fixed(y, 4), Fixed(m, 2), Fixed(d, 2);
    assert '-' !in a && '-' !in b && '-' !in c by {
      assert AllDigits(a) && AllDigits(b) && AllDigits(c);
    }
    SplitThree(a, b, c, '-');
    assert FormatDate(y, m, d) == a + ['-'] + b + ['-'] + c;
    SmallPowers();
    assert b == b + [] && c == c + [];
    ParseIntOfDigits(b, []);
    ParseIntOfDigits(c, []);
    ValueOfFixed(m, 2);
    ValueOfFixed(d, 2);
  }

  /** A text without dashes has no month or day: it shows "NaN de undefined de" and the text itself. */
  lemma DisplayDateNoDashes(s: string)
    requires '-' !in s
    ensures DisplayDate(s) == "NaN de undefined de " + s
  {
    SplitJoin([s], '-');
    assert Join([s], ['-']) == s;
    assert Split(s, '-') == [s];
    ParseIntNaN("undefined");
    var none: Option<int> := None;
    assert ShowNumber(none) == "NaN" && MonthAt(none) == "undefined";
    assert "NaN" + " de " + "undefined" + " de " == "NaN de undefined de ";
  }

  // ---------------------------------------------------------------------
  // datosCalendario
  // ---------------------------------------------------------------------

  /**
   * The preprocessing of the HTML input stream (section 13.2.3.5 of the
   * HTML Standard), with the replacement of NUL inside an attribute value
   * (section 13.2.5.36): CR LF and a lone CR become LF, NUL becomes U+FFFD.
   */
  function ParserNormalized(s: string): (r: string)
    ensures |r| <= |s|
    decreases |s|
  {
    if s == [] then []
    else if s[0] == '\r' then "\n" + ParserNormalized(if |s| > 1 && s[1] == '\n' then s[2..] else s[1..])
    else if s[0] == '\0' then "\U{FFFD}" + ParserNormalized(s[1..])
    else [s[0]] + ParserNormalized(s[1..])
  }

  /**
   * The newline normalization of a submitted form's entries (section
   * 4.10.21.8 of the HTML Standard): a lone CR and a lone LF become CR LF.
   */
  function FormNewlines(s: string): (r: string)
    ensures |r| >= |s|
    decreases |s|
  {
    if s == [] then []
    else if s[0] == '\r' && |s| > 1 && s[1] == '\n' then "\r\n" + FormNewlines(s[2..])
    else if s[0] == '\r' || s[0] == '\n' then "\r\n" + FormNewlines(s[1..])
    else [s[0]] + FormNewlines(s[1..])
  }

  /** Text without CR or NUL passes the parser unchanged. */
  lemma {:induction false} ParserNormalizedPlain(s: string)
    requires '\r' !in s && '\0' !in s
    ensures ParserNormalized(s) == s
    decreases |s|
  {
    if s != [] {
      assert s[0] != '\r' && s[0] != '\0';
      assert '\r' !in s[1..] && '\0' !in s[1..];
      ParserNormalizedPlain(s[1..]);
    }
  }

  /** The parser's output holds no CR and no NUL. */
  lemma {:induction false} ParserNormalizedClean(s: string)
    ensures '\r' !in ParserNormalized(s) && '\0' !in ParserNormalized(s)
    decreases |s|
  {
    if s != [] {
      var rest := if s[0] == '\r' && |s| > 1 && s[1] == '\n' then s[2..] else s[1..];
      ParserNormalizedClean(rest);
      var head := if s[0] == '\r' then '\n' else if s[0] == '\0' then '\U{FFFD}' else s[0];
      assert ParserNormalized(s) == [head] + ParserNormalized(rest);
    }
  }

  /** Normalizing twice is normalizing once. */
  lemma ParserNormalizedIdempotent(s: string)
    ensures ParserNormalized(ParserNormalized(s)) == ParserNormalized(s)
  {
    ParserNormalizedClean(s);
    ParserNormalizedPlain(ParserNormalized(s));
  }

  /** A prefix without CR or NUL passes through, whatever follows it. */
  lemma {:induction false} ParserNormalizedPrefix(p: string, s: string)
    requires '\r' !in p && '\0' !in p
    ensures ParserNormalized(p + s) == p + ParserNormalized(s)
    decreases |p|
  {
    if p != [] {
      var t := p + s;
      assert p[0] in p;
      assert t[0] == p[0] && t[1..] == p[1..] + s;
      assert ParserNormalized(t) == [p[0]] + ParserNormalized(p[1..] + s);
      assert forall c :: c in p[1..] ==> c in p;
      ParserNormalizedPrefix(p[1..], s);
      assert ParserNormalized(t) == [p[0]] + (p[1..] + ParserNormalized(s));
      assert p == [p[0]] + p[1..];
    } else {
      assert p + s == s;
    }
  }

  lemma EscapeCons(c: char, x: string)
    ensures HtmlEscape([c] + x) == EscapeChar(c) + HtmlEscape(x)
  {
    assert ([c] + x)[0] == c && ([c] + x)[1..] == x;
  }

  lemma UnescapedChar(c: char)
    requires c == '\r' || c == '\n' || c == '\0' || c == '\U{FFFD}'
    ensures EscapeChar(c) == [c]
  {
  }

  lemma EscapeCharPlain(c: char)
    requires c != '\r' && c != '\0'
    ensures '\r' !in EscapeChar(c) && '\0' !in EscapeChar(c)
  {
  }

  /** The entities `htmlspecialchars` writes hold no CR or NUL, so the parser's normalization and escaping commute. */
  lemma {:induction false} NormalizedEscape(t: string)
    ensures ParserNormalized(HtmlEscape(t)) == HtmlEscape(ParserNormalized(t))
    decreases |t|
  {
    if t != [] {
      var u := t[1..];
      assert t == [t[0]] + u;
      if t[0] == '\r' && |u| > 0 && u[0] == '\n' {
        assert u == ['\n'] + u[1..];
        NormalizedEscape(u[1..]);
        CrLfStep(u[1..]);
      } else if t[0] == '\r' {
        NormalizedEscape(u);
        CrStep(u);
      } else if t[0] == '\0' {
        NormalizedEscape(u);
        NulStep(u);
      } else {
        NormalizedEscape(u);
        PlainStep(t[0], u);
      }
    }
  }

  lemma CrLfStep(u: string)
    requires ParserNormalized(HtmlEscape(u)) == HtmlEscape(ParserNormalized(u))
    ensures ParserNormalized(HtmlEscape(['\r'] + (['\n'] + u))) == HtmlEscape(ParserNormalized(['\r'] + (['\n'] + u)))
  {
    var h := HtmlEscape(u);
    EscapeCons('\r', ['\n'] + u);
    EscapeCons('\n', u);
    UnescapedChar('\r');
    UnescapedChar('\n');
    assert HtmlEscape(['\r'] + (['\n'] + u)) == ['\r'] + (['\n'] + h);
    CrLfParsed(h);
    CrLfParsed(u);
    EscapeCons('\n', ParserNormalized(u));
    assert HtmlEscape(['\n'] + ParserNormalized(u)) == ['\n'] + HtmlEscape(ParserNormalized(u));
  }

  lemma CrLfParsed(x: string)
    ensures ParserNormalized(['\r'] + (['\n'] + x)) == ['\n'] + ParserNormalized(x)
  {
    var t := ['\r'] + (['\n'] + x);
    assert t[0] == '\r' && t[1] == '\n' && t[2..] == x;
  }

  lemma CrStep(u: string)
    requires !(|u| > 0 && u[0] == '\n')
    requires ParserNormalized(HtmlEscape(u)) == HtmlEscape(ParserNormalized(u))
    ensures ParserNormalized(HtmlEscape(['\r'] + u)) == HtmlEscape(ParserNormalized(['\r'] + u))
  {
    var h := HtmlEscape(u);
    EscapeCons('\r', u);
    UnescapedChar('\r');
    UnescapedChar('\n');
    assert HtmlEscape(['\r'] + u) == ['\r'] + h;
    EscapeHead(u);
    CrParsed(h);
    CrParsed(u);
    EscapeCons('\n', ParserNormalized(u));
    assert HtmlEscape(['\n'] + ParserNormalized(u)) == ['\n'] + HtmlEscape(ParserNormalized(u));
  }

  /** Escaping does not make a text start with LF. */
  lemma EscapeHead(u: string)
    requires !(|u| > 0 && u[0] == '\n')
    ensures !(|HtmlEscape(u)| > 0 && HtmlEscape(u)[0] == '\n')
  {
  }

  lemma CrParsed(x: string)
    requires !(|x| > 0 && x[0] == '\n')
    ensures ParserNormalized(['\r'] + x) == ['\n'] + ParserNormalized(x)
  {
    var t := ['\r'] + x;
    assert t[0] == '\r' && t[1..] == x;
  }

  lemma NulStep(u: string)
    requires ParserNormalized(HtmlEscape(u)) == HtmlEscape(ParserNormalized(u))
    ensures ParserNormalized(HtmlEscape(['\0'] + u)) == HtmlEscape(ParserNormalized(['\0'] + u))
  {
    EscapeCons('\0', u);
    EscapeCons('\U{FFFD}', ParserNormalized(u));
    NulParsed(HtmlEscape(u));
    NulParsed(u);
  }

  lemma NulParsed(x: string)
    ensures ParserNormalized(['\0'] + x) == ['\U{FFFD}'] + ParserNormalized(x)
  {
    var t := ['\0'] + x;
    assert t[0] == '\0' && t[1..] == x;
  }

  lemma PlainStep(c: char, u: string)
    requires c != '\r' && c != '\0'
    requires ParserNormalized(HtmlEscape(u)) == HtmlEscape(ParserNormalized(u))
    ensures ParserNormalized(HtmlEscape([c] + u)) == HtmlEscape(ParserNormalized([c] + u))
  {
    EscapeCons(c, u);
    EscapeCharPlain(c);
    ParserNormalizedPrefix(EscapeChar(c), HtmlEscape(u));
    PlainParsed(c, u);
    EscapeCons(c, ParserNormalized(u));
  }

  lemma PlainParsed(c: char, x: string)
    requires c != '\r' && c != '\0'
    ensures ParserNormalized([c] + x) == [c] + ParserNormalized(x)
  {
    var t := [c] + x;
    assert t[0] == c && t[1..] == x;
  }

  /** What the server reads from a submitted note is what the parser makes of it: the submission's CR LF is undone. */
  lemma {:induction false} FormNewlinesNormalized(s: string)
    ensures ParserNormalized(FormNewlines(s)) == ParserNormalized(s)
    decreases |s|
  {
    if s != [] {
      var f := FormNewlines(s);
      if s[0] == '\r' && |s| > 1 && s[1] == '\n' {
        assert f[0] == '\r' && f[1] == '\n' && f[2..] == FormNewlines(s[2..]);
        FormNewlinesNormalized(s[2..]);
      } else if s[0] == '\r' || s[0] == '\n' {
        assert f[0] == '\r' && f[1] == '\n' && f[2..] == FormNewlines(s[1..]);
        FormNewlinesNormalized(s[1..]);
        if s[0] == '\n' {
          assert ParserNormalized(s) == "\n" + ParserNormalized(s[1..]);
        }
      } else {
        assert f[0] == s[0] && f[1..] == FormNewlines(s[1..]);
        FormNewlinesNormalized(s[1..]);
      }
    }
  }

  /** A note typed into the textarea (no CR, no NUL) comes back from a submission and a reparse as typed. */
  lemma TypedNoteRoundTrip(s: string)
    requires '\r' !in s && '\0' !in s
    ensures ParserNormalized(FormNewlines(s)) == s
  {
    FormNewlinesNormalized(s);
    ParserNormalizedPlain(s);
  }

  /** One entry of `datosCalendario`: the rating read back from the cell (`None` is NaN) and the notes. */
  datatype CalendarEntry = CalendarEntry(value: Option<int>, notes: string)

  /**
   * A day button as the script finds it in the DOM: its `data-fecha`,
   * whether it has the class `con-datos`, the text of its `.dia-valor`
   * element if it has one, and its `title` attribute if it has one.
   */
  datatype DayButton = DayButton(date: string, withData: bool, valueText: Option<string>, title: Option<string>)

  /**
   * The button pages/calendario.php draws for a cell, as the browser parses
   * it: the rating is echoed in decimal, and the escaped title has its
   * newlines and NULs normalized by the parser and its entities decoded.
   */
  function ButtonOf(c: MonthGrid.Cell, data: map<string, DayData>): (b: DayButton)
    ensures b.date == c.date && (b.withData <==> c.date in data) && (b.valueText.Some? <==> c.date in data)
  {
    var r := CalendarPage.RenderCell(c, data);
    DayButton(c.date, r.hasData,
              if r.value.Some? then Some(ShowNumber(r.value)) else None,
              if r.tooltip.Some? then Some(HtmlUnescape(ParserNormalized(r.tooltip.value))) else None)
  }

  function Buttons(cells: seq<MonthGrid.Cell>, data: map<string, DayData>): (bs: seq<DayButton>)
    ensures |bs| == |cells| && forall i :: 0 <= i < |cells| ==> bs[i] == ButtonOf(cells[i], data)
  {
    seq(|cells|, i requires 0 <= i < |cells| => ButtonOf(cells[i], data))
  }

  /** Lines 35 .. 41: the entry a `con-datos` button gives. */
  function EntryOf(b: DayButton): CalendarEntry
    requires b.valueText.Some?
  {
    CalendarEntry(ParseInt(b.valueText.value), if b.title.Some? then b.title.value else "")
  }

  /** Lines 30 .. 43: the map the loop over the `con-datos` buttons builds, later buttons overwriting earlier ones. */
  function Scraped(buttons: seq<DayButton>): (m: map<string, CalendarEntry>)
    ensures forall f :: f in m <==> exists i :: 0 <= i < |buttons| && buttons[i].date == f &&
                                          buttons[i].withData && buttons[i].valueText.Some?
  {
    if buttons == [] then map[]
    else
      var init := Scraped(buttons[..|buttons| - 1]);
      var b := buttons[|buttons| - 1];
      if b.withData && b.valueText.Some? then init[b.date := EntryOf(b)] else init
  }

  /**
   * The notes the dialog gets for a stored day: trimmed, with CR LF, CR and
   * NUL normalized by the parser, and nothing when PHP's `empty()` holds.
   */
  function NotesShown(notes: Option<string>): string {
    if notes.Some? && !PhpEmpty(notes.value) then ParserNormalized(Trim(notes.value)) else ""
  }

  /** The entry a drawn `con-datos` button gives holds the stored rating and the stored notes, trimmed. */
  lemma EntryOfButton(c: MonthGrid.Cell, data: map<string, DayData>)
    requires c.date in data
    ensures ButtonOf(c, data).valueText.Some?
    ensures EntryOf(ButtonOf(c, data)) == CalendarEntry(Some(data[c.date].value), NotesShown(data[c.date].notes))
  {
    ParseIntShow(data[c.date].value);
    var notes := data[c.date].notes;
    if notes.Some? && !PhpEmpty(notes.value) {
      NormalizedEscape(Trim(notes.value));
      UnescapeEscape(ParserNormalized(Trim(notes.value)));
    }
  }

  /** The entry `datosCalendario` holds for a date is the one of the last button drawn for it. */
  lemma {:induction false} ScrapedValue(cells: seq<MonthGrid.Cell>, data: map<string, DayData>, date: string)
    requires date in Scraped(Buttons(cells, data))
    ensures date in data
    ensures Scraped(Buttons(cells, data))[date] == CalendarEntry(Some(data[date].value), NotesShown(data[date].notes))
    decreases |cells|
  {
    var bs := Buttons(cells, data);
    var n := |cells| - 1;
    var c := cells[n];
    assert Buttons(cells[..n], data) == bs[..n];
    if c.date == date && c.date in data {
      EntryOfButton(c, data);
    } else {
      ScrapedValue(cells[..n], data, date);
    }
  }

  /**
   * The script recovers what the server stored: for the dates of the grid,
   * `datosCalendario` has an entry exactly for the dates in the month's map,
   * holding the stored rating and the stored notes, trimmed.
   */
  lemma ScrapedRendered(cells: seq<MonthGrid.Cell>, data: map<string, DayData>, date: string)
    ensures var s := Scraped(Buttons(cells, data));
            (date in s <==> date in data && exists i :: 0 <= i < |cells| && cells[i].date == date) &&
            (date in s ==> s[date] == CalendarEntry(Some(data[date].value), NotesShown(data[date].notes)))
  {
    var bs := Buttons(cells, data);
    if date in data && exists i :: 0 <= i < |cells| && cells[i].date == date {
      var i :| 0 <= i < |cells| && cells[i].date == date;
      assert bs[i].date == date && bs[i].withData && bs[i].valueText.Some?;
    }
    if date in Scraped(bs) {
      ScrapedValue(cells, data, date);
      var i :| 0 <= i < |bs| && bs[i].date == date && bs[i].withData && bs[i].valueText.Some?;
      assert cells[i].date == date;
    }
  }

  /** A stored note of two lines joined by CR LF reaches the dialog joined by LF alone. */
  lemma CrLfNoteShown(a: string, b: string)
    requires a != [] && b != [] && '\r' !in a && '\0' !in a && '\r' !in b && '\0' !in b
    requires !IsTrimChar(a[0]) && !IsTrimChar(b[|b| - 1])
    ensures NotesShown(Some(a + (['\r'] + (['\n'] + b)))) == a + (['\n'] + b)
  {
    var n := a + (['\r'] + (['\n'] + b));
    assert n[0] == a[0] && n[|n| - 1] == b[|b| - 1];
    assert |n| > 1;
    TrimOfTrimmed(n);
    ParserNormalizedPrefix(a, ['\r'] + (['\n'] + b));
    CrLfParsed(b);
    ParserNormalizedPlain(b);
  }

  /** Notes that are exactly "0" never reach the dialog: PHP's `empty("0")` holds, so no title is drawn. */
  lemma NotesZeroHidden()
    ensures NotesShown(Some("0")) == ""
    ensures NotesShown(Some(" 0 ")) == "0"
  {
    assert " 0 "[0] == ' ' && " 0 "[1..] == "0 ";
    TrimLeftNothing("0 ");
    assert TrimLeft(" 0 ") == "0 ";
    assert "0 "[1] == ' ' && "0 "[..1] == "0";
    TrimRightNothing("0");
    assert TrimRight("0 ") == "0";
    assert Trim(" 0 ") == "0";
  }

  // ---------------------------------------------------------------------
  // The day dialog
  // ---------------------------------------------------------------------

  const NumberMissing := "Debe seleccionar un número del 1 al 5"
  const DateMissing := "Fecha no válida"
  const ClearedMessage := "Formulario limpiado correctamente"
  const InitialTitle := "Editar Día"
  const TitlePrefix := "Datos del "

  /**
   * The option a `[data-valor="<text>"]` query finds among the five the
   * page draws, whose `data-valor` is "1" to "5".
   */
  function OptionFor(text: string): (k: Option<int>)
    ensures k.Some? <==> |text| == 1 && '1' <= text[0] <= '5'
    ensures k.Some? ==> 1 <= k.value <= 5 && text == [DigitChar(k.value)]
  {
    if |text| == 1 && '1' <= text[0] <= '5' then Some(DigitValue(text[0])) else None
  }

  /** The option found for a number is the one with that number, if it is 1 .. 5. */
  lemma OptionForNumber(v: Option<int>)
    ensures OptionFor(ShowNumber(v)) == if v.Some? && 1 <= v.value <= 5 then v else None
  {
    if v.Some? && v.value >= 0 {
      var s := ShowNumber(v);
      assert s == DigitsOf(v.value);
      if v.value >= 10 {
        assert |s| > 1;
      }
    }
  }

  /** The errors `validarFormulario` emits, in the order it emits them. */
  function FormErrors(number: string, date: string): (e: seq<string>)
    ensures |e| <= 2 && (e == [] <==> number != "" && date != "")
    ensures NumberMissing in e <==> number == ""
    ensures DateMissing in e <==> date == ""
    ensures number == "" ==> e[0] == NumberMissing
  {
    (if number == "" then [NumberMissing] else []) + (if date == "" then [DateMissing] else [])
  }

  /** Alerts are inserted at the top of the dialog body: the last one emitted is shown first. */
  function Stacked(emitted: seq<string>, shown: seq<string>): (r: seq<string>)
    ensures |r| == |emitted| + |shown|
    ensures r[|emitted|..] == shown
    ensures forall i :: 0 <= i < |emitted| ==> r[i] == emitted[|emitted| - 1 - i]
  {
    if emitted == [] then shown else Stacked(emitted[1..], [emitted[0]] + shown)
  }

  /** The POST the Guardar form sends, its notes with newlines written as CR LF. */
  function SavePost(csrf: string, date: string, number: string, notes: string): CalendarPage.Post {
    CalendarPage.Post(Some(CalendarPage.SaveAction), Some(csrf), Some(date), Some(number), Some(FormNewlines(notes)))
  }

  /** The POST of the form the Eliminar and Limpiar buttons build. */
  function DeletePost(csrf: string, date: string): CalendarPage.Post {
    CalendarPage.Post(Some(CalendarPage.DeleteAction), Some(csrf), Some(date), None, None)
  }

  /** What pressing Limpiar does: nothing when not confirmed, a delete for a stored day, otherwise a message. */
  datatype ClearResult = Declined | DeleteSent(post: CalendarPage.Post) | Cleared(message: string)

  /** What a key pressed in the dialog does: close it, or possibly select and submit. */
  datatype KeyEffect = Hide | Handled(submitted: Option<CalendarPage.Post>, prevented: bool)

  /** `e.key >= "1" && e.key <= "5"`, a comparison of strings. */
  predicate ShortcutKey(key: string) {
    LexLe("1", key) && LexLe(key, "5")
  }

  /** The one-character keys that pass the test are the digits 1 .. 5, and each selects its own option. */
  lemma ShortcutKeys(c: char)
    ensures ShortcutKey([c]) <==> '1' <= c <= '5'
    ensures '1' <= c <= '5' ==> OptionFor(ShowNumber(ParseInt([c]))) == Some(DigitValue(c))
  {
    assert [c][1..] == [];
    if '1' <= c <= '5' {
      assert [c] == [c] + [];
      ParseIntOfDigits([c], []);
      assert DigitsValue([c]) == DigitValue(c) by {
        assert [c][..0] == [];
      }
      OptionForNumber(Some(DigitValue(c)));
    }
  }

  /** The dialog `#modalDia` and the state of the page script. */
  class DayDialog {
    /** `datosCalendario`. */
    var data: map<string, CalendarEntry>
    /** The text of `#modal-titulo`. */
    var title: string
    /** The value of `#modal-fecha`. */
    var date: string
    /** The `.numero-opcion` carrying the class `selected`. */
    var selected: Option<int>
    /** The value of `#numero_valor`. */
    var number: string
    /** The value of `#observaciones`. */
    var notes: string
    /** Whether the form has the class `was-validated`. */
    var validated: bool
    /** Whether `#btn-eliminar` is displayed. */
    var deleteVisible: bool
    /** The error alerts in the dialog body, top first. */
    var alerts: seq<string>

    /** The hidden number field always holds the selected option's value, and is empty when none is. */
    ghost predicate Valid()
      reads this
    {
      (selected.None? <==> number == "") &&
      (selected.Some? ==> 1 <= selected.value <= 5 && number == [DigitChar(selected.value)])
    }

    /** The page as loaded, with lines 26 .. 43 reading the day buttons. */
    constructor (buttons: seq<DayButton>)
      ensures Valid() && data == Scraped(buttons)
      ensures title == InitialTitle && date == "" && notes == "" && !validated && !deleteVisible && alerts == []
    {
      var m: map<string, CalendarEntry> := map[];
      for i := 0 to |buttons|
        invariant m == Scraped(buttons[..i])
      {
        assert buttons[..i + 1][..i] == buttons[..i];
        var b := buttons[i];
        if b.withData && b.valueText.Some? {
          m := m[b.date := CalendarEntry(ParseInt(b.valueText.value), if b.title.Some? then b.title.value else "")];
        }
      }
      assert buttons[..|buttons|] == buttons;
      data := m;
      title := InitialTitle;
      date := "";
      selected := None;
      number := "";
      notes := "";
      validated := false;
      deleteVisible := false;
      alerts := [];
    }

    /** Lines 46 .. 59: clicking option `k` selects it alone and copies its value into the number field. */
    method Select(k: int)
      requires 1 <= k <= 5
      modifies this
      ensures Valid() && selected == Some(k) && number == [DigitChar(k)]
      ensures data == old(data) && title == old(title) && date == old(date) && notes == old(notes)
      ensures validated == old(validated) && deleteVisible == old(deleteVisible) && alerts == old(alerts)
    {
      selected := Some(k);
      number := [DigitChar(k)];
    }

    /** `limpiarFormulario` (lines 159 .. 175). */
    method Clear()
      modifies this
      ensures Valid() && selected.None? && number == "" && notes == "" && !validated && !deleteVisible
      ensures data == old(data) && title == old(title) && date == old(date) && alerts == old(alerts)
    {
      selected := None;
      number := "";
      notes := "";
      validated := false;
      deleteVisible := false;
    }

    /** `cargarDatosExistentes` (lines 182 .. 198). */
    method LoadExisting(entry: CalendarEntry)
      requires Valid()
      modifies this
      ensures Valid() && deleteVisible
      ensures var k := OptionFor(ShowNumber(entry.value));
              selected == (if k.Some? then k else old(selected)) &&
              notes == (if entry.notes != "" then entry.notes else old(notes))
      ensures data == old(data) && title == old(title) && date == old(date) && validated == old(validated) && alerts == old(alerts)
    {
      var k := OptionFor(ShowNumber(entry.value));
      if k.Some? {
        Select(k.value);
      }
      if entry.notes != "" {
        notes := entry.notes;
      }
      deleteVisible := true;
    }

    /**
     * The `show.bs.modal` handler (lines 62 .. 84): the dialog for `fecha`
     * starts from a clear form and shows the stored day if there is one;
     * the Eliminar button is shown exactly for a stored day, and an option is
     * always selected: the stored rating when it is 1 .. 5, otherwise 1.
     */
    method Show(fecha: string)
      requires Valid()
      modifies this
      ensures Valid() && title == TitlePrefix + DisplayDate(fecha) && date == fecha && !validated
      ensures deleteVisible <==> fecha in data
      ensures notes == (if fecha in data then data[fecha].notes else "")
      ensures selected == if fecha in data && data[fecha].value.Some? && 1 <= data[fecha].value.value <= 5
                          then data[fecha].value else Some(1)
      ensures data == old(data) && alerts == old(alerts)
    {
      title := TitlePrefix + DisplayDate(fecha);
      date := fecha;
      Clear();
      if fecha in data {
        OptionForNumber(data[fecha].value);
        LoadExisting(data[fecha]);
      }
      if number == "" {
        Select(1);
      }
    }

    /** The `hidden.bs.modal` handler (lines 87 .. 89). */
    method Hidden()
      modifies this
      ensures Valid() && selected.None? && number == "" && notes == "" && !validated && !deleteVisible
      ensures data == old(data) && title == old(title) && date == old(date) && alerts == old(alerts)
    {
      Clear();
    }

    /** `validarFormulario` (lines 204 .. 220): every alert it emits goes to the top of the dialog body. */
    method Validate() returns (valid: bool)
      modifies this
      ensures valid <==> FormErrors(old(number), old(date)) == []
      ensures alerts == Stacked(FormErrors(number, date), old(alerts))
      ensures data == old(data) && title == old(title) && date == old(date) && selected == old(selected)
      ensures number == old(number) && notes == old(notes) && validated == old(validated) && deleteVisible == old(deleteVisible)
    {
      valid := true;
      if number == "" {
        alerts := [NumberMissing] + alerts;
        valid := false;
      }
      if date == "" {
        alerts := [DateMissing] + alerts;
        valid := false;
      }
      assert FormErrors(number, date) == (if number == "" then [NumberMissing] else []) + (if date == "" then [DateMissing] else []);
    }

    /** The submit handler (lines 92 .. 100): the form is sent only when it validates. */
    method Submit(csrf: string) returns (post: Option<CalendarPage.Post>)
      modifies this
      ensures post.Some? <==> FormErrors(old(number), old(date)) == []
      ensures post.Some? ==> post.value == SavePost(csrf, date, number, notes)
      ensures alerts == Stacked(FormErrors(number, date), old(alerts))
      ensures data == old(data) && title == old(title) && date == old(date) && selected == old(selected)
      ensures number == old(number) && notes == old(notes) && validated == old(validated) && deleteVisible == old(deleteVisible)
    {
      var ok := Validate();
      post := if ok then Some(SavePost(csrf, date, number, notes)) else None;
    }

    /** The Eliminar button (lines 103 .. 121): once confirmed, a delete of the dialog's date is sent. */
    method DeleteClicked(confirmed: bool, csrf: string) returns (post: Option<CalendarPage.Post>)
      ensures post.Some? <==> confirmed
      ensures post.Some? ==> post.value == DeletePost(csrf, date)
    {
      post := if confirmed then Some(DeletePost(csrf, date)) else None;
    }

    /**
     * The Limpiar button (lines 124 .. 154): once confirmed the form is
     * cleared, and a delete is sent only when the date had stored data.
     */
    method ClearClicked(confirmed: bool, csrf: string) returns (r: ClearResult)
      requires Valid()
      modifies this
      ensures !confirmed ==> r == Declined && selected == old(selected) && number == old(number) && notes == old(notes) &&
                             deleteVisible == old(deleteVisible) && validated == old(validated)
      ensures confirmed ==> Valid() && selected.None? && number == "" && notes == "" && !validated && !deleteVisible
      ensures confirmed && date in data ==> r == DeleteSent(DeletePost(csrf, date))
      ensures confirmed && date !in data ==> r == Cleared(ClearedMessage)
      ensures Valid() && data == old(data) && title == old(title) && date == old(date) && alerts == old(alerts)
    {
      if !confirmed {
        return Declined;
      }
      Clear();
      if date in data {
        return DeleteSent(DeletePost(csrf, date));
      }
      return Cleared(ClearedMessage);
    }

    /**
     * The dialog's `keydown` handler (lines 339 .. 369): Escape closes it;
     * a key from "1" to "5" outside the notes selects that option; Enter
     * without Shift outside the notes submits a form that validates.
     */
    method KeyDown(key: string, onNotes: bool, shift: bool, csrf: string) returns (effect: KeyEffect)
      requires Valid()
      modifies this
      ensures Valid() && data == old(data) && title == old(title) && date == old(date) && notes == old(notes)
      ensures validated == old(validated) && deleteVisible == old(deleteVisible)
      ensures key == "Escape" ==> effect == Hide && selected == old(selected) && alerts == old(alerts)
      ensures key != "Escape" ==> effect.Handled?
      ensures var k := OptionFor(ShowNumber(ParseInt(key)));
              key != "Escape" ==>
                selected == (if ShortcutKey(key) && !onNotes && k.Some? then k else old(selected))
      ensures key != "Escape" && !(key == "Enter" && !shift && !onNotes) ==> alerts == old(alerts) && effect.submitted.None?
      ensures key == "Enter" && !shift && !onNotes ==>
                alerts == Stacked(FormErrors(number, date), old(alerts)) && effect.prevented &&
                (effect.submitted.Some? <==> FormErrors(number, date) == []) &&
                (effect.submitted.Some? ==> effect.submitted.value == SavePost(csrf, date, number, notes))
    {
      if key == "Escape" {
        return Hide;
      }
      var prevented := false;
      if ShortcutKey(key) && !onNotes {
        var k := OptionFor(ShowNumber(ParseInt(key)));
        if k.Some? {
          Select(k.value);
          prevented := true;
        }
      }
      var submitted: Option<CalendarPage.Post> := None;
      if key == "Enter" && !shift {
        if onNotes {
          return Handled(None, prevented);
        }
        var ok := Validate();
        if ok {
          submitted := Some(SavePost(csrf, date, number, notes));
        }
        prevented := true;
      }
      return Handled(submitted, prevented);
    }
  }

  /** With both fields empty the date alert ends up above the number alert. */
  lemma AlertOrder(shown: seq<string>)
    ensures Stacked(FormErrors("", ""), shown) == [DateMissing, NumberMissing] + shown
  {
  }

  /** A date the server printed is digits and dashes, with a digit at each end. */
  lemma DateCharacters(y: int, m: int, d: int)
    requires 0 <= y <= 9999 && 1 <= m <= 12 && 0 <= d <= 99
    ensures var s := FormatDate(y, m, d);
            |s| == 10 && IsDigit(s[0]) && IsDigit(s[9]) && forall i :: 0 <= i < |s| ==> IsDigit(s[i]) || s[i] == '-'
  {
    FormatDateFixed(y, m, d);
    var a, b, c := Fixed(y, 4), Fixed(m, 2), Fixed(d, 2);
    var s := a + "-" + b + "-" + c;
    forall i | 0 <= i < |s| ensures IsDigit(s[i]) || s[i] == '-' {
      if i < 4 { assert s[i] == a[i]; }
      else if 5 <= i < 7 { assert s[i] == b[i - 5]; }
      else if 8 <= i { assert s[i] == c[i - 8]; }
    }
    assert s[0] == a[0] && s[9] == c[1];
  }

  /** A date the server printed goes through `sanitizar_entrada` unchanged. */
  lemma SanitizedDate(y: int, m: int, d: int)
    requires 0 <= y <= 9999 && 1 <= m <= 12 && 0 <= d <= 99
    ensures CalendarPage.SanitizedField(Some(FormatDate(y, m, d))) == FormatDate(y, m, d)
  {
    DateCharacters(y, m, d);
    CalendarPage.PlainSanitized(FormatDate(y, m, d));
  }

  lemma SaveActionPlain()
    ensures CalendarPage.SanitizedField(Some(CalendarPage.SaveAction)) == CalendarPage.SaveAction
  {
    CalendarPage.PlainSanitized(CalendarPage.SaveAction);
  }

  /** The server reads the Guardar form back as a save of the selected rating. */
  lemma ReadSavePost(csrf: string, date: string, k: int, notes: string)
    requires 1 <= k <= 5
    ensures var q := CalendarPage.ReadPost(SavePost(csrf, date, [DigitChar(k)], notes));
            q.action == CalendarPage.SaveAction && q.value == k &&
            q.date == CalendarPage.SanitizedField(Some(date)) && q.notes == CalendarPage.SanitizedField(Some(FormNewlines(notes)))
  {
    SaveActionPlain();
    SelectedNumberRead(k);
  }

  /** The number field of a selected option reads back as its rating. */
  lemma SelectedNumberRead(k: int)
    requires 1 <= k <= 5
    ensures CalendarPage.PostNumber(Some([DigitChar(k)])) == k
  {
    assert [DigitChar(k)] == [DigitChar(k)] + [];
    IntvalOfDigits([DigitChar(k)], []);
    assert DigitsValue([DigitChar(k)]) == k by {
      assert [DigitChar(k)][..0] == [];
    }
  }

  /** For a date the server printed, the Guardar form is read back as a save of that date with the selected rating. */
  lemma SavePostRequest(csrf: string, y: int, m: int, d: int, k: int, notes: string, post: CalendarPage.Post)
    requires 0 <= y <= 9999 && IsRealDate(y, m, d) && 1 <= k <= 5
    requires post == SavePost(csrf, FormatDate(y, m, d), [DigitChar(k)], notes)
    ensures CalendarPage.ReadPost(post) ==
              CalendarPage.Request(CalendarPage.SaveAction, FormatDate(y, m, d), k, CalendarPage.SanitizedField(Some(FormNewlines(notes))))
  {
    ReadSavePost(csrf, FormatDate(y, m, d), k, notes);
    SanitizedDate(y, m, d);
  }

  /** The Guardar form carries the token it was given, so the page accepts it whenever the session holds that token. */
  lemma SavePostAccepted(vars: Vars, csrf: string, date: string, number: string, notes: string)
    requires CsrfValid(vars, csrf)
    ensures var post := SavePost(csrf, date, number, notes);
            post.action.Some? && CalendarPage.CsrfAccepted(vars, post)
  {
  }

  /**
   * The request the dialog's Guardar form makes for a day of the grid, with
   * an option selected, is saved under that date with that rating: the
   * browser's checks and the server's agree.  With `SavePostAccepted`,
   * `SavePostRequest` and `CalendarPage.DispatchAccepted` this is what the
   * page does with the form.
   */
  lemma DialogSaveAccepted(vars: Vars, rows: seq<Row>, y: int, m: int, d: int, k: int,
                           notes: string, user: int, now: int, q: CalendarPage.Request)
    requires 0 <= y <= 9999 && IsRealDate(y, m, d) && 1 <= k <= 5
    requires q == CalendarPage.Request(CalendarPage.SaveAction, FormatDate(y, m, d), k, notes)
    ensures CalendarPage.Perform(vars, rows, q, user, now, true) ==
              CalendarPage.Effect(CalendarPage.Redirected(CalendarPage.SavedMessage),
                                  Upserted(rows, user, FormatDate(y, m, d), k, notes, now),
                                  vars[SuccessKey := TextValue(CalendarPage.SavedMessage)])
  {
    PrintedDateIsValid(y, m, d);
    CalendarPage.PerformSave(vars, rows, q, user, now);
  }
}
