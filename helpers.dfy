/**
 * The pure helpers of `includes/functions.php`: the 1..5 check, the
 * canonical-date check, the two date-format converters, input sanitising
 * and the Spanish name tables.
 */
module Helpers {
  import opened Text
  import opened Gregorian
  import opened Base

  // ---------------------------------------------------------------------
  // validar_numero_1_a_5
  // ---------------------------------------------------------------------

  /** The numeric values the check can receive: an integer, an exact fraction (a float), or a non-numeric value. */
  datatype Number = IntNum(i: int) | Fraction(num: int, den: pos) | NonNumeric

  /** PHP `(int)` of a float: truncation toward zero. */
  function TruncFraction(num: int, den: pos): int {
    if num >= 0 then num / den else -((-num) / den)
  }

  /** `x` is the integer `k`. */
  predicate Denotes(x: Number, k: int) {
    match x
    case IntNum(i) => i == k
    case Fraction(num, den) => num == k * den
    case NonNumeric => false
  }

  /** `is_numeric($n) && $n >= 1 && $n <= 5 && $n == (int)$n`. */
  predicate ValidNumber1to5(x: Number) {
    match x
    case IntNum(i) => 1 <= i && i <= 5
    case Fraction(num, den) => den <= num && num <= 5 * den && num == den * TruncFraction(num, den)
    case NonNumeric => false
  }

  lemma MulMono(a: int, b: int, c: int)
    requires a > 0 && b <= c
    ensures a * b <= a * c
  {
  }

  lemma DivExact(k: int, den: pos)
    ensures (k * den) / den == k
  {
    var q := (k * den) / den;
    var r := (k * den) % den;
    assert k * den == den * q + r && 0 <= r < den;
    assert den * (k - q) == r;
    if k - q > 0 { MulMono(den, 1, k - q); }
    if k - q < 0 { MulMono(den, k - q, -1); }
  }

  /** The check accepts exactly the values that are one of the integers 1 .. 5. */
  lemma ValidNumberIff(x: Number)
    ensures ValidNumber1to5(x) <==> exists k :: 1 <= k <= 5 && Denotes(x, k)
  {
    if x.IntNum? && ValidNumber1to5(x) {
      assert Denotes(x, x.i);
    }
    if x.Fraction? {
      if ValidNumber1to5(x) {
        ValidFractionIsInteger(x.num, x.den);
        assert Denotes(x, TruncFraction(x.num, x.den));
      }
      if k :| 1 <= k <= 5 && Denotes(x, k) {
        IntegerFractionIsValid(x.num, x.den, k);
      }
    }
  }

  lemma ValidFractionIsInteger(num: int, den: pos)
    requires ValidNumber1to5(Fraction(num, den))
    ensures 1 <= TruncFraction(num, den) <= 5 && num == TruncFraction(num, den) * den
  {
    var k := TruncFraction(num, den);
    assert num == den * k;
    if k < 1 { MulMono(den, k, 0); }
    if k > 5 { MulMono(den, 6, k); }
  }

  lemma IntegerFractionIsValid(num: int, den: pos, k: int)
    requires 1 <= k <= 5 && num == k * den
    ensures ValidNumber1to5(Fraction(num, den))
  {
    MulMono(den, 1, k);
    MulMono(den, k, 5);
    assert num >= den > 0;
    DivExact(k, den);
    assert TruncFraction(num, den) == k;
  }

  /** 0 and 6 are rejected, 2.5 is rejected, 3 and 3.0 are accepted. */
  lemma ValidNumberExamples()
    ensures !ValidNumber1to5(IntNum(0)) && !ValidNumber1to5(IntNum(6))
    ensures !ValidNumber1to5(Fraction(5, 2))
    ensures ValidNumber1to5(IntNum(3)) && ValidNumber1to5(Fraction(6, 2))
  {
  }

  // ---------------------------------------------------------------------
  // validar_fecha: Y-m-d read back and reprinted
  // ---------------------------------------------------------------------

  /**
   * `validar_fecha($fecha)` with the format `Y-m-d`: the text must be a real
   * date written exactly as `date('Y-m-d')` writes it, four-digit year,
   * two-digit month and day.
   */
  predicate IsValidDate(s: string) {
    |s| == 10 && s[4] == '-' && s[7] == '-' &&
    AllDigits(s[..4]) && AllDigits(s[5..7]) && AllDigits(s[8..]) &&
    IsRealDate(DigitsValue(s[..4]), DigitsValue(s[5..7]), DigitsValue(s[8..]))
  }

  /** The valid texts are exactly the printed real dates with years 0 .. 9999. */
  lemma ValidDateIff(s: string)
    ensures IsValidDate(s) <==> exists y, m, d :: 0 <= y <= 9999 && IsRealDate(y, m, d) && s == FormatDate(y, m, d)
  {
    if IsValidDate(s) {
      ValidDateIsPrinted(s);
    }
    if y, m, d :| 0 <= y <= 9999 && IsRealDate(y, m, d) && s == FormatDate(y, m, d) {
      PrintedDateIsValid(y, m, d);
    }
  }

  /** A valid text is the printing of the date its three fields spell. */
  lemma ValidDateIsPrinted(s: string)
    requires IsValidDate(s)
    ensures var y, m, d := DigitsValue(s[..4]), DigitsValue(s[5..7]), DigitsValue(s[8..]);
            0 <= y <= 9999 && IsRealDate(y, m, d) && s == FormatDate(y, m, d)
  {
    var a, b, c := s[..4], s[5..7], s[8..];
    var y, m, d := DigitsValue(a), DigitsValue(b), DigitsValue(c);
    assert |a| == 4 && |b| == 2 && |c| == 2;
    FixedOfValue(a);
    FixedOfValue(b);
    FixedOfValue(c);
    SmallPowers();
    assert y < 10000 && m < 100 && d < 100;
    FormatDateFixed(y, m, d);
    assert FormatDate(y, m, d) == a + "-" + b + "-" + c;
    assert s == a + "-" + b + "-" + c;
  }

  /** Four, two and two digits spelling a real date, joined by dashes, make a valid text. */
  lemma ValidDateOfFields(a: string, b: string, c: string)
    requires |a| == 4 && |b| == 2 && |c| == 2 && AllDigits(a) && AllDigits(b) && AllDigits(c)
    requires IsRealDate(DigitsValue(a), DigitsValue(b), DigitsValue(c))
    ensures IsValidDate(a + "-" + b + "-" + c)
  {
    var s := a + "-" + b + "-" + c;
    assert |s| == 10 && s[4] == '-' && s[7] == '-';
    assert s[..4] == a && s[5..7] == b && s[8..] == c;
  }

  /** Every printed real date with a year of at most four digits is valid. */
  lemma PrintedDateIsValid(y: int, m: int, d: int)
    requires 0 <= y <= 9999 && IsRealDate(y, m, d)
    ensures IsValidDate(FormatDate(y, m, d))
  {
    FormatDateFixed(y, m, d);
    SmallPowers();
    ValueOfFixed(y, 4);
    ValueOfFixed(m, 2);
    ValueOfFixed(d, 2);
    ValidDateOfFields(Fixed(y, 4), Fixed(m, 2), Fixed(d, 2));
  }

  /** 29 February exists in 2024 but not in 2023; an unpadded month is refused. */
  lemma ValidDateExamples()
    ensures IsValidDate("2024-02-29")
    ensures !IsValidDate("2023-02-29")
    ensures !IsValidDate("2024-2-29")
  {
    var leap, plain := "2024-02-29", "2023-02-29";
    assert leap[..4] == "2024" && leap[5..7] == "02" && leap[8..] == "29";
    assert plain[..4] == "2023" && plain[5..7] == "02" && plain[8..] == "29";
    ExampleFields();
    assert DaysInMonth(2024, 2) == 29 && DaysInMonth(2023, 2) == 28;
  }

  lemma ExampleFields()
    ensures DigitsValue("2024") == 2024 && DigitsValue("2023") == 2023
    ensures DigitsValue("02") == 2 && DigitsValue("29") == 29
  {
    assert "2024"[..3] == "202" && "2023"[..3] == "202" && "202"[..2] == "20" && "20"[..1] == "2";
    assert "02"[..1] == "0" && "29"[..1] == "2";
  }

  /**
   * `fecha BETWEEN 'Y-m-01' AND 'Y-m-t'` on a valid date selects exactly the
   * days of that month.
   */
  lemma InMonthRange(f: string, y: nat, m: int)
    requires IsValidDate(f) && y <= 9999 && 1 <= m <= 12
    ensures LexLe(FormatDate(y, m, 1), f) && LexLe(f, FormatDate(y, m, DaysInMonth(y, m))) <==>
            exists d :: 1 <= d <= DaysInMonth(y, m) && f == FormatDate(y, m, d)
  {
    ValidDateIff(f);
    var y', m', d' :| 0 <= y' <= 9999 && IsRealDate(y', m', d') && f == FormatDate(y', m', d');
    FormatDateLe(y, m, 1, y', m', d');
    FormatDateLe(y', m', d', y, m, DaysInMonth(y, m));
    if LexLe(FormatDate(y, m, 1), f) && LexLe(f, FormatDate(y, m, DaysInMonth(y, m))) {
      assert y' == y && m' == m;
      assert 1 <= d' <= DaysInMonth(y, m) && f == FormatDate(y, m, d');
    }
    if d :| 1 <= d <= DaysInMonth(y, m) && f == FormatDate(y, m, d) {
      FormatDateLe(y, m, 1, y, m, d);
      FormatDateLe(y, m, d, y, m, DaysInMonth(y, m));
    }
  }

  /** `fecha BETWEEN 'Y-01-01' AND 'Y-12-31'` on a valid date selects exactly the days of that year. */
  lemma InYearRange(f: string, y: nat)
    requires IsValidDate(f) && y <= 9999
    ensures LexLe(FormatDate(y, 1, 1), f) && LexLe(f, FormatDate(y, 12, 31)) <==>
            exists m, d :: IsRealDate(y, m, d) && f == FormatDate(y, m, d)
  {
    ValidDateIff(f);
    var y', m', d' :| 0 <= y' <= 9999 && IsRealDate(y', m', d') && f == FormatDate(y', m', d');
    FormatDateLe(y, 1, 1, y', m', d');
    FormatDateLe(y', m', d', y, 12, 31);
    if LexLe(FormatDate(y, 1, 1), f) && LexLe(f, FormatDate(y, 12, 31)) {
      assert y' == y;
      assert IsRealDate(y, m', d') && f == FormatDate(y, m', d');
    }
    if m, d :| IsRealDate(y, m, d) && f == FormatDate(y, m, d) {
      FormatDateLe(y, 1, 1, y, m, d);
      FormatDateLe(y, m, d, y, 12, 31);
    }
  }

  // ---------------------------------------------------------------------
  // fecha_espanol_a_mysql / fecha_mysql_a_espanol
  // ---------------------------------------------------------------------

  /** `fecha_espanol_a_mysql`: `dd/mm/yyyy` to `yyyy-mm-dd`, each piece read with `(int)` and re-padded; no range check. */
  function DateEsToMysql(s: string): (r: string)
    ensures r == "" <==> PhpEmpty(s) || |Split(s, '/')| != 3
  {
    if PhpEmpty(s) then ""
    else
      var parts := Split(s, '/');
      if |parts| != 3 then ""
      else FormatDate(PhpIntval(parts[2]), PhpIntval(parts[1]), PhpIntval(parts[0]))
  }

  /** `fecha_mysql_a_espanol`: `yyyy-mm-dd` to `dd/mm/yyyy`, the same way round. */
  function DateMysqlToEs(s: string): (r: string)
    ensures r == "" <==> PhpEmpty(s) || |Split(s, '-')| != 3
  {
    if PhpEmpty(s) then ""
    else
      var parts := Split(s, '-');
      if |parts| != 3 then ""
      else FormatInt(PhpIntval(parts[2]), 2) + "/" + FormatInt(PhpIntval(parts[1]), 2) + "/" + FormatInt(PhpIntval(parts[0]), 4)
  }

  /** The text `dd/mm/yyyy` with fixed-width fields. */
  function EsText(d: nat, m: nat, y: nat): string {
    Fixed(d, 2) + "/" + Fixed(m, 2) + "/" + Fixed(y, 4)
  }

  lemma NoSeparatorInDigits(t: string, c: char)
    requires AllDigits(t) && !IsDigit(c)
    ensures c !in t
  {
  }

  lemma SplitThree(a: string, b: string, c: string, sep: char)
    requires sep !in a && sep !in b && sep !in c
    ensures Split(a + [sep] + b + [sep] + c, sep) == [a, b, c]
  {
    var parts := [a, b, c];
    var s := a + [sep] + b + [sep] + c;
    JoinThree(a, b, c, [sep]);
    assert s == Join(parts, [sep]);
    assert forall k :: 0 <= k < |parts| ==> sep !in parts[k];
    SplitJoin(parts, sep);
  }

  lemma JoinThree(a: string, b: string, c: string, sep: string)
    ensures Join([a, b, c], sep) == a + sep + b + sep + c
  {
    var parts := [a, b, c];
    assert parts[1..] == [b, c] && [b, c][1..] == [c];
    assert Join([b, c], sep) == b + sep + c;
  }

  /** `(int)` reads back a fixed-width field. */
  lemma IntvalOfFixed(n: nat, w: nat)
    requires w >= 1 && n < Pow10(w)
    ensures PhpIntval(Fixed(n, w)) == n
  {
    assert Fixed(n, w) + [] == Fixed(n, w);
    IntvalOfDigits(Fixed(n, w), []);
    ValueOfFixed(n, w);
  }

  lemma EsToMysqlParts(s: string, a: string, b: string, c: string)
    requires !PhpEmpty(s) && Split(s, '/') == [a, b, c]
    ensures DateEsToMysql(s) == FormatDate(PhpIntval(c), PhpIntval(b), PhpIntval(a))
  {
  }

  lemma MysqlToEsParts(s: string, a: string, b: string, c: string)
    requires !PhpEmpty(s) && Split(s, '-') == [a, b, c]
    ensures DateMysqlToEs(s) == FormatInt(PhpIntval(c), 2) + "/" + FormatInt(PhpIntval(b), 2) + "/" + FormatInt(PhpIntval(a), 4)
  {
  }

  /** `fecha_espanol_a_mysql` of a well-formed `dd/mm/yyyy` is the matching `yyyy-mm-dd`. */
  lemma EsToMysqlOfText(d: nat, m: nat, y: nat)
    requires d <= 99 && m <= 99 && y <= 9999
    ensures DateEsToMysql(EsText(d, m, y)) == FormatDate(y, m, d)
  {
    SmallPowers();
    var a, b, c := Fixed(d, 2), Fixed(m, 2), Fixed(y, 4);
    var s := EsText(d, m, y);
    assert |s| == 10;
    NoSeparatorInDigits(a, '/');
    NoSeparatorInDigits(b, '/');
    NoSeparatorInDigits(c, '/');
    SplitThree(a, b, c, '/');
    EsToMysqlParts(s, a, b, c);
    IntvalOfFixed(d, 2);
    IntvalOfFixed(m, 2);
    IntvalOfFixed(y, 4);
  }

  /** `fecha_mysql_a_espanol` of a well-formed `yyyy-mm-dd` is the matching `dd/mm/yyyy`. */
  lemma MysqlToEsOfDate(y: nat, m: nat, d: nat)
    requires d <= 99 && m <= 99 && y <= 9999
    ensures DateMysqlToEs(FormatDate(y, m, d)) == EsText(d, m, y)
  {
    SmallPowers();
    var a, b, c := Fixed(y, 4), Fixed(m, 2), Fixed(d, 2);
    var s := FormatDate(y, m, d);
    FormatDateFixed(y, m, d);
    assert |s| == 10;
    NoSeparatorInDigits(a, '-');
    NoSeparatorInDigits(b, '-');
    NoSeparatorInDigits(c, '-');
    SplitThree(a, b, c, '-');
    MysqlToEsParts(s, a, b, c);
    IntvalOfFixed(d, 2);
    IntvalOfFixed(m, 2);
    IntvalOfFixed(y, 4);
    FormatIntFixed(d, 2);
    FormatIntFixed(m, 2);
    FormatIntFixed(y, 4);
  }

  /** A well-formed `dd/mm/yyyy` becomes the matching `yyyy-mm-dd` and converts back to itself. */
  lemma EsMysqlRoundTrip(d: nat, m: nat, y: nat)
    requires d <= 99 && m <= 99 && y <= 9999
    ensures DateEsToMysql(EsText(d, m, y)) == FormatDate(y, m, d)
    ensures DateMysqlToEs(DateEsToMysql(EsText(d, m, y))) == EsText(d, m, y)
  {
    EsToMysqlOfText(d, m, y);
    MysqlToEsOfDate(y, m, d);
  }

  /** A well-formed `yyyy-mm-dd` becomes the matching `dd/mm/yyyy` and converts back to itself. */
  lemma MysqlEsRoundTrip(y: nat, m: nat, d: nat)
    requires d <= 99 && m <= 99 && y <= 9999
    ensures DateMysqlToEs(FormatDate(y, m, d)) == EsText(d, m, y)
    ensures DateEsToMysql(DateMysqlToEs(FormatDate(y, m, d))) == FormatDate(y, m, d)
  {
    MysqlToEsOfDate(y, m, d);
    EsToMysqlOfText(d, m, y);
  }

  // ---------------------------------------------------------------------
  // sanitizar_entrada: trim, then htmlspecialchars(ENT_QUOTES)
  // ---------------------------------------------------------------------

  /** The characters `htmlspecialchars` with `ENT_QUOTES` never leaves raw. */
  predicate IsRawSpecial(c: char) {
    c == '<' || c == '>' || c == '"' || c == '\''
  }

  predicate IsEscaped(c: char) {
    c == '&' || IsRawSpecial(c)
  }

  function EscapeChar(c: char): (r: string)
    ensures |r| >= 1 && (r[0] == '&' || r == [c])
    ensures r[0] == (if IsEscaped(c) then '&' else c)
    ensures r[|r| - 1] == (if IsEscaped(c) then ';' else c)
    ensures forall i :: 0 <= i < |r| ==> !IsRawSpecial(r[i])
  {
    if c == '&' then "&amp;"
    else if c == '"' then "&quot;"
    else if c == '\'' then "&#039;"
    else if c == '<' then "&lt;"
    else if c == '>' then "&gt;"
    else [c]
  }

  /**
   * `htmlspecialchars($s, ENT_QUOTES)`: the result has no raw `< > " '`, and
   * its first and last characters are the input's own, or `&` at the front
   * and `;` at the back of an entity.
   */
  function HtmlEscape(s: string): (r: string)
    ensures forall i :: 0 <= i < |r| ==> !IsRawSpecial(r[i])
    ensures |r| >= |s| && (s == [] <==> r == [])
    ensures s != [] ==> r[0] == (if IsEscaped(s[0]) then '&' else s[0])
    ensures s != [] ==> r[|r| - 1] == (if IsEscaped(s[|s| - 1]) then ';' else s[|s| - 1])
  {
    if s == [] then []
    else
      var e, rest := EscapeChar(s[0]), HtmlEscape(s[1..]);
      assert forall i :: 0 <= i < |e + rest| ==> (e + rest)[i] == if i < |e| then e[i] else rest[i - |e|];
      e + rest
  }

  /** `htmlspecialchars_decode` for the five entities written by `HtmlEscape`. */
  function HtmlUnescape(r: string): string
    decreases |r|
  {
    if r == [] then []
    else if |r| >= 5 && r[..5] == "&amp;" then "&" + HtmlUnescape(r[5..])
    else if |r| >= 6 && r[..6] == "&quot;" then "\"" + HtmlUnescape(r[6..])
    else if |r| >= 6 && r[..6] == "&#039;" then "'" + HtmlUnescape(r[6..])
    else if |r| >= 4 && r[..4] == "&lt;" then "<" + HtmlUnescape(r[4..])
    else if |r| >= 4 && r[..4] == "&gt;" then ">" + HtmlUnescape(r[4..])
    else [r[0]] + HtmlUnescape(r[1..])
  }

  lemma UnescapeEscapeChar(c: char, rest: string)
    ensures HtmlUnescape(EscapeChar(c) + rest) == [c] + HtmlUnescape(rest)
  {
    var e := EscapeChar(c);
    var r := e + rest;
    assert r[..|e|] == e && r[|e|..] == rest;
    if c == '&' {
      assert r[..5] == "&amp;";
    } else if c == '"' {
      assert r[..5][1] == 'q' && r[..6] == "&quot;";
    } else if c == '\'' {
      assert r[..5][1] == '#' && r[..6] == "&#039;";
    } else if c == '<' {
      assert |r| >= 5 ==> r[..5][1] == 'l';
      assert |r| >= 6 ==> r[..6][1] == 'l';
      assert r[..4] == "&lt;";
    } else if c == '>' {
      assert |r| >= 5 ==> r[..5][1] == 'g';
      assert |r| >= 6 ==> r[..6][1] == 'g';
      assert r[..4][1] == 'g' && r[..4] == "&gt;";
    } else {
      assert e == [c] && r[0] == c;
      assert |r| >= 4 ==> r[..4][0] == c;
      assert |r| >= 5 ==> r[..5][0] == c;
      assert |r| >= 6 ==> r[..6][0] == c;
      assert r[1..] == rest;
    }
  }

  /** Escaping loses nothing: decoding the five entities gives the input back. */
  lemma {:induction false} UnescapeEscape(s: string)
    ensures HtmlUnescape(HtmlEscape(s)) == s
    decreases |s|
  {
    if s != [] {
      UnescapeEscapeChar(s[0], HtmlEscape(s[1..]));
      UnescapeEscape(s[1..]);
    }
  }

  /** Text without the five characters `htmlspecialchars` escapes is left as it is. */
  lemma {:induction false} EscapePlain(s: string)
    requires forall i :: 0 <= i < |s| ==> !IsEscaped(s[i])
    ensures HtmlEscape(s) == s
    decreases |s|
  {
    if s != [] {
      EscapePlain(s[1..]);
      assert s == [s[0]] + s[1..];
    }
  }

  /** Array keys as PHP has them: integers or strings. */
  datatype Key = IntKey(i: int) | StrKey(s: string)

  /** The PHP values `sanitizar_entrada` is given (request data): scalars and arrays of them. */
  datatype PhpValue = Null | Bool(b: bool) | Int(i: int) | Str(s: string) | Arr(entries: seq<Entry>)

  datatype Entry = Entry(key: Key, value: PhpValue)

  /**
   * `sanitizar_entrada($data)`: strings are trimmed and escaped, arrays are
   * mapped element by element keeping their keys in order, every other value
   * is returned unchanged.
   */
  function Sanitize(v: PhpValue): (r: PhpValue)
    ensures v.Str? <==> r.Str?
    ensures !v.Str? && !v.Arr? ==> r == v
    ensures v.Arr? ==> r.Arr? && |r.entries| == |v.entries|
    decreases v
  {
    match v
    case Arr(es) =>
      Arr(seq(|es|, i requires 0 <= i < |es| => Entry(es[i].key, Sanitize(es[i].value))))
    case Str(s) => Str(HtmlEscape(Trim(s)))
    case _ => v
  }

  /** An array keeps its keys, in order, and each value is sanitised on its own. */
  lemma SanitizeArray(es: seq<Entry>)
    ensures var r := Sanitize(Arr(es));
            r.Arr? && |r.entries| == |es| &&
            forall i :: 0 <= i < |es| ==> r.entries[i] == Entry(es[i].key, Sanitize(es[i].value))
  {
  }

  /** Escaping puts no whitespace at either end that was not already there. */
  lemma EscapeEdges(t: string)
    requires t == [] || (!IsTrimChar(t[0]) && !IsTrimChar(t[|t| - 1]))
    ensures var r := HtmlEscape(t); r == [] || (!IsTrimChar(r[0]) && !IsTrimChar(r[|r| - 1]))
  {
    var r := HtmlEscape(t);
    if t != [] {
      assert r[0] == (if IsEscaped(t[0]) then '&' else t[0]);
      assert r[|r| - 1] == (if IsEscaped(t[|t| - 1]) then ';' else t[|t| - 1]);
    }
  }

  /**
   * A sanitised string has no raw `< > " '`, starts and ends with no
   * whitespace, and decodes back to the trimmed input.
   */
  lemma SanitizeString(s: string)
    ensures var r := Sanitize(Str(s)).s;
            HtmlUnescape(r) == Trim(s) &&
            (r == [] || (!IsTrimChar(r[0]) && !IsTrimChar(r[|r| - 1]))) &&
            (forall i :: 0 <= i < |r| ==> !IsRawSpecial(r[i]))
  {
    var t := Trim(s);
    assert Sanitize(Str(s)) == Str(HtmlEscape(t));
    EscapeEdges(t);
    UnescapeEscape(t);
  }

  /** A string holding one of `& < > " '` grows when escaped, and its escape holds an `&` at `j`. */
  lemma {:induction false} EscapeGrows(s: string, i: int) returns (j: nat)
    requires 0 <= i < |s| && IsEscaped(s[i])
    ensures |HtmlEscape(s)| > |s|
    ensures j < |HtmlEscape(s)| && HtmlEscape(s)[j] == '&'
    decreases |s|
  {
    var e := EscapeChar(s[0]);
    var tail := HtmlEscape(s[1..]);
    assert HtmlEscape(s) == e + tail;
    if i == 0 {
      j := 0;
    } else {
      var k := EscapeGrows(s[1..], i - 1);
      j := |e| + k;
      assert (e + tail)[j] == tail[k];
    }
  }

  /**
   * Sanitising is not idempotent: when the trimmed input holds one of
   * `& < > " '`, for instance a lone `&`, sanitising the result again
   * escapes the `&` of the entity a second time.
   */
  lemma SanitizeNotIdempotent(s: string, i: int)
    requires 0 <= i < |Trim(s)| && IsEscaped(Trim(s)[i])
    ensures Sanitize(Sanitize(Str(s))) != Sanitize(Str(s))
  {
    var t := Trim(s);
    var r := HtmlEscape(t);
    var once, twice := Sanitize(Str(s)), Sanitize(Str(r));
    assert once == Str(r) && twice == Str(HtmlEscape(Trim(r)));
    EscapeTwice(t, i);
  }

  lemma EscapeTwice(t: string, i: int)
    requires 0 <= i < |t| && IsEscaped(t[i])
    requires t == [] || (!IsTrimChar(t[0]) && !IsTrimChar(t[|t| - 1]))
    ensures |HtmlEscape(Trim(HtmlEscape(t)))| > |HtmlEscape(t)|
  {
    var r := HtmlEscape(t);
    var j := EscapeGrows(t, i);
    EscapeEdges(t);
    TrimOfTrimmed(r);
    var _ := EscapeGrows(r, j);
  }

  // ---------------------------------------------------------------------
  // Name tables
  // ---------------------------------------------------------------------

  /** `obtener_meses_espanol()`: keyed by the month numbers 1 .. 12. */
  function MonthNames(): (names: map<int, string>)
    ensures forall m :: m in names <==> 1 <= m <= 12
    ensures names[1] == "Enero" && names[12] == "Diciembre"
  {
    map[1 := "Enero", 2 := "Febrero", 3 := "Marzo", 4 := "Abril",
        5 := "Mayo", 6 := "Junio", 7 := "Julio", 8 := "Agosto",
        9 := "Septiembre", 10 := "Octubre", 11 := "Noviembre", 12 := "Diciembre"]
  }

  /** `obtener_dias_semana_espanol()`: seven names, Monday (ISO weekday 1) first. */
  function WeekdayNames(): (names: seq<string>)
    ensures |names| == 7 && names[0] == "Lunes" && names[6] == "Domingo"
  {
    ["Lunes", "Martes", "Miércoles", "Jueves", "Viernes", "Sábado", "Domingo"]
  }

}
