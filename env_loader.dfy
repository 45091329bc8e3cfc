/**
 * `EnvLoader` (includes/env_loader.php): reading `KEY=VALUE` lines of a
 * `.env` file into `$_ENV`, `$_SERVER` and the process environment, and the
 * prioritised lookups over those three maps.  A file is given as its lines
 * (`file()` with empty lines skipped), or `None` when it does not exist.
 */
module EnvLoading {
  import opened Base
  import opened Text

  // ---------------------------------------------------------------------
  // One line
  // ---------------------------------------------------------------------

  predicate IsQuote(c: char) {
    c == '"' || c == '\''
  }

  /** The quote part of `removeQuotes`: drop one enclosing pair of the same quote character. */
  function Unquote(t: string): (r: string)
    ensures r == t || (|t| >= 2 && IsQuote(t[0]) && t[|t| - 1] == t[0] && r == t[1..|t| - 1])
  {
    if |t| >= 2 && t[0] == '"' && t[|t| - 1] == '"' then t[1..|t| - 1]
    else if |t| >= 2 && t[0] == '\'' && t[|t| - 1] == '\'' then t[1..|t| - 1]
    else t
  }

  /** `removeQuotes`: trim, then unquote. */
  function RemoveQuotes(value: string): string {
    Unquote(Trim(value))
  }

  /**
   * The body of the `load` loop for one line: `#` lines and lines without
   * `=` give nothing; otherwise the line is cut at its first `=`, the key
   * trimmed and the value trimmed and unquoted.
   */
  function ParseLine(line: string): (r: Option<(string, string)>)
    ensures |line| > 0 && line[0] == '#' ==> r.None?
    ensures '=' !in line ==> r.None?
    ensures r.Some? ==> '=' !in r.value.0
  {
    if |line| > 0 && line[0] == '#' then None
    else
      var i := IndexOf(line, '=');
      if i == |line| then None
      else Some((Trim(line[..i]), RemoveQuotes(line[i + 1..])))
  }

  /** A line is cut at its first `=` only, so the value keeps any later `=`. */
  lemma ParseAtFirstEquals(key: string, value: string)
    requires '=' !in key
    requires |key| == 0 || key[0] != '#'
    ensures ParseLine(key + "=" + value) == Some((Trim(key), RemoveQuotes(value)))
  {
    var line := key + "=" + value;
    IndexAfterPrefix(key, '=', value);
    assert line[..|key|] == key;
    assert line[|key| + 1..] == value;
  }

  lemma TrimQuoted(p: char, q: char, s: string)
    requires IsQuote(p) && IsQuote(q)
    ensures Trim([p] + s + [q]) == [p] + s + [q]
  {
    var v := [p] + s + [q];
    assert v[0] == p && v[|v| - 1] == q;
    TrimOfTrimmed(v);
  }

  /** One matching pair of quotes is removed, and only one. */
  lemma UnquoteMatching(q: char, s: string)
    requires IsQuote(q)
    ensures RemoveQuotes([q] + s + [q]) == s
  {
    TrimQuoted(q, q, s);
    UnquotePair(q, s);
  }

  lemma UnquotePair(q: char, s: string)
    requires IsQuote(q)
    ensures Unquote([q] + s + [q]) == s
  {
    var v := [q] + s + [q];
    assert v[0] == q && v[|v| - 1] == q;
    assert v[1..|v| - 1] == s;
  }

  /** Mismatched quotes are kept as they are. */
  lemma KeepMismatched(p: char, q: char, s: string)
    requires IsQuote(p) && IsQuote(q) && p != q
    ensures RemoveQuotes([p] + s + [q]) == [p] + s + [q]
  {
    TrimQuoted(p, q, s);
    var v := [p] + s + [q];
    assert v[0] == p && v[|v| - 1] == q;
  }

  // ---------------------------------------------------------------------
  // Loading a file
  // ---------------------------------------------------------------------

  /** `$_ENV`, `$_SERVER` and the environment `putenv`/`getenv` work on. */
  datatype EnvState = EnvState(env: map<string, string>, server: map<string, string>, process: map<string, string>)

  /** What a line gives: a key and a value, or nothing. */
  type Entry = Option<(string, string)>

  /** One line of `load`: a key already in `$_ENV` or `$_SERVER` is left as it is. */
  function Apply(s: EnvState, e: Entry): EnvState {
    match e
    case None => s
    case Some((k, v)) =>
      if k !in s.env && k !in s.server then EnvState(s.env[k := v], s.server[k := v], s.process[k := v])
      else s
  }

  /** The state after the entries were applied in order. */
  function ApplyAll(s: EnvState, es: seq<Entry>): EnvState
    decreases |es|
  {
    if es == [] then s else Apply(ApplyAll(s, es[..|es| - 1]), es[|es| - 1])
  }

  function Parsed(lines: seq<string>): (es: seq<Entry>)
    ensures |es| == |lines| && forall i :: 0 <= i < |lines| ==> es[i] == ParseLine(lines[i])
  {
    seq(|lines|, i requires 0 <= i < |lines| => ParseLine(lines[i]))
  }

  /** The state after `load` went through `lines` in order. */
  function Loaded(s: EnvState, lines: seq<string>): EnvState {
    ApplyAll(s, Parsed(lines))
  }

  /** Some entry gives key `k`. */
  predicate GivesKey(es: seq<Entry>, k: string) {
    exists i :: 0 <= i < |es| && es[i].Some? && es[i].value.0 == k
  }

  lemma GivesKeySnoc(es: seq<Entry>, k: string)
    requires es != []
    ensures GivesKey(es, k) <==> GivesKey(es[..|es| - 1], k) || (es[|es| - 1].Some? && es[|es| - 1].value.0 == k)
  {
    var init := es[..|es| - 1];
    if GivesKey(es, k) {
      var i :| 0 <= i < |es| && es[i].Some? && es[i].value.0 == k;
      if i < |init| {
        assert init[i] == es[i];
      }
    }
    if GivesKey(init, k) {
      var i :| 0 <= i < |init| && init[i].Some? && init[i].value.0 == k;
      assert es[i] == init[i];
    }
  }

  /** Variables defined before the file are never overwritten. */
  lemma {:induction false} ApplyAllKeeps(s: EnvState, es: seq<Entry>, k: string)
    ensures k in s.env ==> k in ApplyAll(s, es).env && ApplyAll(s, es).env[k] == s.env[k]
    ensures k in s.server ==> k in ApplyAll(s, es).server && ApplyAll(s, es).server[k] == s.server[k]
    decreases |es|
  {
    if es != [] {
      ApplyAllKeeps(s, es[..|es| - 1], k);
    }
  }

  /**
   * A key missing from `$_SERVER` before the file is in `$_ENV` after it
   * exactly when it was there already or a line gives it, and in `$_SERVER`
   * after it exactly when a line gives it and `$_ENV` did not have it.
   */
  lemma {:induction false} ApplyAllDomain(s: EnvState, es: seq<Entry>, k: string)
    requires k !in s.server
    ensures k in ApplyAll(s, es).env <==> k in s.env || GivesKey(es, k)
    ensures k in ApplyAll(s, es).server <==> k !in s.env && GivesKey(es, k)
    decreases |es|
  {
    if es != [] {
      ApplyAllDomain(s, es[..|es| - 1], k);
      GivesKeySnoc(es, k);
    }
  }

  /** Within the file, the first entry giving a key wins. */
  lemma {:induction false} ApplyAllFirstWins(s: EnvState, es: seq<Entry>, i: int, k: string, v: string)
    requires k !in s.env && k !in s.server
    requires 0 <= i < |es| && es[i] == Some((k, v))
    requires !GivesKey(es[..i], k)
    ensures k in ApplyAll(s, es).env && ApplyAll(s, es).env[k] == v
    ensures k in ApplyAll(s, es).server && ApplyAll(s, es).server[k] == v
    decreases |es|
  {
    var init := es[..|es| - 1];
    if i < |init| {
      assert init[i] == es[i] && init[..i] == es[..i];
      ApplyAllFirstWins(s, init, i, k, v);
    } else {
      assert init == es[..i];
      ApplyAllDomain(s, init, k);
    }
  }

  /** `load` keeps what `$_ENV` and `$_SERVER` had before. */
  lemma LoadedKeeps(s: EnvState, lines: seq<string>, k: string)
    ensures k in s.env ==> k in Loaded(s, lines).env && Loaded(s, lines).env[k] == s.env[k]
    ensures k in s.server ==> k in Loaded(s, lines).server && Loaded(s, lines).server[k] == s.server[k]
  {
    ApplyAllKeeps(s, Parsed(lines), k);
  }

  /** For a new key, the first line that gives it decides its value in `$_ENV` and `$_SERVER`. */
  lemma LoadedFirstWins(s: EnvState, lines: seq<string>, i: int, k: string, v: string)
    requires k !in s.env && k !in s.server
    requires 0 <= i < |lines| && ParseLine(lines[i]) == Some((k, v))
    requires forall j :: 0 <= j < i ==> ParseLine(lines[j]).None? || ParseLine(lines[j]).value.0 != k
    ensures k in Loaded(s, lines).env && Loaded(s, lines).env[k] == v
    ensures k in Loaded(s, lines).server && Loaded(s, lines).server[k] == v
  {
    var es := Parsed(lines);
    assert !GivesKey(es[..i], k) by {
      forall j | 0 <= j < i ensures !(es[..i][j].Some? && es[..i][j].value.0 == k) {
        assert es[..i][j] == ParseLine(lines[j]);
      }
    }
    ApplyAllFirstWins(s, es, i, k, v);
  }

  /** A key nobody defined and no line gives stays undefined. */
  lemma LoadedUndefined(s: EnvState, lines: seq<string>, k: string)
    requires k !in s.env && k !in s.server
    requires forall j :: 0 <= j < |lines| ==> ParseLine(lines[j]).None? || ParseLine(lines[j]).value.0 != k
    ensures k !in Loaded(s, lines).env && k !in Loaded(s, lines).server
  {
    var es := Parsed(lines);
    ApplyAllDomain(s, es, k);
  }

  /** Comment lines and lines without `=` change nothing. */
  lemma IgnoredLines(s: EnvState, line: string)
    requires (|line| > 0 && line[0] == '#') || '=' !in line
    ensures Loaded(s, [line]) == s
  {
    var es: seq<Entry> := [None];
    assert Parsed([line]) == es;
    assert es[..0] == [];
    assert ApplyAll(s, es) == Apply(ApplyAll(s, []), None);
  }

  lemma ParsedSnoc(lines: seq<string>, i: int)
    requires 0 <= i < |lines|
    ensures Parsed(lines[..i + 1]) == Parsed(lines[..i]) + [ParseLine(lines[i])]
  {
  }

  /** Loading one more line applies that line to what was loaded before. */
  lemma LoadedSnoc(s: EnvState, lines: seq<string>, i: int)
    requires 0 <= i < |lines|
    ensures Loaded(s, lines[..i + 1]) == Apply(Loaded(s, lines[..i]), ParseLine(lines[i]))
  {
    ParsedSnoc(lines, i);
    var es := Parsed(lines[..i + 1]);
    assert es[..|es| - 1] == Parsed(lines[..i]);
  }

  // ---------------------------------------------------------------------
  // Lookups
  // ---------------------------------------------------------------------

  /** The values `get` returns and takes as default. */
  datatype Value = NullValue | Text(s: string) | Flag(b: bool) | Number(n: int)

  const MissingPrefix := "Variables de entorno faltantes: "

  const TrueWords: seq<string> := ["true", "1", "yes", "on"]

  // ---------------------------------------------------------------------
  // PHP 8 numeric strings and the loose comparison of in_array
  // ---------------------------------------------------------------------

  /** The exact value `(-1)^negative * mantissa * 10^scale` of a numeric string. */
  datatype Decimal = Decimal(negative: bool, mantissa: nat, scale: int)

  function Scale(e: int): (r: real)
    ensures r > 0.0
  {
    if e >= 0 then Pow10(e) as real else 1.0 / (Pow10(-e) as real)
  }

  function DecimalValue(d: Decimal): real {
    (if d.negative then -1.0 else 1.0) * (d.mantissa as real) * Scale(d.scale)
  }

  /** `s` without the white space PHP allows before and after a numeric string. */
  function StripNumericSpace(s: string): (r: string)
    ensures |r| <= |s|
    ensures r == [] || (!IsNumericSpace(r[0]) && !IsNumericSpace(r[|r| - 1]))
    decreases |s|
  {
    if |s| > 0 && IsNumericSpace(s[0]) then StripNumericSpace(s[1..])
    else if |s| > 0 && IsNumericSpace(s[|s| - 1]) then StripNumericSpace(s[..|s| - 1])
    else s
  }

  /** The index of the first `e` or `E` of `s`, or `|s|` when there is none. */
  function ExponentIndex(s: string): (i: nat)
    ensures i <= |s|
    ensures forall j :: 0 <= j < i ==> s[j] != 'e' && s[j] != 'E'
    ensures i < |s| ==> s[i] == 'e' || s[i] == 'E'
  {
    if s == [] || s[0] == 'e' || s[0] == 'E' then 0 else 1 + ExponentIndex(s[1..])
  }

  /**
   * A mantissa, `LNUM` or `DNUM` of the PHP lexer: digits with at most one
   * `.` and at least one digit.  Gives the value of all its digits and the
   * number of digits after the point.
   */
  function ParseMantissa(m: string): (r: Option<(nat, nat)>)
    ensures r.Some? ==> r.value.1 < |m|
  {
    var p := IndexOf(m, '.');
    var digits := if p < |m| then m[..p] + m[p + 1..] else m;
    if |digits| > 0 && AllDigits(digits) then Some((DigitsValue(digits), if p < |m| then |m| - p - 1 else 0))
    else None
  }

  /** A non-empty run of digits and its value. */
  function DigitRun(t: string): (r: Option<nat>)
    ensures r.Some? <==> |t| > 0 && AllDigits(t)
  {
    if |t| > 0 && AllDigits(t) then Some(DigitsValue(t)) else None
  }

  /** An exponent after `e`: an optional sign and at least one digit. */
  function ParseExponent(x: string): (r: Option<int>)
    ensures x == [] ==> r.None?
  {
    if |x| > 0 && x[0] == '-' then
      match DigitRun(x[1..])
      case None => None
      case Some(n) => Some(-(n as int))
    else if |x| > 0 && x[0] == '+' then
      match DigitRun(x[1..])
      case None => None
      case Some(n) => Some(n)
    else
      match DigitRun(x)
      case None => None
      case Some(n) => Some(n)
  }

  /** A mantissa scaled by an exponent: both must be there. */
  function Scaled(m: Option<(nat, nat)>, x: Option<int>): (r: Option<(nat, int)>)
    ensures r.Some? <==> m.Some? && x.Some?
  {
    if m.Some? && x.Some? then Some((m.value.0, x.value - m.value.1)) else None
  }

  /** A mantissa with an optional exponent: the digits' value and the power of ten that scales them. */
  function UnsignedValue(body: string): (r: Option<(nat, int)>)
    ensures body == [] ==> r.None?
  {
    var e := ExponentIndex(body);
    Scaled(ParseMantissa(body[..e]), if e == |body| then Some(0) else ParseExponent(body[e + 1..]))
  }

  /** An optional sign before an unsigned numeric text. */
  function SignedValue(t: string): (r: Option<Decimal>) {
    var neg := |t| > 0 && t[0] == '-';
    var body := if |t| > 0 && (t[0] == '-' || t[0] == '+') then t[1..] else t;
    match UnsignedValue(body)
    case None => None
    case Some((m, sc)) => Some(Decimal(neg, m, sc))
  }

  /**
   * PHP 8's numeric strings: optional white space, an optional sign, a
   * mantissa with an optional exponent, optional white space; `None` for
   * any other text.
   */
  function NumericValue(s: string): (r: Option<Decimal>) {
    SignedValue(StripNumericSpace(s))
  }

  /** PHP 8's `==` on two strings: by value when both are numeric, otherwise as text. */
  predicate LooseEquals(a: string, b: string) {
    if NumericValue(a).Some? && NumericValue(b).Some? then DecimalValue(NumericValue(a).value) == DecimalValue(NumericValue(b).value)
    else a == b
  }

  /** `in_array($x, $words)` without the strict flag. */
  function InArrayLoose(x: string, words: seq<string>): (b: bool)
    ensures b <==> exists i :: 0 <= i < |words| && LooseEquals(x, words[i])
  {
    if words == [] then false
    else LooseEquals(x, words[0]) || InArrayLoose(x, words[1..])
  }

  /** `getBool` on a text: trimmed and lower-cased, it is loosely one of `true`, `1`, `yes`, `on`. */
  predicate BoolOf(text: string) {
    InArrayLoose(AsciiLower(Trim(text)), TrueWords)
  }

  /** Text without white space at its ends is its own stripped form. */
  lemma StripNothing(t: string)
    requires t == [] || (!IsNumericSpace(t[0]) && !IsNumericSpace(t[|t| - 1]))
    ensures StripNumericSpace(t) == t
  {
  }

  /** A run of digits is an unsigned integer of its own value. */
  lemma UnsignedOfDigits(t: string)
    requires |t| > 0 && AllDigits(t)
    ensures UnsignedValue(t) == Some((DigitsValue(t), 0))
  {
    assert ExponentIndex(t) == |t|;
    assert t[..|t|] == t;
    MantissaOfDigits(t);
    assert UnsignedValue(t) == Scaled(ParseMantissa(t), Some(0));
  }

  /** Digits around a point: the value of all the digits, scaled down by the digits after the point. */
  lemma UnsignedOfPoint(i: string, f: string)
    requires AllDigits(i) && AllDigits(f) && |i| + |f| > 0
    ensures UnsignedValue(i + "." + f) == Some((DigitsValue(i + f), -|f|))
  {
    var t := i + "." + f;
    PointNoExponent(i, f);
    NoExponent(t);
    MantissaOfPoint(i, f);
  }

  lemma PointNoExponent(i: string, f: string)
    requires AllDigits(i) && AllDigits(f)
    ensures forall j :: 0 <= j < |i + "." + f| ==> (i + "." + f)[j] != 'e' && (i + "." + f)[j] != 'E'
  {
    var t := i + "." + f;
    assert forall j :: 0 <= j < |t| ==> t[j] == '.' || IsDigit(t[j]);
  }

  /** A text without `e` has no exponent part. */
  lemma NoExponent(t: string)
    requires forall j :: 0 <= j < |t| ==> t[j] != 'e' && t[j] != 'E'
    ensures UnsignedValue(t) == Scaled(ParseMantissa(t), Some(0))
  {
    assert ExponentIndex(t) == |t|;
    assert t[..|t|] == t;
  }

  lemma MantissaOfPoint(i: string, f: string)
    requires AllDigits(i) && AllDigits(f) && |i| + |f| > 0
    ensures ParseMantissa(i + "." + f) == Some((DigitsValue(i + f), |f|))
  {
    var t := i + "." + f;
    IndexAfterPrefix(i, '.', f);
    assert t[..|i|] == i && t[|i| + 1..] == f;
  }

  /** A text that starts with a letter other than `e` is not numeric. */
  lemma LetterStart(t: string)
    requires |t| > 0 && ('a' <= t[0] <= 'z' || 'A' <= t[0] <= 'Z') && t[0] != 'e' && t[0] != 'E'
    requires !IsNumericSpace(t[|t| - 1])
    ensures NumericValue(t).None?
  {
    StripNothing(t);
    var e := ExponentIndex(t);
    assert e > 0;
    var m := t[..e];
    assert m[0] == t[0];
    var p := IndexOf(m, '.');
    assert p > 0;
    var digits := if p < |m| then m[..p] + m[p + 1..] else m;
    assert digits[0] == t[0] && !IsDigit(digits[0]);
    assert ParseMantissa(m).None?;
  }

  /** Digits, `e`, an optional `-` and digits: the digits' value scaled by the signed exponent. */
  lemma UnsignedOfExponent(i: string, minus: bool, x: string)
    requires |i| > 0 && AllDigits(i) && |x| > 0 && AllDigits(x)
    ensures UnsignedValue(i + "e" + ((if minus then "-" else "") + x)) ==
            Some((DigitsValue(i), if minus then -(DigitsValue(x) as int) else DigitsValue(x)))
  {
    AtExponent(i, (if minus then "-" else "") + x);
    MantissaOfDigits(i);
    ExponentOfDigits(minus, x);
  }

  /** A mantissa without `e` before `e` and an exponent text are read apart. */
  lemma AtExponent(m: string, rest: string)
    requires forall j :: 0 <= j < |m| ==> m[j] != 'e' && m[j] != 'E'
    ensures UnsignedValue(m + "e" + rest) == Scaled(ParseMantissa(m), ParseExponent(rest))
  {
    var t := m + "e" + rest;
    assert t[|m|] == 'e';
    assert forall j :: 0 <= j < |m| ==> t[j] == m[j];
    assert ExponentIndex(t) == |m|;
    assert t[..|m|] == m;
    assert t[|m| + 1..] == rest;
  }

  lemma MantissaOfDigits(i: string)
    requires |i| > 0 && AllDigits(i)
    ensures ParseMantissa(i) == Some((DigitsValue(i), 0))
  {
    assert IndexOf(i, '.') == |i|;
  }

  lemma ExponentOfDigits(minus: bool, x: string)
    requires |x| > 0 && AllDigits(x)
    ensures ParseExponent((if minus then "-" else "") + x) == Some(if minus then -(DigitsValue(x) as int) else DigitsValue(x))
  {
    if minus {
      NegativeExponent(x);
    } else {
      assert "" + x == x;
      PlainExponent(x);
    }
  }

  lemma NegativeExponent(x: string)
    requires |x| > 0 && AllDigits(x)
    ensures ParseExponent("-" + x) == Some(-(DigitsValue(x) as int))
  {
    var t := "-" + x;
    assert t[0] == '-' && t[1..] == x;
    assert DigitRun(x) == Some(DigitsValue(x));
  }

  lemma PlainExponent(x: string)
    requires |x| > 0 && AllDigits(x)
    ensures ParseExponent(x) == Some(DigitsValue(x) as int)
  {
    assert IsDigit(x[0]);
    assert DigitRun(x) == Some(DigitsValue(x));
  }

  /** A leading `-` or `+` sets the sign of the unsigned value that follows. */
  lemma SignedOfSign(c: char, t: string)
    requires c == '-' || c == '+'
    requires UnsignedValue(t).Some?
    ensures SignedValue([c] + t) == Some(Decimal(c == '-', UnsignedValue(t).value.0, UnsignedValue(t).value.1))
  {
    assert ([c] + t)[1..] == t;
  }

  /** Without a sign the value is positive. */
  lemma SignedOfUnsigned(t: string)
    requires t != [] && t[0] != '-' && t[0] != '+'
    requires UnsignedValue(t).Some?
    ensures SignedValue(t) == Some(Decimal(false, UnsignedValue(t).value.0, UnsignedValue(t).value.1))
  {
  }

  /** One space on each side does not change a numeric text. */
  lemma StripSpaced(t: string)
    requires t != [] && !IsNumericSpace(t[0]) && !IsNumericSpace(t[|t| - 1])
    ensures StripNumericSpace(" " + t + " ") == t
  {
    var s := " " + t + " ";
    assert s[1..] == t + " ";
    assert (t + " ")[0] == t[0];
    assert (t + " ")[..|t|] == t;
    StripNothing(t);
  }

  lemma {:induction false} Pow10Grows(e: nat)
    requires e > 0
    ensures Pow10(e) >= 10
  {
    if e > 1 {
      Pow10Grows(e - 1);
    }
  }

  /** A decimal is one exactly when it is positive and its digits are one padded by as many zeros as its scale says. */
  lemma DecimalIsOne(d: Decimal)
    ensures DecimalValue(d) == 1.0 <==>
            !d.negative && if d.scale >= 0 then d.mantissa == 1 && d.scale == 0 else d.mantissa == Pow10(-d.scale)
  {
    var m := d.mantissa as real;
    if d.scale >= 0 {
      var p := Pow10(d.scale);
      assert Scale(d.scale) == p as real;
      if d.scale > 0 {
        Pow10Grows(d.scale);
        assert m * (p as real) == (d.mantissa * p) as real;
        assert d.mantissa * p == 0 || d.mantissa * p >= 10;
      }
    } else {
      var p := Pow10(-d.scale) as real;
      assert Scale(d.scale) == 1.0 / p;
      assert m * (1.0 / p) == m / p;
      assert m / p == 1.0 <==> m == p;
      assert -1.0 * m * (1.0 / p) <= 0.0;
    }
  }

  /**
   * `getBool` of a text is true exactly for the words `true`, `yes`, `on`
   * and for the numeric texts whose value is one, after trimming and
   * lower-casing.
   */
  lemma BoolOfIff(text: string)
    ensures var w := AsciiLower(Trim(text));
            BoolOf(text) <==> w == "true" || w == "yes" || w == "on" ||
                              (NumericValue(w).Some? && DecimalValue(NumericValue(w).value) == 1.0)
  {
    LooseTrueWords(AsciiLower(Trim(text)));
  }

  lemma LooseTrueWords(w: string)
    ensures InArrayLoose(w, TrueWords) <==> w == "true" || w == "yes" || w == "on" ||
                                            (NumericValue(w).Some? && DecimalValue(NumericValue(w).value) == 1.0)
  {
    InArrayOfFour(w, "true", "1", "yes", "on");
    WordsAreText();
    OneIsNumeric();
    LooseWithText(w, "true");
    LooseWithText(w, "yes");
    LooseWithText(w, "on");
    LooseWithNumber(w, "1", Decimal(false, 1, 0));
  }

  lemma InArrayOfFour(x: string, a: string, b: string, c: string, d: string)
    ensures InArrayLoose(x, [a, b, c, d]) <==> LooseEquals(x, a) || LooseEquals(x, b) || LooseEquals(x, c) || LooseEquals(x, d)
  {
    var ws := [a, b, c, d];
    assert ws[0] == a && ws[1] == b && ws[2] == c && ws[3] == d;
  }

  /** Against a text that is not numeric, the loose comparison is equality. */
  lemma LooseWithText(a: string, b: string)
    requires NumericValue(b).None?
    ensures LooseEquals(a, b) <==> a == b
  {
  }

  /** Against a numeric text, the loose comparison is equality of values. */
  lemma LooseWithNumber(a: string, b: string, d: Decimal)
    requires NumericValue(b) == Some(d)
    ensures LooseEquals(a, b) <==> NumericValue(a).Some? && DecimalValue(NumericValue(a).value) == DecimalValue(d)
  {
  }

  lemma OneIsNumeric()
    ensures NumericValue("1") == Some(Decimal(false, 1, 0))
    ensures DecimalValue(Decimal(false, 1, 0)) == 1.0
  {
    StripNothing("1");
    UnsignedOfDigits("1");
    SignedOfUnsigned("1");
  }

  lemma WordsAreText()
    ensures NumericValue("true").None? && NumericValue("yes").None? && NumericValue("on").None?
  {
    LetterStart("true");
    LetterStart("yes");
    LetterStart("on");
  }

  /** A run of digits is an integer numeric string of its own value. */
  lemma NumericOfDigits(t: string)
    requires |t| > 0 && AllDigits(t)
    ensures NumericValue(t) == Some(Decimal(false, DigitsValue(t), 0))
  {
    assert IsDigit(t[0]) && IsDigit(t[|t| - 1]);
    StripNothing(t);
    UnsignedOfDigits(t);
    SignedOfUnsigned(t);
  }

  /** A decimal fraction `i.f` is a numeric string of all its digits over ten to the length of `f`. */
  lemma NumericOfPoint(i: string, f: string)
    requires AllDigits(i) && AllDigits(f) && |i| > 0 && |f| > 0
    ensures NumericValue(i + "." + f) == Some(Decimal(false, DigitsValue(i + f), -|f|))
  {
    var t := i + "." + f;
    assert t[0] == i[0] && t[|t| - 1] == f[|f| - 1];
    StripNothing(t);
    UnsignedOfPoint(i, f);
    SignedOfUnsigned(t);
  }

  /** `i e x` and `i e-x` are numeric strings of the digits of `i` scaled by the exponent. */
  lemma NumericOfExponent(i: string, minus: bool, x: string)
    requires |i| > 0 && AllDigits(i) && |x| > 0 && AllDigits(x)
    ensures NumericValue(i + "e" + ((if minus then "-" else "") + x)) ==
            Some(Decimal(false, DigitsValue(i), if minus then -(DigitsValue(x) as int) else DigitsValue(x)))
  {
    var t := i + "e" + ((if minus then "-" else "") + x);
    assert t[0] == i[0] && t[|t| - 1] == x[|x| - 1];
    StripNothing(t);
    UnsignedOfExponent(i, minus, x);
    SignedOfUnsigned(t);
  }

  lemma {:induction false} ZerosValue(k: nat)
    ensures AllDigits(Zeros(k)) && DigitsValue(Zeros(k)) == 0
  {
    if k > 0 {
      ZerosValue(k - 1);
      var z := Zeros(k);
      assert z[..|z| - 1] == Zeros(k - 1);
    }
  }

  /** A one followed by `k` zeros is ten to the `k`. */
  lemma {:induction false} PowerDigits(k: nat)
    ensures AllDigits("1" + Zeros(k)) && DigitsValue("1" + Zeros(k)) == Pow10(k)
  {
    var t := "1" + Zeros(k);
    if k == 0 {
      assert t == "1";
    } else {
      PowerDigits(k - 1);
      assert t[..|t| - 1] == "1" + Zeros(k - 1);
    }
  }

  lemma ZerosThenOne(k: nat)
    ensures AllDigits(Zeros(k) + "1") && DigitsValue(Zeros(k) + "1") == 1
  {
    var t := Zeros(k) + "1";
    ZerosValue(k);
    assert t[..|t| - 1] == Zeros(k);
    assert t[|t| - 1] == '1';
  }

  /** Leading zeros: `0…01` is the integer one. */
  lemma LeadingZerosAreOne(k: nat)
    ensures NumericValue(Zeros(k) + "1") == Some(Decimal(false, 1, 0))
    ensures DecimalValue(Decimal(false, 1, 0)) == 1.0
  {
    ZerosThenOne(k);
    NumericOfDigits(Zeros(k) + "1");
    DecimalIsOne(Decimal(false, 1, 0));
  }

  lemma OnePointText(z: string)
    ensures "1" + "." + z == "1." + z
  {
    assert "1" + "." == "1.";
  }

  lemma NegativeExponentText(i: string, x: string)
    ensures i + "e" + ("-" + x) == i + "e-" + x
  {
    assert "e" + "-" == "e-";
  }

  /** Ten to the `k`, scaled down by `k` digits, is one. */
  lemma PowerOverPower(k: nat)
    ensures DecimalValue(Decimal(false, Pow10(k), -(k as int))) == 1.0
  {
    DecimalIsOne(Decimal(false, Pow10(k), -(k as int)));
  }

  /** A one, a point and digits worth ten to their number is a numeric text that is just that power scaled down. */
  lemma OnePointPower(z: string)
    requires |z| > 0 && AllDigits(z) && AllDigits("1" + z) && DigitsValue("1" + z) == Pow10(|z|)
    ensures NumericValue("1." + z) == Some(Decimal(false, Pow10(|z|), -|z|))
  {
    NumericOfPoint("1", z);
    OnePointText(z);
  }

  /** Zeros after the point: `1.0…0` is one. */
  lemma TrailingZerosAreOne(k: nat)
    requires k > 0
    ensures NumericValue("1." + Zeros(k)) == Some(Decimal(false, Pow10(k), -(k as int)))
    ensures DecimalValue(Decimal(false, Pow10(k), -(k as int))) == 1.0
  {
    var z := Zeros(k);
    ZerosValue(k);
    PowerDigits(k);
    OnePointPower(z);
    assert |z| == k;
    assert NumericValue("1." + z) == Some(Decimal(false, Pow10(|z|), -|z|));
    assert Decimal(false, Pow10(|z|), -|z|) == Decimal(false, Pow10(k), -(k as int));
    assert NumericValue("1." + Zeros(k)) == Some(Decimal(false, Pow10(k), -(k as int)));
    PowerOverPower(k);
  }

  /** `10…0e-k`: a one, `k` zeros and the exponent `-k`. */
  function ScaledDownText(k: nat): string {
    "1" + Zeros(k) + "e-" + DigitsOf(k)
  }

  /** An exponent undoing zeros: `10…0e-k` with `k` zeros is one. */
  lemma ScaledDownIsOne(k: nat)
    ensures NumericValue(ScaledDownText(k)) == Some(Decimal(false, Pow10(k), -(k as int)))
    ensures DecimalValue(Decimal(false, Pow10(k), -(k as int))) == 1.0
  {
    var i, x := "1" + Zeros(k), DigitsOf(k);
    PowerDigits(k);
    ValueOfDigitsOf(k);
    NumericOfExponent(i, true, x);
    NegativeExponentText(i, x);
    assert ScaledDownText(k) == i + "e-" + x;
    assert NumericValue(i + "e-" + x) == Some(Decimal(false, DigitsValue(i), -(DigitsValue(x) as int)));
    assert DigitsValue(i) == Pow10(k) && DigitsValue(x) == k;
    assert Decimal(false, DigitsValue(i), -(DigitsValue(x) as int)) == Decimal(false, Pow10(k), -(k as int));
    assert NumericValue(ScaledDownText(k)) == Some(Decimal(false, Pow10(k), -(k as int)));
    PowerOverPower(k);
  }

  /** A `+` in front changes nothing, so `+1` is one as well. */
  lemma PlusKeepsValue(t: string)
    requires t != [] && IsDigit(t[0]) && !IsNumericSpace(t[|t| - 1])
    requires UnsignedValue(t).Some?
    ensures NumericValue("+" + t) == NumericValue(t)
  {
    StripNothing(t);
    assert ("+" + t)[|"+" + t| - 1] == t[|t| - 1];
    StripNothing("+" + t);
    SignedOfSign('+', t);
    SignedOfUnsigned(t);
  }

  /** A numeric text written with `-` is never one. */
  lemma MinusNeverOne(t: string)
    requires t != [] && !IsNumericSpace(t[|t| - 1])
    requires UnsignedValue(t).Some?
    ensures NumericValue("-" + t).Some? && DecimalValue(NumericValue("-" + t).value) != 1.0
  {
    assert ("-" + t)[|"-" + t| - 1] == t[|t| - 1];
    StripNothing("-" + t);
    SignedOfSign('-', t);
    DecimalIsOne(NumericValue("-" + t).value);
  }

  lemma LowerOfNoCapitals(t: string)
    requires forall i :: 0 <= i < |t| ==> !('A' <= t[i] <= 'Z')
    ensures AsciiLower(t) == t
  {
  }

  /** A text that starts with a digit or a point is none of the words. */
  lemma NotAWord(t: string)
    requires |t| > 0 && (IsDigit(t[0]) || t[0] == '.')
    ensures t != "true" && t != "yes" && t != "on"
  {
    assert "true"[0] == 't' && "yes"[0] == 'y' && "on"[0] == 'o';
  }

  /** A text of two or more characters that starts with a digit or a point is not in the word list. */
  lemma NotInTrueWords(t: string)
    requires |t| > 1 && (IsDigit(t[0]) || t[0] == '.')
    ensures t !in TrueWords
  {
    NotAWord(t);
    assert |t| != |"1"|;
  }

  /** A text of digits and points is true for `getBool` exactly when its value is one. */
  lemma BoolOfNumberText(t: string)
    requires |t| > 0 && forall i :: 0 <= i < |t| ==> IsDigit(t[i]) || t[i] == '.'
    ensures BoolOf(t) <==> NumericValue(t).Some? && DecimalValue(NumericValue(t).value) == 1.0
  {
    assert IsDigit(t[0]) || t[0] == '.';
    assert !IsTrimChar(t[0]) && !IsTrimChar(t[|t| - 1]);
    TrimOfTrimmed(t);
    LowerOfNoCapitals(t);
    assert AsciiLower(Trim(t)) == t;
    NotAWord(t);
    BoolOfIff(t);
  }

  /** `getBool` takes `0…01` for true, although it is not in its word list. */
  lemma LeadingZerosTrue(k: nat)
    requires k > 0
    ensures BoolOf(Zeros(k) + "1") && Zeros(k) + "1" !in TrueWords
  {
    var a := Zeros(k) + "1";
    assert forall i :: 0 <= i < |a| ==> a[i] == '0' || a[i] == '1';
    BoolOfNumberText(a);
    LeadingZerosAreOne(k);
    NotInTrueWords(a);
  }

  /** `getBool` takes `1.0…0` for true, although it is not in its word list. */
  lemma TrailingZerosTrue(k: nat)
    requires k > 0
    ensures BoolOf("1." + Zeros(k)) && "1." + Zeros(k) !in TrueWords
  {
    var b := "1." + Zeros(k);
    assert forall i :: 0 <= i < |b| ==> b[i] == '0' || b[i] == '1' || b[i] == '.';
    BoolOfNumberText(b);
    TrailingZerosAreOne(k);
    NotInTrueWords(b);
  }

  /**
   * What `getBool` makes of a value: a boolean is itself, anything else is
   * trimmed, lower-cased and looked up loosely in `TrueWords` (an integer
   * by its decimal text, which equals one of them only for 1; null as `''`).
   */
  function BoolCast(v: Value): bool {
    match v
    case Flag(b) => b
    case Text(t) => BoolOf(t)
    case Number(n) => n == 1
    case NullValue => false
  }

  /** PHP's `(int)` cast of a value. */
  function IntCast(v: Value): int {
    match v
    case Number(n) => n
    case Text(t) => PhpIntval(t)
    case Flag(b) => if b then 1 else 0
    case NullValue => 0
  }

  class EnvLoader {
    var env: map<string, string>
    var server: map<string, string>
    var process: map<string, string>

    constructor (env0: map<string, string>, server0: map<string, string>, process0: map<string, string>)
      ensures env == env0 && server == server0 && process == process0
    {
      env, server, process := env0, server0, process0;
    }

    function State(): EnvState
      reads this
    {
      EnvState(env, server, process)
    }

    /**
     * `load()` with the default paths: `.env`, else `.env.local`, else
     * nothing and `false`.
     */
    method Load(dotEnv: Option<seq<string>>, dotEnvLocal: Option<seq<string>>) returns (ok: bool)
      modifies this
      ensures ok <==> dotEnv.Some? || dotEnvLocal.Some?
      ensures dotEnv.Some? ==> State() == Loaded(old(State()), dotEnv.value)
      ensures dotEnv.None? && dotEnvLocal.Some? ==> State() == Loaded(old(State()), dotEnvLocal.value)
      ensures !ok ==> State() == old(State())
    {
      var lines: seq<string>;
      if dotEnv.Some? {
        lines := dotEnv.value;
      } else if dotEnvLocal.Some? {
        lines := dotEnvLocal.value;
      } else {
        return false;
      }
      ghost var s0 := State();
      for i := 0 to |lines|
        invariant State() == Loaded(s0, lines[..i])
      {
        LoadedSnoc(s0, lines, i);
        ApplyEntry(ParseLine(lines[i]));
      }
      assert lines[..|lines|] == lines;
      return true;
    }

    /** One pass of the `load` loop: a new key goes into `$_ENV`, `$_SERVER` and the environment. */
    method ApplyEntry(parsed: Entry)
      modifies this
      ensures State() == Apply(old(State()), parsed)
    {
      if parsed.Some? {
        var (key, value) := parsed.value;
        if key !in env && key !in server {
          env := env[key := value];
          server := server[key := value];
          process := process[key := value];
        }
      }
    }

    /** `get($key, $default)`: `$_ENV`, then `$_SERVER`, then `getenv`, then the default. */
    function Get(key: string, default: Value): (v: Value)
      reads this
      ensures key in env ==> v == Text(env[key])
      ensures key !in env && key in server ==> v == Text(server[key])
      ensures key !in env && key !in server && key in process ==> v == Text(process[key])
      ensures key !in env && key !in server && key !in process ==> v == default
    {
      if key in env then Text(env[key])
      else if key in server then Text(server[key])
      else if key in process then Text(process[key])
      else default
    }

    /** `has($key)`: `get` without default gives something other than null. */
    predicate Has(key: string)
      reads this
    {
      Get(key, NullValue) != NullValue
    }

    lemma HasIff(key: string)
      ensures Has(key) <==> key in env || key in server || key in process
    {
    }

    /** `getBool($key, $default)`. */
    function GetBool(key: string, default: bool): (b: bool)
      reads this
      ensures key !in env && key !in server && key !in process ==> b == default
      ensures Has(key) ==> (b <==> BoolOf(Get(key, NullValue).s))
    {
      BoolCast(Get(key, Flag(default)))
    }

    /** `getInt($key, $default)`: the `(int)` cast of what `get` finds. */
    function GetInt(key: string, default: int): (n: int)
      reads this
      ensures !Has(key) ==> n == default
      ensures Has(key) ==> n == PhpIntval(Get(key, NullValue).s)
    {
      IntCast(Get(key, Number(default)))
    }

    /** The required keys that `has` rejects, in the given order. */
    function MissingKeys(required: seq<string>): (missing: seq<string>)
      reads this
      ensures forall k :: k in missing <==> k in required && !Has(k)
      ensures |missing| <= |required|
      decreases |required|
    {
      if required == [] then []
      else
        var init := MissingKeys(required[..|required| - 1]);
        var k := required[|required| - 1];
        assert forall x :: x in required <==> x in required[..|required| - 1] || x == k;
        if Has(k) then init else init + [k]
    }

    /** `validateRequired($required)`: the exception it throws, as its message, or nothing. */
    method ValidateRequired(required: seq<string>) returns (error: Option<string>)
      ensures error.None? <==> forall k :: k in required ==> Has(k)
      ensures error.Some? ==> error.value == MissingPrefix + Join(MissingKeys(required), ", ")
    {
      var missing: seq<string> := [];
      for i := 0 to |required|
        invariant missing == MissingKeys(required[..i])
      {
        assert required[..i + 1][..i] == required[..i];
        if !Has(required[i]) {
          missing := missing + [required[i]];
        }
      }
      assert required[..|required|] == required;
      if missing != [] {
        assert missing[0] in missing;
      }
      if missing != [] {
        error := Some(MissingPrefix + Join(missing, ", "));
      } else {
        error := None;
      }
    }
  }
}
