/**
 * String primitives of PHP that the application relies on, stated on
 * `seq<char>`: `trim`, `explode`/`implode`, `sprintf('%0Nd')`, the `(int)`
 * cast of a string, `strtolower` and byte-wise string comparison.
 */
module Text {

  // ---------------------------------------------------------------------
  // trim()
  // ---------------------------------------------------------------------

  /** The characters PHP's `trim()` strips by default: space, \t, \n, \r, \0 and \x0B. */
  predicate IsTrimChar(c: char) {
    c == ' ' || c == '\t' || c == '\n' || c == '\r' || c == '\0' || c == '\U{000B}'
  }

  predicate AllTrimChars(s: string) {
    forall i :: 0 <= i < |s| ==> IsTrimChar(s[i])
  }

  function TrimLeft(s: string): (r: string)
    ensures |r| <= |s| && r == s[|s| - |r|..]
    ensures AllTrimChars(s[..|s| - |r|])
    ensures r == [] || !IsTrimChar(r[0])
  {
    if |s| > 0 && IsTrimChar(s[0]) then TrimLeft(s[1..]) else s
  }

  function TrimRight(s: string): (r: string)
    ensures |r| <= |s| && r == s[..|r|]
    ensures AllTrimChars(s[|r|..])
    ensures r == [] || !IsTrimChar(r[|r| - 1])
  {
    if |s| > 0 && IsTrimChar(s[|s| - 1]) then
      var t := s[..|s| - 1];
      var r := TrimRight(t);
      assert r == s[..|r|];
      assert s[|r|..] == t[|r|..] + [s[|s| - 1]];
      r
    else s
  }

  /** `r` is `s` with a run of trim characters removed from each end. */
  ghost predicate IsTrimmedFrom(s: string, r: string) {
    exists i :: 0 <= i <= |s| - |r| && r == s[i..i + |r|] && AllTrimChars(s[..i]) && AllTrimChars(s[i + |r|..])
  }

  /** PHP `trim($s)`. */
  function Trim(s: string): (r: string)
    ensures r == [] || (!IsTrimChar(r[0]) && !IsTrimChar(r[|r| - 1]))
    ensures IsTrimmedFrom(s, r)
  {
    TrimRightOfLeft(s);
    TrimRight(TrimLeft(s))
  }

  lemma TrimRightOfLeft(s: string)
    ensures IsTrimmedFrom(s, TrimRight(TrimLeft(s)))
  {
    var l := TrimLeft(s);
    var r := TrimRight(l);
    var i := |s| - |l|;
    assert l == s[i..];
    assert r == s[i..i + |r|];
    assert s[i + |r|..] == l[|r|..];
    assert AllTrimChars(s[..i]) && AllTrimChars(s[i + |r|..]);
  }

  /** A string with no trim character at either end is its own trim. */
  lemma TrimOfTrimmed(s: string)
    requires s == [] || (!IsTrimChar(s[0]) && !IsTrimChar(s[|s| - 1]))
    ensures Trim(s) == s
  {
    TrimLeftNothing(s);
    TrimRightNothing(s);
  }

  lemma TrimLeftNothing(s: string)
    requires s == [] || !IsTrimChar(s[0])
    ensures TrimLeft(s) == s
  {
  }

  lemma TrimRightNothing(s: string)
    requires s == [] || !IsTrimChar(s[|s| - 1])
    ensures TrimRight(s) == s
  {
  }

  /** Trimming a second time changes nothing. */
  lemma TrimIdempotent(s: string)
    ensures Trim(Trim(s)) == Trim(s)
  {
    TrimOfTrimmed(Trim(s));
  }

  // ---------------------------------------------------------------------
  // explode() / implode()
  // ---------------------------------------------------------------------

  /** Index of the first occurrence of `c` in `s`, or `|s|` when there is none. */
  function IndexOf(s: string, c: char): (i: nat)
    ensures i <= |s|
    ensures forall k :: 0 <= k < i ==> s[k] != c
    ensures i < |s| ==> s[i] == c
  {
    if |s| == 0 then 0 else if s[0] == c then 0 else 1 + IndexOf(s[1..], c)
  }

  /** PHP `implode($sep, $parts)`. */
  function Join(parts: seq<string>, sep: string): string {
    if |parts| == 0 then ""
    else if |parts| == 1 then parts[0]
    else parts[0] + sep + Join(parts[1..], sep)
  }

  /** PHP `explode($c, $s)` for a one-character separator: the pieces between separators, empty pieces kept. */
  function Split(s: string, c: char): (parts: seq<string>)
    ensures |parts| >= 1
    ensures forall k :: 0 <= k < |parts| ==> c !in parts[k]
    ensures Join(parts, [c]) == s
    decreases |s|
  {
    var i := IndexOf(s, c);
    if i == |s| then [s]
    else
      var rest := Split(s[i + 1..], c);
      assert s == s[..i] + [c] + s[i + 1..];
      [s[..i]] + rest
  }

  /** Splitting undoes joining, when no piece contains the separator. */
  lemma {:induction false} SplitJoin(parts: seq<string>, c: char)
    requires |parts| >= 1
    requires forall k :: 0 <= k < |parts| ==> c !in parts[k]
    ensures Split(Join(parts, [c]), c) == parts
    decreases |parts|
  {
    var s := Join(parts, [c]);
    if |parts| == 1 {
      assert IndexOf(s, c) == |s|;
    } else {
      var tail := Join(parts[1..], [c]);
      assert s == parts[0] + [c] + tail;
      IndexAfterPrefix(parts[0], c, tail);
      assert s[..|parts[0]|] == parts[0];
      assert s[|parts[0]| + 1..] == tail;
      SplitJoin(parts[1..], c);
    }
  }

  lemma IndexAfterPrefix(p: string, c: char, tail: string)
    requires c !in p
    ensures IndexOf(p + [c] + tail, c) == |p|
  {
    var s := p + [c] + tail;
    assert s[|p|] == c;
    assert forall k :: 0 <= k < |p| ==> s[k] == p[k];
  }

  // ---------------------------------------------------------------------
  // Decimal digits, sprintf('%0Nd') and the (int) cast
  // ---------------------------------------------------------------------

  predicate IsDigit(c: char) { '0' <= c <= '9' }

  predicate AllDigits(s: string) { forall i :: 0 <= i < |s| ==> IsDigit(s[i]) }

  function DigitValue(c: char): (d: nat)
    requires IsDigit(c)
    ensures d < 10
  {
    (c as int - '0' as int) as nat
  }

  function DigitChar(d: nat): (c: char)
    requires d < 10
    ensures IsDigit(c) && DigitValue(c) == d
  {
    ('0' as int + d) as char
  }

  function Pow10(w: nat): (p: nat)
    ensures p >= 1
  {
    if w == 0 then 1 else 10 * Pow10(w - 1)
  }

  lemma SmallPowers()
    ensures Pow10(2) == 100 && Pow10(4) == 10000
  {
  }

  /** Decimal representation of `n` with no leading zeros ("0" for zero). */
  function DigitsOf(n: nat): (s: string)
    ensures |s| >= 1 && AllDigits(s)
    ensures |s| > 1 ==> s[0] != '0'
  {
    if n < 10 then [DigitChar(n)] else DigitsOf(n / 10) + [DigitChar(n % 10)]
  }

  function Zeros(k: nat): (z: string)
    ensures |z| == k && forall i :: 0 <= i < k ==> z[i] == '0'
  {
    if k == 0 then "" else Zeros(k - 1) + "0"
  }

  /** Left-pads `s` with '0' up to `width` characters. */
  function PadZeros(s: string, width: nat): string {
    if |s| < width then Zeros(width - |s|) + s else s
  }

  /**
   * PHP `sprintf('%0<width>d', $n)`: the width counts the minus sign of a
   * negative number, and the zeros go between the sign and the digits.
   */
  function FormatInt(n: int, width: nat): (s: string)
    ensures |s| >= 1
    ensures n >= 0 ==> AllDigits(s) && |s| >= width
    ensures n < 0 ==> s[0] == '-'
  {
    if n >= 0 then PadZeros(DigitsOf(n), width)
    else "-" + PadZeros(DigitsOf(-n), if width > 0 then width - 1 else 0)
  }

  /** The `w` low decimal digits of `n`, most significant first. */
  function Fixed(n: nat, w: nat): (s: string)
    ensures |s| == w && AllDigits(s)
  {
    if w == 0 then "" else Fixed(n / 10, w - 1) + [DigitChar(n % 10)]
  }

  /** Value of a string of decimal digits. */
  function DigitsValue(t: string): (v: nat)
    requires AllDigits(t)
    ensures v < Pow10(|t|)
  {
    if t == [] then 0 else DigitsValue(t[..|t| - 1]) * 10 + DigitValue(t[|t| - 1])
  }

  lemma {:induction false} DigitsOfLength(n: nat, w: nat)
    requires w >= 1 && n < Pow10(w)
    ensures |DigitsOf(n)| <= w
    decreases w
  {
    if n >= 10 {
      DigitsOfLength(n / 10, w - 1);
    }
  }

  lemma {:induction false} FixedOfZero(w: nat)
    ensures Fixed(0, w) == Zeros(w)
  {
    if w > 0 { FixedOfZero(w - 1); }
  }

  /** Zero padding a number that fits in `w` digits gives exactly its `w` low digits. */
  lemma {:induction false} FormatIntFixed(n: nat, w: nat)
    requires w >= 1 && n < Pow10(w)
    ensures FormatInt(n, w) == Fixed(n, w)
    decreases w
  {
    DigitsOfLength(n, w);
    if n < 10 {
      FixedOfZero(w - 1);
      assert Fixed(n, w) == Fixed(0, w - 1) + [DigitChar(n)];
    } else {
      FormatIntFixed(n / 10, w - 1);
      DigitsOfLength(n / 10, w - 1);
      var d := DigitsOf(n / 10);
      assert DigitsOf(n) == d + [DigitChar(n % 10)];
      assert PadZeros(DigitsOf(n), w) == PadZeros(d, w - 1) + [DigitChar(n % 10)];
    }
  }

  /** Writing out the value of a digit string in its own width gives the string back. */
  lemma {:induction false} FixedOfValue(t: string)
    requires AllDigits(t)
    ensures Fixed(DigitsValue(t), |t|) == t
    decreases |t|
  {
    if t != [] {
      var init := t[..|t| - 1];
      var last := t[|t| - 1];
      FixedOfValue(init);
      var v := DigitsValue(t);
      var u := DigitsValue(init);
      assert v == u * 10 + DigitValue(last);
      DivModDigit(u, DigitValue(last));
      calc {
        Fixed(v, |t|);
        Fixed(v / 10, |t| - 1) + [DigitChar(v % 10)];
        Fixed(u, |init|) + [DigitChar(DigitValue(last))];
        init + [last];
        t;
      }
    }
  }

  lemma DivModDigit(u: nat, d: nat)
    requires d < 10
    ensures (u * 10 + d) / 10 == u && (u * 10 + d) % 10 == d
  {
  }

  /** Reading back the `w` low digits of `n` gives `n`, when `n` fits in `w` digits. */
  lemma {:induction false} ValueOfFixed(n: nat, w: nat)
    requires n < Pow10(w)
    ensures DigitsValue(Fixed(n, w)) == n
    decreases w
  {
    if w > 0 {
      var f := Fixed(n, w);
      assert f[..w - 1] == Fixed(n / 10, w - 1);
      ValueOfFixed(n / 10, w - 1);
    }
  }

  /** Reading back the decimal digits of `n` gives `n`. */
  lemma {:induction false} ValueOfDigitsOf(n: nat)
    ensures DigitsValue(DigitsOf(n)) == n
  {
    if n >= 10 {
      var t := DigitsOf(n);
      assert t[..|t| - 1] == DigitsOf(n / 10);
      ValueOfDigitsOf(n / 10);
    }
  }

  /** Whitespace PHP skips before a numeric string: space, \t, \n, \r, \v, \f. */
  predicate IsNumericSpace(c: char) {
    c == ' ' || c == '\t' || c == '\n' || c == '\r' || c == '\U{000B}' || c == '\U{000C}'
  }

  /** The longest prefix of `s` made of decimal digits. */
  function LeadingDigits(s: string): (d: string)
    ensures |d| <= |s| && d == s[..|d|] && AllDigits(d)
    ensures |d| < |s| ==> !IsDigit(s[|d|])
  {
    if |s| > 0 && IsDigit(s[0]) then [s[0]] + LeadingDigits(s[1..]) else ""
  }

  /**
   * PHP's `(int)` cast of a string: leading whitespace is skipped, then an
   * optional sign and the longest run of digits is read; no digits read gives 0.
   */
  function PhpIntval(s: string): int {
    if |s| > 0 && IsNumericSpace(s[0]) then PhpIntval(s[1..])
    else if |s| > 0 && s[0] == '-' then -(DigitsValue(LeadingDigits(s[1..])) as int)
    else if |s| > 0 && s[0] == '+' then DigitsValue(LeadingDigits(s[1..]))
    else DigitsValue(LeadingDigits(s))
  }

  lemma {:induction false} LeadingDigitsOfDigits(t: string, rest: string)
    requires AllDigits(t)
    requires rest == [] || !IsDigit(rest[0])
    ensures LeadingDigits(t + rest) == t
    decreases |t|
  {
    if t != [] {
      assert (t + rest)[1..] == t[1..] + rest;
      LeadingDigitsOfDigits(t[1..], rest);
    } else if rest != [] {
      assert (t + rest)[0] == rest[0];
    }
  }

  /** The cast reads a run of digits that stands at the front of the string. */
  lemma IntvalOfDigits(t: string, rest: string)
    requires |t| >= 1 && AllDigits(t)
    requires rest == [] || !IsDigit(rest[0])
    ensures PhpIntval(t + rest) == DigitsValue(t)
  {
    LeadingDigitsOfDigits(t, rest);
    assert (t + rest)[0] == t[0];
  }

  // ---------------------------------------------------------------------
  // strtolower() and byte-wise comparison
  // ---------------------------------------------------------------------

  function LowerChar(c: char): char {
    if 'A' <= c <= 'Z' then (c as int + 32) as char else c
  }

  /** PHP 8 `strtolower`: ASCII letters only. */
  function AsciiLower(s: string): (r: string)
    ensures |r| == |s|
  {
    seq(|s|, i requires 0 <= i < |s| => LowerChar(s[i]))
  }

  /** Bytes of the UTF-8 encoding of one character. */
  function Utf8Width(c: char): (w: nat)
    ensures 1 <= w <= 4
    ensures w == 1 <==> c as int < 0x80
  {
    if c as int < 0x80 then 1 else if c as int < 0x800 then 2 else if c as int < 0x10000 then 3 else 4
  }

  /** PHP `strlen` of UTF-8 text: its length in bytes. */
  function ByteLength(s: string): (n: nat)
    ensures |s| <= n <= 4 * |s|
    ensures n == |s| <==> forall i :: 0 <= i < |s| ==> s[i] as int < 0x80
  {
    if s == [] then 0 else Utf8Width(s[0]) + ByteLength(s[1..])
  }

  /** PHP `empty()` of a string: the empty string and "0". */
  predicate PhpEmpty(s: string) {
    s == "" || s == "0"
  }

  /** `a <= b` in the byte-wise lexicographic order used to compare ISO date strings and key names. */
  predicate LexLe(a: string, b: string) {
    a == [] || (b != [] && (a[0] < b[0] || (a[0] == b[0] && LexLe(a[1..], b[1..]))))
  }

  /**
   * Comparing two strings whose first parts have the same length: the first
   * parts decide unless they are equal, and then the rest decides.
   */
  lemma {:induction false} LexLeAppend(p: string, q: string, s: string, t: string)
    requires |p| == |q|
    ensures LexLe(p + s, q + t) <==> (LexLe(p, q) && p != q) || (p == q && LexLe(s, t))
    decreases |p|
  {
    if p != [] {
      assert (p + s)[0] == p[0] && (q + t)[0] == q[0];
      assert (p + s)[1..] == p[1..] + s && (q + t)[1..] == q[1..] + t;
      assert p == [p[0]] + p[1..] && q == [q[0]] + q[1..];
      LexLeAppend(p[1..], q[1..], s, t);
    } else {
      assert p + s == s && q + t == t;
    }
  }

  /** On fixed-width fields the byte-wise order is the numeric order. */
  lemma {:induction false} FixedLe(a: nat, b: nat, w: nat)
    requires a < Pow10(w) && b < Pow10(w)
    ensures LexLe(Fixed(a, w), Fixed(b, w)) <==> a <= b
    decreases w
  {
    if w > 0 {
      var fa, fb := Fixed(a / 10, w - 1), Fixed(b / 10, w - 1);
      var da, db := [DigitChar(a % 10)], [DigitChar(b % 10)];
      LexLeAppend(fa, fb, da, db);
      FixedLe(a / 10, b / 10, w - 1);
      ValueOfFixed(a / 10, w - 1);
      ValueOfFixed(b / 10, w - 1);
      assert fa == fb <==> a / 10 == b / 10;
      assert LexLe(da, db) <==> a % 10 <= b % 10 by {
        assert da[1..] == [] && db[1..] == [];
      }
      assert a == 10 * (a / 10) + a % 10 && b == 10 * (b / 10) + b % 10;
    }
  }
}

