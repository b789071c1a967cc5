/** The PHP and JavaScript built-ins the plugin leans on, written out: trimming,
    integer parsing (PHP `intval`, JavaScript `parseInt`), PHP `empty()` on strings,
    splitting and joining on a separator, decimal rendering and first-appearance
    de-duplication. Everything else is built on these definitions. */
module Runtime {

  datatype Option<+T> = None | Some(value: T) {
    function GetOr(default: T): T {
      match this
      case Some(v) => v
      case None => default
    }
  }

  datatype Result<+T, +E> = Success(value: T) | Failure(error: E)

  // ---------------------------------------------------------------- characters

  predicate IsDigit(c: char) { '0' <= c <= '9' }

  function DigitValue(c: char): (d: nat)
    requires IsDigit(c)
    ensures d < 10
  {
    c as int - '0' as int
  }

  function DigitChar(d: nat): (c: char)
    requires d < 10
    ensures IsDigit(c) && DigitValue(c) == d
  {
    ('0' as int + d) as char
  }

  predicate IsUpper(c: char) { 'A' <= c <= 'Z' }

  /** The characters PHP's `trim()` removes by default: space, tab, line feed,
      carriage return, NUL and vertical tab. */
  predicate IsPhpTrimChar(c: char) {
    c == ' ' || c == '\t' || c == '\n' || c == '\r' || c == '\0' || c == '\U{0B}'
  }

  /** The whitespace PHP skips before the digits of a numeric string
      (space, tab, line feed, carriage return, vertical tab, form feed). */
  predicate IsPhpSpace(c: char) {
    c == ' ' || c == '\t' || c == '\n' || c == '\r' || c == '\U{0B}' || c == '\U{0C}'
  }

  /** JavaScript white space and line terminators (what `String.prototype.trim`,
      jQuery's `$.trim` and `parseInt` skip). */
  predicate IsJsSpace(c: char) {
    || c == '\t' || c == '\n' || c == '\U{0B}' || c == '\U{0C}' || c == '\r' || c == ' '
    || c == '\U{A0}' || c == '\U{1680}' || ('\U{2000}' <= c <= '\U{200A}')
    || c == '\U{2028}' || c == '\U{2029}' || c == '\U{202F}' || c == '\U{205F}'
    || c == '\U{3000}' || c == '\U{FEFF}'
  }

  // ---------------------------------------------------------------- trimming

  /** The character sets the trims of PHP and JavaScript drop. */
  datatype Blank = PhpTrimChars | PhpSpaces | JsSpaces

  predicate Drops(blank: Blank, c: char) {
    match blank
    case PhpTrimChars => IsPhpTrimChar(c)
    case PhpSpaces => IsPhpSpace(c)
    case JsSpaces => IsJsSpace(c)
  }

  /** How many leading characters of `s` are in `blank`. */
  function LeadingCount(s: string, blank: Blank): (n: nat)
    ensures n <= |s|
  {
    if s != [] && Drops(blank, s[0]) then 1 + LeadingCount(s[1..], blank) else 0
  }

  /** How many trailing characters of `s` are in `blank`. */
  function TrailingCount(s: string, blank: Blank): (n: nat)
    ensures n <= |s|
  {
    if s != [] && Drops(blank, s[|s| - 1]) then 1 + TrailingCount(s[..|s| - 1], blank) else 0
  }

  /** Drops the leading characters that are in `blank`. */
  function TrimStart(s: string, blank: Blank): string {
    s[LeadingCount(s, blank)..]
  }

  /** Drops the trailing characters that are in `blank`. */
  function TrimEnd(s: string, blank: Blank): string {
    s[..|s| - TrailingCount(s, blank)]
  }

  /** PHP `trim($s)` with the default character mask. */
  function PhpTrim(s: string): string {
    TrimEnd(TrimStart(s, PhpTrimChars), PhpTrimChars)
  }

  /** JavaScript `s.trim()` (jQuery's `$.trim`). */
  function JsTrim(s: string): string {
    TrimEnd(TrimStart(s, JsSpaces), JsSpaces)
  }

  /** Trimming is the identity on a string that neither starts nor ends with a
      character the trim drops. */
  lemma TrimUnchanged(s: string, blank: Blank)
    requires s != [] ==> !Drops(blank, s[0]) && !Drops(blank, s[|s| - 1])
    ensures TrimEnd(TrimStart(s, blank), blank) == s
  {
  }

  // ---------------------------------------------------------------- PHP empty()

  /** PHP's `empty()` (and falsiness) for a string: only `''` and `'0'` are empty. */
  predicate PhpEmpty(s: string) { s == "" || s == "0" }

  // ---------------------------------------------------------------- integers

  predicate AllDigits(s: string) { forall i :: 0 <= i < |s| ==> IsDigit(s[i]) }

  /** The longest prefix of `s` made of decimal digits. */
  function LeadingDigits(s: string): string {
    if s != [] && IsDigit(s[0]) then [s[0]] + LeadingDigits(s[1..]) else []
  }

  /** The longest prefix of digits is a prefix, is all digits, and is
      followed by no further digit. */
  lemma {:induction false} LeadingDigitsFacts(s: string)
    ensures var d := LeadingDigits(s);
      AllDigits(d) && d <= s && (|d| < |s| ==> !IsDigit(s[|d|]))
  {
    if s != [] && IsDigit(s[0]) {
      LeadingDigitsFacts(s[1..]);
    }
  }

  /** The value of a string of decimal digits, read most significant first
      (a character that is not a digit counts as 0; none reaches here). */
  function DigitsValue(d: string): nat {
    if d == [] then 0
    else DigitsValue(d[..|d| - 1]) * 10 + (if IsDigit(d[|d| - 1]) then DigitValue(d[|d| - 1]) else 0)
  }

  /** `m` times ten to the power `k`, truncated toward zero (one decimal
      place at a time, which truncates the same as all at once). */
  function Scaled(m: nat, k: int): nat
    decreases if k >= 0 then k else -k
  {
    if k == 0 then m
    else if k > 0 then Scaled(m * 10, k - 1)
    else Scaled(m / 10, k + 1)
  }

  /** The exponent that follows a mantissa: `e` or `E`, an optional sign and
      digits. Without digits there is no exponent, which reads as 0. */
  function ExponentPart(s: string): int {
    if s != [] && (s[0] == 'e' || s[0] == 'E') then
      var rest := s[1..];
      var digits := LeadingDigits(if rest != [] && (rest[0] == '-' || rest[0] == '+') then rest[1..] else rest);
      if rest != [] && rest[0] == '-' then -(DigitsValue(digits) as int) else DigitsValue(digits)
    else 0
  }

  /** PHP `intval($s)` on a string (PHP 7.1 and later): optional leading white
      space and an optional sign, then the numeric prefix (digits, optionally
      a decimal point and more digits, optionally an exponent), whose value is
      truncated toward zero. A string without digits before or just after the
      point reads as 0. The value is exact, not rounded to a double. */
  function PhpIntval(s: string): int {
    var t := TrimStart(s, PhpSpaces);
    var m := NumericPrefixValue(if t != [] && (t[0] == '-' || t[0] == '+') then t[1..] else t);
    if t != [] && t[0] == '-' then -(m as int) else m
  }

  /** The truncated value of the numeric prefix of an unsigned string. */
  function NumericPrefixValue(body: string): nat {
    WholePart(body, [])
  }

  /** Reads the digits before the point; `digits` are those read so far. */
  function WholePart(s: string, digits: string): nat
    decreases |s|
  {
    if s != [] && IsDigit(s[0]) then WholePart(s[1..], digits + [s[0]])
    else if s != [] && s[0] == '.' then FractionPart(s[1..], digits, 0)
    else Scaled(DigitsValue(digits), ExponentPart(s))
  }

  /** Reads the digits after the point; `places` of `digits` follow it. */
  function FractionPart(s: string, digits: string, places: nat): nat
    decreases |s|
  {
    if s != [] && IsDigit(s[0]) then FractionPart(s[1..], digits + [s[0]], places + 1)
    else Scaled(DigitsValue(digits), ExponentPart(s) - places)
  }

  /** Since PHP 7.1 `intval` honours an exponent, with or without a
      fraction; an `e` without digits after it is not one. */
  lemma PhpIntvalExponent()
    ensures PhpIntval("1e1") == 10
    ensures PhpIntval("1.5e3") == 1500
    ensures PhpIntval("1e") == 1
  {
    var number := "1.5e3";
    var frac := number[2..];
    var one: string := [] + [number[0]];
    assert one == "1" && number[1..] == ".5e3" && number[1..][1..] == frac;
    assert frac[1..] == "e3" && one + [frac[0]] == "15";
    assert DigitsValue("15") == 15;
    assert ExponentPart("e3") == 3;
    assert Scaled(15, 2) == 1500;
    assert FractionPart(frac, one, 0) == FractionPart("e3", "15", 1) == 1500;
    assert WholePart(number[1..], one) == FractionPart(frac, one, 0);
    assert WholePart(number, []) == WholePart(number[1..], one);
    assert TrimStart(number, PhpSpaces) == number;
  }

  /** `intval` truncates a fraction toward zero. */
  lemma PhpIntvalTruncates()
    ensures PhpIntval(" -2.9") == -2
    ensures PhpIntval(".5") == 0
  {
    var number := " -2.9";
    var t := number[1..];
    assert TrimStart(number, PhpSpaces) == t;
    var body := t[1..];
    var two: string := [] + [body[0]];
    assert two == "2" && body[1..] == ".9" && body[1..][1..] == "9";
    assert two + ['9'] == "29";
    assert DigitsValue("29") == 29;
    assert Scaled(29, -1) == 2;
    assert FractionPart("9", two, 0) == FractionPart([], "29", 1) == 2;
    assert WholePart(body[1..], two) == FractionPart("9", two, 0);
    assert WholePart(body, []) == WholePart(body[1..], two);
  }

  /** `intval` ignores whatever follows the numeric prefix; a string without
      one reads as 0. */
  lemma PhpIntvalIgnoresRest()
    ensures PhpIntval("12px") == 12
    ensures PhpIntval("px") == 0
  {
    var px := "12px";
    var one: string := [] + [px[0]];
    assert one == "1" && px[1..] == "2px" && px[1..][1..] == "px";
    assert one + ['2'] == "12" && DigitsValue("12") == 12;
    assert WholePart("px", "12") == 12;
    assert WholePart(px[1..], one) == WholePart("px", "12");
    assert WholePart(px, []) == WholePart(px[1..], one);
    assert TrimStart(px, PhpSpaces) == px;
  }

  /** A run of digits with nothing after it reads as its value. */
  lemma {:induction false} WholePartOfDigits(d: string, digits: string)
    requires AllDigits(d)
    ensures WholePart(d, digits) == DigitsValue(digits + d)
    decreases |d|
  {
    if d == [] {
      assert digits + d == digits;
    } else {
      WholePartOfDigits(d[1..], digits + [d[0]]);
      assert digits + [d[0]] + d[1..] == digits + d;
    }
  }

  /** PHP `absint($s)`: the absolute value of `intval`. */
  function PhpAbsint(s: string): (n: nat) {
    var i := PhpIntval(s);
    if i < 0 then -i else i
  }

  /** JavaScript `parseInt(s, 10)`: `None` stands for `NaN`, which is what it
      yields when no digit follows the optional white space and sign. */
  function JsParseInt(s: string): Option<int> {
    var t := TrimStart(s, JsSpaces);
    var negative := t != [] && t[0] == '-';
    var body := if t != [] && (t[0] == '-' || t[0] == '+') then t[1..] else t;
    var d := LeadingDigits(body);
    if d == [] then None
    else if negative then Some(-(DigitsValue(d) as int))
    else Some(DigitsValue(d))
  }

  /** Decimal rendering of a natural number, without leading zeros. */
  function NatToString(n: nat): (s: string)
    ensures s != [] && AllDigits(s)
  {
    if n < 10 then [DigitChar(n)] else NatToString(n / 10) + [DigitChar(n % 10)]
  }

  /** Decimal rendering of an integer, as PHP string conversion and
      JavaScript's `Array.prototype.join` produce it. */
  function IntToString(i: int): (s: string)
    ensures s != []
  {
    if i < 0 then "-" + NatToString(-i) else NatToString(i)
  }

  lemma {:induction false} LeadingDigitsAll(d: string)
    requires AllDigits(d)
    ensures LeadingDigits(d) == d
  {
    if d != [] {
      LeadingDigitsAll(d[1..]);
    }
  }

  /** Reading back a rendered natural number gives the number. */
  lemma {:induction false} DigitsValueOfNatToString(n: nat)
    ensures DigitsValue(NatToString(n)) == n
  {
    if n >= 10 {
      var s := NatToString(n);
      assert s[..|s| - 1] == NatToString(n / 10);
      DigitsValueOfNatToString(n / 10);
    }
  }

  /** `intval` inverts the decimal rendering of a natural number. */
  lemma PhpIntvalOfNatToString(n: nat)
    ensures PhpIntval(NatToString(n)) == n
  {
    var s := NatToString(n);
    assert TrimStart(s, PhpSpaces) == s;
    WholePartOfDigits(s, []);
    assert [] + s == s;
    DigitsValueOfNatToString(n);
  }

  /** `parseInt` reads a run of digits, with or without a leading minus, as
      its value. */
  lemma JsParseIntOfDigits(d: string)
    requires d != [] && AllDigits(d)
    ensures JsParseInt(d) == Some(DigitsValue(d) as int)
    ensures JsParseInt(['-'] + d) == Some(-(DigitsValue(d) as int))
  {
    assert !IsJsSpace(d[0]) && d[0] != '-' && d[0] != '+';
    assert TrimStart(d, JsSpaces) == d;
    var m := ['-'] + d;
    assert TrimStart(m, JsSpaces) == m;
    assert m[1..] == d;
    LeadingDigitsAll(d);
  }

  /** `parseInt` inverts the decimal rendering of every integer. */
  lemma JsParseIntOfIntToString(i: int)
    ensures JsParseInt(IntToString(i)) == Some(i)
  {
    var n: nat := if i < 0 then -i else i;
    JsParseIntOfDigits(NatToString(n));
    DigitsValueOfNatToString(n);
  }

  // ---------------------------------------------------------------- split / join

  /** The first index of `c` in `s`. */
  function IndexOf(s: string, c: char): (i: nat)
    requires c in s
    ensures i < |s| && s[i] == c && c !in s[..i]
  {
    if s[0] == c then 0 else 1 + IndexOf(s[1..], c)
  }

  /** PHP `explode($sep, $s)` and JavaScript `s.split(sep)` for a one-character
      separator: the pieces between separators, in order; `''` gives `['']`. */
  function Split(s: string, sep: char): (parts: seq<string>)
    ensures |parts| >= 1
    ensures forall k :: 0 <= k < |parts| ==> sep !in parts[k]
    decreases |s|
  {
    if sep !in s then [s]
    else
      var i := IndexOf(s, sep);
      [s[..i]] + Split(s[i + 1..], sep)
  }

  /** PHP `implode($sep, $parts)` and JavaScript `parts.join(sep)`. */
  function Join(parts: seq<string>, sep: char): string {
    if parts == [] then ""
    else if |parts| == 1 then parts[0]
    else parts[0] + [sep] + Join(parts[1..], sep)
  }

  /** The number of occurrences of `c` in `s`. */
  function Count(s: string, c: char): nat {
    if s == [] then 0 else (if s[0] == c then 1 else 0) + Count(s[1..], c)
  }

  lemma {:induction false} CountAppend(a: string, b: string, c: char)
    ensures Count(a + b, c) == Count(a, c) + Count(b, c)
  {
    if a != [] {
      assert (a + b)[0] == a[0];
      assert (a + b)[1..] == a[1..] + b;
      CountAppend(a[1..], b, c);
    } else {
      assert a + b == b;
    }
  }

  lemma {:induction false} CountAbsent(s: string, c: char)
    requires c !in s
    ensures Count(s, c) == 0
  {
    if s != [] {
      CountAbsent(s[1..], c);
    }
  }

  lemma {:induction false} CountPresent(s: string, c: char)
    requires c in s
    ensures Count(s, c) >= 1
  {
    if s[0] != c {
      var i :| 0 <= i < |s| && s[i] == c;
      assert s[1..][i - 1] == c;
      CountPresent(s[1..], c);
    }
  }

  /** Splitting on `sep` gives one more piece than there are separators. */
  lemma {:induction false} SplitCount(s: string, sep: char)
    ensures |Split(s, sep)| == Count(s, sep) + 1
    decreases |s|
  {
    if sep !in s {
      CountAbsent(s, sep);
    } else {
      var i := IndexOf(s, sep);
      assert s == s[..i] + [sep] + s[i + 1..];
      CountAppend(s[..i] + [sep], s[i + 1..], sep);
      CountAppend(s[..i], [sep], sep);
      CountAbsent(s[..i], sep);
      SplitCount(s[i + 1..], sep);
    }
  }

  /** Splitting a joined list of separator-free pieces gives the pieces back. */
  lemma {:induction false} SplitJoin(parts: seq<string>, sep: char)
    requires |parts| >= 1
    requires forall k :: 0 <= k < |parts| ==> sep !in parts[k]
    ensures Split(Join(parts, sep), sep) == parts
  {
    if |parts| > 1 {
      var s := Join(parts, sep);
      var rest := Join(parts[1..], sep);
      assert s == parts[0] + [sep] + rest;
      var n := |parts[0]|;
      assert s[n] == sep && s[..n] == parts[0] && s[n + 1..] == rest;
      assert sep in s;
      var i := IndexOf(s, sep);
      assert forall j :: 0 <= j < n ==> s[j] == parts[0][j];
      assert i == n;
      SplitJoin(parts[1..], sep);
    }
  }

  /** No decimal rendering contains a comma. */
  lemma IntToStringHasNoComma(i: int)
    ensures ',' !in IntToString(i)
  {
    var s := IntToString(i);
    if i < 0 {
      var d := NatToString(-i);
      assert s == ['-'] + d;
      assert forall k :: 1 <= k < |s| ==> s[k] == d[k - 1];
    }
    assert forall k :: 0 <= k < |s| ==> s[k] != ',';
  }

  // ---------------------------------------------------------------- de-duplication

  /** The distinct elements of `xs`, each at the place it first appears
      (PHP `array_unique`; the insertion order of a JavaScript `Set`). */
  function Distinct<T(==)>(xs: seq<T>): (d: seq<T>)
    ensures forall i :: 0 <= i < |xs| ==> xs[i] in d
    ensures forall i :: 0 <= i < |d| ==> d[i] in xs
    ensures forall i, j :: 0 <= i < j < |d| ==> d[i] != d[j]
  {
    if xs == [] then []
    else
      var prev := Distinct(xs[..|xs| - 1]);
      assert xs == xs[..|xs| - 1] + [xs[|xs| - 1]];
      if xs[|xs| - 1] in prev then prev else prev + [xs[|xs| - 1]]
  }
}
