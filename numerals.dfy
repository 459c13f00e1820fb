/**
 * Python's `int(text)` on ASCII text: surrounding whitespace is ignored, an
 * optional sign is allowed, and the digits may be grouped with single
 * underscores (`"1_000"`). More than 4300 digits, or anything else, raises
 * `ValueError`, here `None`.
 */
module Numerals {
  import opened Options

  /**
   * The ASCII whitespace `int()` strips: space, tab, line feed, carriage
   * return, vertical tab and form feed. The separators U+001C..U+001F, which
   * `str.isspace()` accepts, are not among them.
   */
  predicate IsSpace(c: char) {
    c == ' ' || c == '\t' || c == '\n' || c == '\r' || c == '\U{000B}' || c == '\U{000C}'
  }

  /**
   * CPython's default limit on the number of digits of a decimal string
   * `int()` converts (`sys.get_int_max_str_digits()`); leading zeros count,
   * underscores do not.
   */
  const MaxStrDigits: nat := 4300

  predicate IsDigit(c: char) {
    '0' <= c <= '9'
  }

  function DigitValue(c: char): nat
    requires IsDigit(c)
  {
    c as int - '0' as int
  }

  function DigitChar(d: nat): char
    requires d < 10
  {
    ('0' as int + d) as char
  }

  function StripLeading(s: string): string {
    if s != [] && IsSpace(s[0]) then StripLeading(s[1..]) else s
  }

  function StripTrailing(s: string): string {
    if s != [] && IsSpace(s[|s| - 1]) then StripTrailing(s[..|s| - 1]) else s
  }

  function Strip(s: string): string {
    StripTrailing(StripLeading(s))
  }

  /** Digits, where an underscore may stand only between two digits. */
  predicate IsDigitGroup(s: string) {
    && |s| > 0
    && IsDigit(s[0])
    && IsDigit(s[|s| - 1])
    && (forall k :: 0 <= k < |s| ==> IsDigit(s[k]) || s[k] == '_')
    && (forall k :: 0 < k < |s| && s[k] == '_' ==> s[k - 1] != '_')
  }

  predicate AllDigits(s: string) {
    forall k :: 0 <= k < |s| ==> IsDigit(s[k])
  }

  function DropUnderscores(s: string): (r: string)
    ensures (forall k :: 0 <= k < |s| ==> IsDigit(s[k]) || s[k] == '_') ==> AllDigits(r)
  {
    if s == [] then []
    else (if s[0] == '_' then [] else [s[0]]) + DropUnderscores(s[1..])
  }

  /** The number a string of decimal digits denotes. */
  function ValueOf(ds: string): nat
    requires AllDigits(ds)
  {
    if ds == [] then 0 else ValueOf(ds[..|ds| - 1]) * 10 + DigitValue(ds[|ds| - 1])
  }

  /** `int(text)`, or `None` where Python raises `ValueError`. */
  function ParseInt(text: string): Option<int> {
    var t := Strip(text);
    if |t| > 0 && (t[0] == '+' || t[0] == '-') then
      var body := t[1..];
      if IsDigitGroup(body) && |DropUnderscores(body)| <= MaxStrDigits then
        var v: int := ValueOf(DropUnderscores(body));
        Some(if t[0] == '-' then -v else v)
      else None
    else if IsDigitGroup(t) && |DropUnderscores(t)| <= MaxStrDigits then
      Some(ValueOf(DropUnderscores(t)))
    else None
  }

  /** The decimal numeral of `n`, as a telephone keypad sends it. */
  function Decimal(n: nat): (s: string)
    ensures |s| > 0 && AllDigits(s)
    ensures n >= 10 ==> |s| >= 2
  {
    if n < 10 then [DigitChar(n)] else Decimal(n / 10) + [DigitChar(n % 10)]
  }

  lemma {:induction false} ValueOfDecimal(n: nat)
    ensures ValueOf(Decimal(n)) == n
  {
    if n >= 10 {
      var s := Decimal(n);
      assert s[..|s| - 1] == Decimal(n / 10);
      ValueOfDecimal(n / 10);
    }
  }

  lemma {:induction false} DropUnderscoresOfDigits(s: string)
    requires AllDigits(s)
    ensures DropUnderscores(s) == s
  {
    if s != [] {
      DropUnderscoresOfDigits(s[1..]);
    }
  }

  lemma StripKeeps(s: string)
    requires s != [] && !IsSpace(s[0]) && !IsSpace(s[|s| - 1])
    ensures Strip(s) == s
  {
  }

  /**
   * Parsing reads back every numeral, `int(str(n)) == n`, up to the digit
   * limit; a longer numeral is refused.
   */
  lemma ParseDecimal(n: nat)
    ensures ParseInt(Decimal(n)) == if |Decimal(n)| <= MaxStrDigits then Some(n) else None
  {
    var s := Decimal(n);
    StripKeeps(s);
    assert IsDigitGroup(s);
    DropUnderscoresOfDigits(s);
    ValueOfDecimal(n);
  }

  /** Signs and surrounding blanks are accepted, as Python accepts them. */
  lemma SignedExamples()
    ensures ParseInt("+2") == Some(2)
    ensures ParseInt(" -1 ") == Some(-1)
  {
    assert Strip("+2") == "+2";
    assert Strip(" -1 ") == "-1" by {
      assert StripLeading(" -1 ") == "-1 ";
      assert StripTrailing("-1 ") == "-1";
    }
    assert "+2"[1..] == "2" && "-1"[1..] == "1";
    assert DropUnderscores("2") == "2" && DropUnderscores("1") == "1";
    assert ValueOf("2") == 2 && ValueOf("1") == 1;
  }

  /** A run of more than 4300 digits is refused, whatever its value (leading zeros count). */
  lemma TooManyDigits(ds: string)
    requires AllDigits(ds) && |ds| > MaxStrDigits
    ensures ParseInt(ds) == None
  {
    StripKeeps(ds);
    DropUnderscoresOfDigits(ds);
  }

  /** Only the numeral of zero reads as the string "0". */
  lemma DecimalIsZeroString(n: nat)
    ensures Decimal(n) == "0" <==> n == 0
  {
  }

  /**
   * Empty, blank and non-numeric text, a doubled underscore, and a digit after
   * a file separator (U+001C, not stripped by `int()`) are refused.
   */
  lemma NotNumbers()
    ensures ParseInt("") == None
    ensures ParseInt(" ") == None
    ensures ParseInt("#") == None
    ensures ParseInt("1__0") == None
    ensures ParseInt("\U{001C}1") == None
  {
    assert Strip(" ") == "" by {
      assert StripLeading(" ") == StripLeading(" "[1..]);
    }
    var t := "1__0";
    assert Strip(t) == t by {
      assert StripLeading(t) == t;
      assert StripTrailing(t) == t;
    }
    assert !IsDigitGroup(t) by {
      assert t[2] == '_' && t[1] == '_';
    }
  }
}
