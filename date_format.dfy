/** The `MM/DD/YYYY` rendering of a calendar date (strftime's
    `%m/%d/%Y`: zero-padded month, day and year), and its parser, which
    inverts it. */
module DateFormat {
  import opened Wrappers
  import opened Calendar

  function Pow10(n: nat): (p: nat)
    ensures p >= 1
  {
    if n == 0 then 1 else 10 * Pow10(n - 1)
  }

  predicate IsDigit(c: char) {
    '0' <= c <= '9'
  }

  predicate AllDigits(s: string) {
    forall i :: 0 <= i < |s| ==> IsDigit(s[i])
  }

  function DigitChar(k: int): (c: char)
    requires 0 <= k <= 9
    ensures IsDigit(c) && c as int - '0' as int == k
  {
    ('0' as int + k) as char
  }

  /** n in exactly `width` decimal digits, zero-padded on the left. */
  function Digits(n: nat, width: nat): (s: string)
    requires n < Pow10(width)
    ensures |s| == width && AllDigits(s)
  {
    if width == 0 then ""
    else Digits(n / 10, width - 1) + [DigitChar(n % 10)]
  }

  /** The number a string of decimal digits denotes. */
  function DigitsValue(s: string): (n: nat)
    requires AllDigits(s)
    ensures n < Pow10(|s|)
  {
    if s == [] then 0
    else 10 * DigitsValue(s[..|s| - 1]) + (s[|s| - 1] as int - '0' as int)
  }

  /** Reading back the digits of n gives n. */
  lemma {:induction false} DigitsValueOfDigits(n: nat, width: nat)
    requires n < Pow10(width)
    ensures DigitsValue(Digits(n, width)) == n
  {
    if width > 0 {
      var s := Digits(n, width);
      assert s[..width - 1] == Digits(n / 10, width - 1);
      DigitsValueOfDigits(n / 10, width - 1);
    }
  }

  /** Writing the value of a digit string in as many digits gives the string back. */
  lemma {:induction false} DigitsOfDigitsValue(s: string)
    requires AllDigits(s)
    ensures Digits(DigitsValue(s), |s|) == s
  {
    if s != [] {
      var init := s[..|s| - 1];
      DigitsOfDigitsValue(init);
      var n := DigitsValue(s);
      assert n / 10 == DigitsValue(init) && n % 10 == s[|s| - 1] as int - '0' as int;
      assert s == init + [s[|s| - 1]];
    }
  }

  /** A date whose fields fit the two-, two- and four-digit fields. */
  predicate Printable(d: Date) {
    1 <= d.month <= 12 && 1 <= d.day <= 31 && 0 <= d.year <= 9999
  }

  /** `MM/DD/YYYY`. */
  function FormatDate(d: Date): (s: string)
    requires Printable(d)
    ensures |s| == 10 && s[2] == '/' && s[5] == '/'
    ensures AllDigits(s[..2]) && AllDigits(s[3..5]) && AllDigits(s[6..])
  {
    var s := Digits(d.month, 2) + "/" + Digits(d.day, 2) + "/" + Digits(d.year, 4);
    assert s[..2] == Digits(d.month, 2) && s[3..5] == Digits(d.day, 2) && s[6..] == Digits(d.year, 4);
    s
  }

  /** Reads `MM/DD/YYYY`; None for any other shape. */
  function ParseDate(s: string): Option<Date> {
    if |s| == 10 && s[2] == '/' && s[5] == '/'
       && AllDigits(s[..2]) && AllDigits(s[3..5]) && AllDigits(s[6..])
    then Some(Date(DigitsValue(s[6..]), DigitsValue(s[..2]), DigitsValue(s[3..5])))
    else None
  }

  /** Parsing a formatted date gives the date back. */
  lemma ParseFormatDate(d: Date)
    requires Printable(d)
    ensures ParseDate(FormatDate(d)) == Some(d)
  {
    var s := FormatDate(d);
    assert s[..2] == Digits(d.month, 2) && s[3..5] == Digits(d.day, 2) && s[6..] == Digits(d.year, 4);
    DigitsValueOfDigits(d.month, 2);
    DigitsValueOfDigits(d.day, 2);
    DigitsValueOfDigits(d.year, 4);
  }

  /** Formatting a parsed date gives the string back: every `MM/DD/YYYY`
      string with a printable date is the rendering of exactly one date. */
  lemma FormatParseDate(s: string)
    requires ParseDate(s).Some? && Printable(ParseDate(s).value)
    ensures FormatDate(ParseDate(s).value) == s
  {
    var d := ParseDate(s).value;
    DigitsOfDigitsValue(s[..2]);
    DigitsOfDigitsValue(s[3..5]);
    DigitsOfDigitsValue(s[6..]);
    JoinFields(s);
    assert FormatDate(d) == s[..2] + "/" + s[3..5] + "/" + s[6..];
  }

  /** A ten-character string with slashes at 2 and 5 is its three fields joined by slashes. */
  lemma JoinFields(s: string)
    requires |s| == 10 && s[2] == '/' && s[5] == '/'
    ensures s == s[..2] + "/" + s[3..5] + "/" + s[6..]
  {
  }
}
