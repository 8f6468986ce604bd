/**
 * The two conversions between integers and decimal text that the book
 * handlers rely on: Python's `int(text)` (create_book converts the
 * `published` form field with it) and `str(n)` (update_book puts the id
 * into its "not found" message).
 *
 * `int()` is modelled for ASCII input as CPython's `PyLong_FromString`
 * reads it: surrounding whitespace is stripped, an optional sign is
 * accepted, and the digits may be separated by single underscores
 * ("1_000"), with leading zeros allowed. Text with more than
 * MaxStrDigits digits is refused.
 */
module PyInt {
  import opened Options

  /** The default limit on the digits `int()` converts (`sys.get_int_max_str_digits()`). */
  const MaxStrDigits: nat := 4300

  predicate IsDigit(c: char) {
    '0' <= c <= '9'
  }

  /** The whitespace `int()` strips around a number: tab to carriage return, and space. */
  predicate IsSpace(c: char) {
    ('\t' <= c <= '\r') || c == ' '
  }

  /** s without its leading whitespace. */
  function TrimStart(s: string): (r: string)
    ensures r == [] || !IsSpace(r[0])
    ensures |r| <= |s| && r == s[|s| - |r|..]
    ensures forall i :: 0 <= i < |s| - |r| ==> IsSpace(s[i])
  {
    if s != [] && IsSpace(s[0]) then TrimStart(s[1..]) else s
  }

  /** s without its trailing whitespace. */
  function TrimEnd(s: string): (r: string)
    ensures r == [] || !IsSpace(r[|r| - 1])
    ensures |r| <= |s| && r == s[..|r|]
    ensures forall i :: |r| <= i < |s| ==> IsSpace(s[i])
  {
    if s != [] && IsSpace(s[|s| - 1]) then TrimEnd(s[..|s| - 1]) else s
  }

  /** The text `int()` reads: its argument without leading and trailing whitespace. */
  function Strip(s: string): (r: string)
    ensures r == [] || (!IsSpace(r[0]) && !IsSpace(r[|r| - 1]))
  {
    TrimEnd(TrimStart(s))
  }

  /**
   * Strip(s) is the slice of s left when exactly its leading and its
   * trailing whitespace are removed: it starts after the leading
   * whitespace TrimStart drops.
   */
  lemma {:induction false} StripSlice(s: string)
    ensures var a := |s| - |TrimStart(s)|;
            var b := a + |Strip(s)|;
            && b <= |s| && Strip(s) == s[a..b]
            && (forall i :: 0 <= i < a ==> IsSpace(s[i]))
            && (forall i :: b <= i < |s| ==> IsSpace(s[i]))
  {
    var t := TrimStart(s);
    var a := |s| - |t|;
    SliceOfSuffix(s, a, TrimEnd(t));
    forall i | a + |Strip(s)| <= i < |s|
      ensures IsSpace(s[i])
    {
      SpaceInSuffix(s, a, TrimEnd(t), i);
    }
  }

  /** A prefix of the suffix s[a..] is a slice of s. */
  lemma {:induction false} SliceOfSuffix(s: string, a: nat, r: string)
    requires a <= |s| && |r| <= |s| - a && r == s[a..][..|r|]
    ensures r == s[a..a + |r|]
  {
  }

  /** Whitespace that TrimEnd drops from s[a..] is whitespace of s. */
  lemma {:induction false} SpaceInSuffix(s: string, a: nat, r: string, i: nat)
    requires a <= |s| && r == TrimEnd(s[a..]) && a + |r| <= i < |s|
    ensures IsSpace(s[i])
  {
    assert s[i] == s[a..][i - a];
  }

  /** Decimal digits, possibly grouped by single underscores that sit between two digits. */
  predicate IsDigitText(s: string) {
    && |s| > 0
    && IsDigit(s[0])
    && IsDigit(s[|s| - 1])
    && (forall i :: 0 <= i < |s| ==> IsDigit(s[i]) || s[i] == '_')
    && NoDoubleUnderscore(s)
  }

  /** No two adjacent underscores. */
  predicate NoDoubleUnderscore(s: string) {
    |s| < 2 || (!(s[|s| - 2] == '_' && s[|s| - 1] == '_') && NoDoubleUnderscore(s[..|s| - 1]))
  }

  /** How many decimal digits s holds. */
  function DigitCount(s: string): nat {
    if s == [] then 0
    else DigitCount(s[..|s| - 1]) + (if IsDigit(s[|s| - 1]) then 1 else 0)
  }

  function DigitValue(c: char): int {
    c as int - '0' as int
  }

  /** The number a digit text denotes; underscores carry no value. */
  function DigitsValue(s: string): nat {
    if s == [] then 0
    else if IsDigit(s[|s| - 1]) then 10 * DigitsValue(s[..|s| - 1]) + DigitValue(s[|s| - 1])
    else DigitsValue(s[..|s| - 1])
  }

  predicate HasSign(t: string) {
    |t| > 0 && (t[0] == '+' || t[0] == '-')
  }

  /** The digits part of a stripped text: what follows its sign, if any. */
  function Unsigned(t: string): string {
    if HasSign(t) then t[1..] else t
  }

  /** `int(s)` with base 10: Some(value), or None where Python raises ValueError. */
  function ParseInt(s: string): Option<int> {
    var t := Strip(s);
    var digits := Unsigned(t);
    if IsDigitText(digits) && DigitCount(digits) <= MaxStrDigits then
      Some(if HasSign(t) && t[0] == '-' then -(DigitsValue(digits) as int) else DigitsValue(digits))
    else None
  }

  const InvalidLiteralPrefix: string := "invalid literal for int() with base 10: "

  /** `repr(s)` of a string, as single-quoted text. */
  function Repr(s: string): string {
    "'" + s + "'"
  }

  /** The syntax error's message; its `%.200R` keeps at most 200 characters of the repr. */
  function InvalidLiteral(s: string): (r: string)
    ensures |r| <= |InvalidLiteralPrefix| + 200
    ensures |InvalidLiteralPrefix| <= |r| && r[..|InvalidLiteralPrefix|] == InvalidLiteralPrefix
    ensures |s| <= 198 ==> r == InvalidLiteralPrefix + Repr(s)
  {
    var repr := Repr(s);
    InvalidLiteralPrefix + (if |repr| <= 200 then repr else repr[..200])
  }

  /**
   * After the fixed prefix the message is always the start of the repr,
   * and a repr longer than 200 characters is cut to exactly 200.
   */
  lemma {:induction false} InvalidLiteralTruncates(s: string)
    ensures var r := InvalidLiteral(s);
            && r[|InvalidLiteralPrefix|..] <= Repr(s)
            && (|s| > 198 ==> |r| == |InvalidLiteralPrefix| + 200)
  {
    var repr := Repr(s);
    assert InvalidLiteral(s)[|InvalidLiteralPrefix|..] == (if |repr| <= 200 then repr else repr[..200]);
  }

  const DigitLimitPrefix: string := "Exceeds the limit ("

  predicate StartsWith(s: string, prefix: string) {
    |prefix| <= |s| && s[..|prefix|] == prefix
  }

  /** The message for a number with too many digits. */
  function DigitLimitMessage(digits: nat): string {
    DigitLimitPrefix + DigitLimitDetail(digits)
  }

  /** The digit-limit message after its prefix: the limit, then the number of digits. */
  function DigitLimitDetail(digits: nat): string {
    NatToString(MaxStrDigits) + " digits) for integer string conversion: value has "
    + NatToString(digits) + " digits; use sys.set_int_max_str_digits() to increase the limit"
  }

  /**
   * The message of the ValueError that `int(s)` raises when ParseInt(s) is
   * None.
   */
  function ValueErrorMessage(s: string): string {
    var digits := Unsigned(Strip(s));
    if IsDigitText(digits) && DigitCount(digits) > MaxStrDigits then DigitLimitMessage(DigitCount(digits))
    else InvalidLiteral(s)
  }

  /** The ValueError's message is one of Python's two texts: the syntax error or the digit limit. */
  lemma {:induction false} ValueErrorMessageShape(s: string)
    ensures var r := ValueErrorMessage(s);
            StartsWith(r, InvalidLiteralPrefix) || StartsWith(r, DigitLimitPrefix)
  {
    var digits := Unsigned(Strip(s));
    if IsDigitText(digits) && DigitCount(digits) > MaxStrDigits {
      var detail := DigitLimitDetail(DigitCount(digits));
      assert (DigitLimitPrefix + detail)[..|DigitLimitPrefix|] == DigitLimitPrefix;
    }
  }

  function DigitChar(d: nat): (c: char)
    requires d < 10
    ensures IsDigit(c) && DigitValue(c) == d
  {
    ('0' as int + d) as char
  }

  function NatToString(n: nat): (r: string)
    ensures |r| > 0
    ensures forall i :: 0 <= i < |r| ==> IsDigit(r[i])
    ensures n >= 10 ==> r[0] != '0'
  {
    if n < 10 then [DigitChar(n)] else NatToString(n / 10) + [DigitChar(n % 10)]
  }

  /** `str(n)` for an int: its decimal digits, preceded by '-' when negative. */
  function IntToString(n: int): string {
    if n < 0 then "-" + NatToString(-n) else NatToString(n)
  }

  /**
   * `str(n)` is not empty, starts with '-' exactly when n is negative, and
   * is digits otherwise, without a leading zero unless it is "0".
   */
  lemma {:induction false} IntToStringShape(n: int)
    ensures var r := IntToString(n);
            && |r| > 0 && (r[0] == '-' <==> n < 0)
            && (forall i :: (if n < 0 then 1 else 0) <= i < |r| ==> IsDigit(r[i]))
            && (r[0] == '0' ==> r == "0")
            && (n < 0 ==> r[1] != '0')
  {
    var m: nat := if n < 0 then -n else n;
    var d := NatToString(m);
    if n < 0 {
      assert IntToString(n) == "-" + d;
    }
  }

  /** The digits of `str(n)` read back as the number n. */
  lemma {:induction false} NatToStringValue(n: nat)
    ensures IsDigitText(NatToString(n))
    ensures DigitsValue(NatToString(n)) == n
  {
    var s := NatToString(n);
    if n >= 10 {
      NatToStringValue(n / 10);
      assert s[..|s| - 1] == NatToString(n / 10);
    }
  }

  /** Text that neither starts nor ends with whitespace is what `int()` reads. */
  lemma {:induction false} StripKeeps(s: string)
    requires s != [] && !IsSpace(s[0]) && !IsSpace(s[|s| - 1])
    ensures Strip(s) == s
  {
    assert TrimStart(s) == s;
  }

  lemma {:induction false} DigitCountAllDigits(s: string)
    requires forall i :: 0 <= i < |s| ==> IsDigit(s[i])
    ensures DigitCount(s) == |s|
  {
    if s != [] {
      DigitCountAllDigits(s[..|s| - 1]);
    }
  }

  /** `int()` reads a well-formed digit text within the limit as its value. */
  lemma {:induction false} ParseDigitText(t: string)
    requires IsDigitText(t) && DigitCount(t) <= MaxStrDigits
    ensures ParseInt(t) == Some(DigitsValue(t))
  {
    StripKeeps(t);
    assert Unsigned(t) == t;
  }

  /** `int()` reads '-' followed by a well-formed digit text within the limit as minus its value. */
  lemma {:induction false} ParseNegativeDigitText(t: string)
    requires IsDigitText(t) && DigitCount(t) <= MaxStrDigits
    ensures ParseInt("-" + t) == Some(-(DigitsValue(t) as int))
  {
    var s := "-" + t;
    assert s[1..] == t && s[|s| - 1] == t[|t| - 1];
    StripKeeps(s);
    assert Unsigned(s) == t;
  }

  /**
   * `int(str(n)) == n` for every integer n whose digits are within the
   * limit (beyond it `str(n)` itself raises ValueError).
   */
  lemma {:induction false} ParseIntOfIntToString(n: int)
    requires |NatToString(if n < 0 then -n else n)| <= MaxStrDigits
    ensures ParseInt(IntToString(n)) == Some(n)
  {
    var m: nat := if n < 0 then -n else n;
    var t := NatToString(m);
    NatToStringValue(m);
    DigitCountAllDigits(t);
    if n < 0 {
      ParseNegativeDigitText(t);
    } else {
      ParseDigitText(t);
    }
  }

  /** Text holding no decimal digit, such as "not-a-number", never converts. */
  lemma {:induction false} ParseIntNeedsDigit(s: string)
    requires forall i :: 0 <= i < |s| ==> !IsDigit(s[i])
    ensures ParseInt(s) == None
    ensures ValueErrorMessage(s) == InvalidLiteral(s)
  {
    var t := Strip(s);
    StripSlice(s);
    var a := |s| - |TrimStart(s)|;
    var k := if HasSign(t) then 1 else 0;
    var digits := Unsigned(t);
    assert digits == t[k..];
    if digits != [] {
      assert digits[0] == s[a + k];
    }
    assert !IsDigitText(digits);
  }

  /**
   * The shape of what int() accepts: the stripped text is not empty and
   * ends in a digit, a negative value comes only from text that starts
   * with '-', and a leading '+' never gives one.
   */
  lemma {:induction false} ParseIntShape(s: string)
    ensures ParseInt(s).Some? ==>
              var t := Strip(s);
              && t != [] && IsDigit(t[|t| - 1])
              && (ParseInt(s).value < 0 ==> t[0] == '-')
              && (t[0] == '+' ==> ParseInt(s).value >= 0)
  {
    var t := Strip(s);
    var digits := Unsigned(t);
    if ParseInt(s).Some? {
      assert IsDigitText(digits);
      assert digits[|digits| - 1] == t[|t| - 1];
    }
  }

  /** Leading whitespace before text that does not start with whitespace is dropped. */
  lemma {:induction false} TrimStartSkips(lead: string, u: string)
    requires forall i :: 0 <= i < |lead| ==> IsSpace(lead[i])
    requires u == [] || !IsSpace(u[0])
    ensures TrimStart(lead + u) == u
    decreases |lead|
  {
    if lead != [] {
      assert (lead + u)[1..] == lead[1..] + u;
      TrimStartSkips(lead[1..], u);
    }
  }

  /** Trailing whitespace after text that does not end with whitespace is dropped. */
  lemma {:induction false} TrimEndSkips(u: string, trail: string)
    requires forall i :: 0 <= i < |trail| ==> IsSpace(trail[i])
    requires u == [] || !IsSpace(u[|u| - 1])
    ensures TrimEnd(u + trail) == u
    decreases |trail|
  {
    if trail != [] {
      var rest := trail[..|trail| - 1];
      assert (u + trail)[..|u + trail| - 1] == u + rest;
      TrimEndSkips(u, rest);
    } else {
      assert u + trail == u;
    }
  }

  /** Strip removes exactly the whitespace padding around text that neither starts nor ends with whitespace. */
  lemma {:induction false} StripPadded(lead: string, u: string, trail: string)
    requires forall i :: 0 <= i < |lead| ==> IsSpace(lead[i])
    requires forall i :: 0 <= i < |trail| ==> IsSpace(trail[i])
    requires u != [] && !IsSpace(u[0]) && !IsSpace(u[|u| - 1])
    ensures Strip(lead + u + trail) == u
  {
    var v := u + trail;
    assert lead + u + trail == lead + v;
    TrimStartSkips(lead, v);
    TrimEndSkips(u, trail);
  }

  /**
   * A well-formed number with more digits than the limit is refused with
   * the limit's message, whatever its sign and surrounding whitespace.
   */
  lemma {:induction false} ParseIntRefusesLongText(lead: string, sign: string, s: string, trail: string)
    requires forall i :: 0 <= i < |lead| ==> IsSpace(lead[i])
    requires forall i :: 0 <= i < |trail| ==> IsSpace(trail[i])
    requires sign == "" || sign == "+" || sign == "-"
    requires IsDigitText(s) && DigitCount(s) > MaxStrDigits
    ensures ParseInt(lead + sign + s + trail) == None
    ensures ValueErrorMessage(lead + sign + s + trail) == DigitLimitMessage(DigitCount(s))
  {
    var text := lead + sign + s + trail;
    var number := sign + s;
    assert text == lead + number + trail;
    assert number[|number| - 1] == s[|s| - 1];
    StripPadded(lead, number, trail);
    assert Unsigned(number) == s by {
      if sign != "" {
        assert number[1..] == s;
      } else {
        assert number == s;
      }
    }
    RefusedOverLimit(text);
  }

  /** Text whose digits part is a well-formed number over the limit is refused with the limit's message. */
  lemma {:induction false} RefusedOverLimit(text: string)
    requires IsDigitText(Unsigned(Strip(text))) && DigitCount(Unsigned(Strip(text))) > MaxStrDigits
    ensures ParseInt(text) == None
    ensures ValueErrorMessage(text) == DigitLimitMessage(DigitCount(Unsigned(Strip(text))))
  {
  }
}
