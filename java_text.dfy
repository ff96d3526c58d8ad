/**
 * The small pieces of java.lang text handling the codec relies on: String.startsWith,
 * ASCII case folding (String.equalsIgnoreCase restricted to ASCII), Long.toString,
 * Long.parseLong and Boolean.parseBoolean, over Dafny strings.
 */
module JavaText {
  import opened Outcomes

  const INT_MAX: int := 0x7FFF_FFFF
  const LONG_MIN: int := -0x8000_0000_0000_0000
  const LONG_MAX: int := 0x7FFF_FFFF_FFFF_FFFF

  /** A Java `long`. */
  type Long = x: int | LONG_MIN <= x <= LONG_MAX

  /** String.startsWith */
  predicate StartsWith(s: string, prefix: string) {
    |prefix| <= |s| && s[..|prefix|] == prefix
  }

  function LowerChar(c: char): char {
    if 'A' <= c <= 'Z' then (c as int + 32) as char else c
  }

  /** The string with every ASCII upper-case letter replaced by its lower-case letter. */
  function LowerAscii(s: string): string {
    seq(|s|, i requires 0 <= i < |s| => LowerChar(s[i]))
  }

  /** String.equalsIgnoreCase, for ASCII text. */
  predicate EqualsIgnoreCase(a: string, b: string) {
    LowerAscii(a) == LowerAscii(b)
  }

  predicate IsDigit(c: char) { '0' <= c <= '9' }

  predicate AllDigits(s: string) {
    forall i :: 0 <= i < |s| ==> IsDigit(s[i])
  }

  function DigitChar(d: int): char
    requires 0 <= d < 10
  {
    ('0' as int + d) as char
  }

  /** The number a string of decimal digits denotes, read left to right. */
  function DecimalValue(s: string): nat
    requires AllDigits(s)
  {
    if s == [] then 0 else DecimalValue(s[..|s| - 1]) * 10 + (s[|s| - 1] as int - '0' as int)
  }

  /** The shortest decimal numeral of n. */
  function Decimal(n: nat): (s: string)
    ensures |s| >= 1 && AllDigits(s)
    ensures DecimalValue(s) == n
    ensures |s| > 1 ==> s[0] != '0'
  {
    if n < 10 then [DigitChar(n)]
    else
      var s := Decimal(n / 10) + [DigitChar(n % 10)];
      assert s[..|s| - 1] == Decimal(n / 10);
      s
  }

  /** Long.toString */
  function LongToString(n: Long): string {
    if n < 0 then "-" + Decimal(-(n as int)) else Decimal(n)
  }

  /**
   * Long.parseLong: an optional '+' or '-' followed by at least one decimal digit, whose
   * value fits a long; anything else is a NumberFormatException (None).
   */
  function ParseLong(s: string): Option<Long> {
    var signed := |s| > 0 && (s[0] == '-' || s[0] == '+');
    var digits := if signed then s[1..] else s;
    if |digits| == 0 || !AllDigits(digits) then None
    else
      var magnitude: int := DecimalValue(digits);
      var v: int := if signed && s[0] == '-' then -magnitude else magnitude;
      if LONG_MIN <= v <= LONG_MAX then Some(v) else None
  }

  /** Long.parseLong accepts what Long.toString writes and gives back the same long. */
  lemma ParseLongToString(n: Long)
    ensures ParseLong(LongToString(n)) == Some(n)
  {
    if n < 0 {
      var d := Decimal(-(n as int));
      assert ("-" + d)[1..] == d;
    }
  }

  /** A string that is empty, a bare sign, or holds a non-digit after the sign is rejected. */
  lemma ParseLongRejects(s: string)
    requires s == [] || s == "-" || s == "+" || exists i :: 1 <= i < |s| && !IsDigit(s[i])
    ensures ParseLong(s) == None
  {
    if s != [] && s != "-" && s != "+" {
      var i :| 1 <= i < |s| && !IsDigit(s[i]);
      var signed := s[0] == '-' || s[0] == '+';
      if signed {
        assert !IsDigit(s[1..][i - 1]);
      } else {
        assert !IsDigit(s[i]);
      }
    }
  }

  const TRUE_STRING: string := "true"

  /** Boolean.parseBoolean: true exactly for "true" in any letter case; a null string is false. */
  function ParseBoolean(s: Option<string>): bool {
    s.Some? && EqualsIgnoreCase(s.value, TRUE_STRING)
  }
}
