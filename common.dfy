/**
 * Small helpers shared by the controller model: an option type, the clock
 * value the engines read, Java's `String.equalsIgnoreCase` restricted to
 * ASCII letters, and decimal rendering of integers for the status texts.
 */
module Common {

  datatype Option<T> = None | Some(value: T)

  /**
   * The current time as the engines read it from a `LocalDateTime`:
   * the epoch second and the hour and minute of the day.
   */
  datatype Clock = Clock(epochSecond: int, hour: int, minute: int) {
    /** `hour * 60 + minute`, the minute-of-day every window check compares against. */
    function MinuteOfDay(): int { hour * 60 + minute }
  }

  /** ASCII lower-casing; every other character is left as it is. */
  function Lower(c: char): char
  {
    if 'A' <= c <= 'Z' then (c as int + 32) as char else c
  }

  /** `a.equalsIgnoreCase(b)` for ASCII text. */
  predicate EqualsIgnoreCase(a: string, b: string)
  {
    |a| == |b| && forall i :: 0 <= i < |a| ==> Lower(a[i]) == Lower(b[i])
  }

  lemma EqualsIgnoreCaseIsEquivalence(a: string, b: string, c: string)
    ensures EqualsIgnoreCase(a, a)
    ensures EqualsIgnoreCase(a, b) ==> EqualsIgnoreCase(b, a)
    ensures EqualsIgnoreCase(a, b) && EqualsIgnoreCase(b, c) ==> EqualsIgnoreCase(a, c)
  {
  }

  /** The character of decimal digit `d`. */
  function DigitChar(d: int): (c: char)
    requires 0 <= d < 10
    ensures '0' <= c <= '9' && DigitValue(c) == d
  {
    ('0' as int + d) as char
  }

  /** The value of a decimal digit character. */
  function DigitValue(c: char): int
  {
    c as int - '0' as int
  }

  predicate IsDigits(s: string)
  {
    forall i :: 0 <= i < |s| ==> '0' <= s[i] <= '9'
  }

  /** The number a string of decimal digits denotes, most significant first. */
  function DigitsValue(s: string): int
  {
    if s == [] then 0 else DigitsValue(s[..|s| - 1]) * 10 + DigitValue(s[|s| - 1])
  }

  /** Decimal digits of `n`, most significant first, as `Long.toString`/`%d` prints them. */
  function NatToString(n: nat): (s: string)
    ensures |s| > 0 && IsDigits(s)
    ensures DigitsValue(s) == n
    ensures |s| > 1 ==> s[0] != '0'
  {
    if n < 10 then [DigitChar(n)]
    else
      var prefix := NatToString(n / 10);
      var s := prefix + [DigitChar(n % 10)];
      assert s[..|s| - 1] == prefix;
      s
  }

  /** Decimal rendering of a signed integer, with a leading '-' for negatives. */
  function IntToString(n: int): (s: string)
    ensures |s| > 0 && (s[0] == '-' <==> n < 0)
    ensures n >= 0 ==> IsDigits(s) && DigitsValue(s) == n
    ensures n < 0 ==> IsDigits(s[1..]) && DigitsValue(s[1..]) == -n
    ensures n >= 0 ==> (|s| > 1 ==> s[0] != '0')
    ensures n < 0 ==> |s| >= 2 && (|s| > 2 ==> s[1] != '0')
  {
    if n < 0 then
      var s := "-" + NatToString(-n);
      assert s[1..] == NatToString(-n);
      s
    else NatToString(n)
  }
}
