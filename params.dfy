/**
 * How request text becomes an integer: Postgres's input rule for the int4 columns and
 * parameters the models compare ids against, and the decimal text JavaScript's String()
 * gives an integer.
 */
module Params {
  import opened Wrappers

  const Int4Min: int := -0x8000_0000
  const Int4Max: int := 0x7FFF_FFFF

  predicate IsDigit(c: char) {
    '0' <= c <= '9'
  }

  predicate AllDigits(s: string) {
    forall i :: 0 <= i < |s| ==> IsDigit(s[i])
  }

  /** The number a run of decimal digits denotes; leading zeros are allowed. */
  function DigitsValue(s: string): nat
    requires AllDigits(s)
  {
    if s == [] then 0 else DigitsValue(s[..|s| - 1]) * 10 + (s[|s| - 1] as int - '0' as int)
  }

  /**
   * int4 input: an optional sign followed by at least one decimal digit, denoting a value
   * within the 32-bit range; anything else is an invalid input, which fails the statement.
   */
  function ParseInt4(s: string): (r: Option<int>)
    ensures r.Some? ==> Int4Min <= r.value <= Int4Max
    ensures r.Some? ==> |s| >= 1 && (IsDigit(s[0]) || s[0] == '-' || s[0] == '+')
  {
    var signed := |s| > 0 && (s[0] == '-' || s[0] == '+');
    var digits := if signed then s[1..] else s;
    if digits == [] || !AllDigits(digits) then None
    else
      var v: int := DigitsValue(digits);
      var n := if signed && s[0] == '-' then -v else v;
      if Int4Min <= n <= Int4Max then Some(n) else None
  }

  function DigitChar(d: nat): (c: char)
    requires d < 10
    ensures IsDigit(c) && c as int - '0' as int == d
  {
    ('0' as int + d) as char
  }

  /** The decimal digits of n, without leading zeros. */
  function Digits(n: nat): (s: string)
    ensures |s| >= 1 && AllDigits(s)
    ensures DigitsValue(s) == n
    ensures |s| > 1 ==> s[0] != '0'
  {
    if n < 10 then [DigitChar(n)]
    else
      var s := Digits(n / 10) + [DigitChar(n % 10)];
      assert s[..|s| - 1] == Digits(n / 10);
      s
  }

  /** String(n) for an integer n. */
  function DecimalText(n: int): (s: string)
    ensures |s| >= 1
    ensures n >= 0 ==> AllDigits(s)
    ensures n < 0 ==> s[0] == '-' && AllDigits(s[1..])
  {
    if n < 0 then "-" + Digits(-n) else Digits(n)
  }

  /** Every int4 value survives the trip to text and back through Postgres's input rule. */
  lemma ParseDecimalText(n: int)
    requires Int4Min <= n <= Int4Max
    ensures ParseInt4(DecimalText(n)) == Some(n)
  {
    var s := DecimalText(n);
    if n < 0 {
      assert s[1..] == Digits(-n);
    }
  }

  /** Text the input rule accepts in a different spelling (a plus sign, leading zeros) still parses to the same value. */
  lemma ParseIgnoresSpelling(n: nat)
    requires n <= Int4Max
    ensures ParseInt4("+" + Digits(n)) == Some(n)
    ensures ParseInt4("0" + Digits(n)) == Some(n)
  {
    var plus := "+" + Digits(n);
    assert plus[1..] == Digits(n);
    var zero := "0" + Digits(n);
    LeadingZero(Digits(n));
  }

  lemma {:induction false} LeadingZero(s: string)
    requires AllDigits(s)
    ensures AllDigits("0" + s) && DigitsValue("0" + s) == DigitsValue(s)
  {
    if s != [] {
      var t := "0" + s;
      assert t[..|t| - 1] == "0" + s[..|s| - 1];
      LeadingZero(s[..|s| - 1]);
    } else {
      assert ("0" + s)[..0] == [];
    }
  }
}
