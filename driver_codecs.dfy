/**
 * The column codecs of lib/db/helpers.ts that hold logic: `tBoolean` stores a
 * boolean as the integer 1 or 0, and `tBigInt` stores an arbitrary-precision
 * integer as its decimal text. `toDriver` runs on the way into SQLite and
 * `fromDriver` on the way out.
 */
module DriverCodecs {
  import opened Wrappers

  // ---------------------------------------------------------------- tBoolean

  /** `tBoolean.toDriver`: `value ? 1 : 0`; reading it back gives the same boolean. */
  function BooleanToDriver(value: bool): (v: int)
    ensures v == 0 || v == 1
    ensures v == 1 <==> value
    ensures BooleanFromDriver(v) == value
  {
    if value then 1 else 0
  }

  /** `tBoolean.fromDriver`: `value === 1`; every other stored integer reads as false. */
  function BooleanFromDriver(v: int): (b: bool)
    ensures b <==> v == 1
  {
    v == 1
  }

  // ----------------------------------------------------------------- tBigInt

  predicate IsDigit(c: char) { '0' <= c <= '9' }

  predicate AllDigits(s: string) { forall i :: 0 <= i < |s| ==> IsDigit(s[i]) }

  function DigitChar(d: nat): (c: char)
    requires d < 10
    ensures IsDigit(c)
  {
    ('0' as int + d) as char
  }

  function DigitValue(c: char): (d: nat)
    requires IsDigit(c)
    ensures d < 10 && DigitChar(d) == c
  {
    c as int - '0' as int
  }

  /** The shortest decimal spelling of `n`: digits only, no leading zero except for "0" itself. */
  function NatToDecimal(n: nat): (s: string)
    ensures |s| >= 1 && AllDigits(s)
    ensures s[0] == '0' ==> n == 0 && s == "0"
    decreases n
  {
    if n < 10 then [DigitChar(n)] else NatToDecimal(n / 10) + [DigitChar(n % 10)]
  }

  /** The number a string of decimal digits denotes, most significant digit first. */
  function DecimalValue(s: string): nat
    requires AllDigits(s)
    decreases |s|
  {
    if s == [] then 0 else DecimalValue(s[..|s| - 1]) * 10 + DigitValue(s[|s| - 1])
  }

  /** `tBigInt.toDriver`: `value.toString()`, the decimal text with a leading '-' exactly when negative. */
  function BigIntToDriver(value: int): (s: string)
    ensures |s| >= 1
    ensures s[0] == '-' <==> value < 0
    ensures value < 0 ==> |s| >= 2 && AllDigits(s[1..]) && s[1] != '0'
    ensures value >= 0 ==> AllDigits(s)
  {
    if value < 0 then "-" + NatToDecimal(-value) else NatToDecimal(value)
  }

  /**
   * `tBigInt.fromDriver`: `BigInt(value)` on decimal text. The empty string is 0,
   * an optional '+' or '-' may precede at least one digit, and anything else
   * throws a SyntaxError, modelled as `None`.
   */
  function BigIntFromDriver(s: string): (r: Option<int>)
    ensures r.Some? <==> AllDigits(s) || (|s| > 1 && (s[0] == '-' || s[0] == '+') && AllDigits(s[1..]))
    ensures AllDigits(s) ==> r == Some(DecimalValue(s))
    ensures |s| > 1 && s[0] == '-' && AllDigits(s[1..]) ==> r == Some(-(DecimalValue(s[1..]) as int))
    ensures |s| > 1 && s[0] == '+' && AllDigits(s[1..]) ==> r == Some(DecimalValue(s[1..]))
    ensures r.Some? && r.value < 0 ==> s[0] == '-'
  {
    if s == [] then Some(0)
    else if (s[0] == '-' || s[0] == '+') && |s| > 1 && AllDigits(s[1..]) then
      var magnitude: int := DecimalValue(s[1..]);
      Some(if s[0] == '-' then -magnitude else magnitude)
    else if AllDigits(s) then Some(DecimalValue(s))
    else None
  }

  lemma {:induction false} DecimalOfNatToDecimal(n: nat)
    ensures DecimalValue(NatToDecimal(n)) == n
    decreases n
  {
    var s := NatToDecimal(n);
    if n >= 10 {
      DecimalOfNatToDecimal(n / 10);
      assert s[..|s| - 1] == NatToDecimal(n / 10);
    }
  }

  /** Writing an integer and reading it back gives the same integer, for every integer. */
  lemma BigIntRoundTrip(value: int)
    ensures BigIntFromDriver(BigIntToDriver(value)) == Some(value)
  {
    var s := BigIntToDriver(value);
    if value < 0 {
      DecimalOfNatToDecimal(-value);
      assert s[1..] == NatToDecimal(-value);
      assert !AllDigits(s);
    } else {
      DecimalOfNatToDecimal(value);
    }
  }

  /** Distinct integers are stored as distinct texts, so the column keeps them apart. */
  lemma BigIntToDriverInjective(a: int, b: int)
    requires BigIntToDriver(a) == BigIntToDriver(b)
    ensures a == b
  {
    BigIntRoundTrip(a);
    BigIntRoundTrip(b);
  }
}
