/**
 * The parts of Go's `strconv` package that the node manager relies on:
 * `Itoa` for ordinals and CPU counts, `ParseInt(s, 10, 64)` and `ParseBool`
 * for the values read back from the tool, and `FormatBool`, the inverse of
 * `ParseBool`.
 */
module GoStrconv {
  import opened Wrappers

  const MinInt64: int := -0x8000_0000_0000_0000
  const MaxInt64: int := 0x7FFF_FFFF_FFFF_FFFF

  predicate IsDigit(c: char)
  {
    '0' <= c <= '9'
  }

  predicate AllDigits(s: string)
  {
    forall k :: 0 <= k < |s| ==> IsDigit(s[k])
  }

  function DigitValue(c: char): nat
    requires IsDigit(c)
  {
    c as int - '0' as int
  }

  function DigitChar(d: nat): (c: char)
    requires d < 10
    ensures IsDigit(c) && DigitValue(c) == d
  {
    ('0' as int + d) as char
  }

  /** The number a string of decimal digits denotes (leading zeros allowed). */
  function DecimalValue(s: string): nat
    requires AllDigits(s)
  {
    if s == [] then 0
    else 10 * DecimalValue(s[..|s| - 1]) + DigitValue(s[|s| - 1])
  }

  /**
   * The shortest decimal form of `n`: digits only, no leading zero unless
   * `n` is zero, and denoting `n`.
   */
  function NatToDecimal(n: nat): (s: string)
    ensures |s| >= 1 && AllDigits(s)
    ensures s[0] == '0' ==> n == 0
    ensures DecimalValue(s) == n
  {
    if n < 10 then [DigitChar(n)]
    else
      var init := NatToDecimal(n / 10);
      var s := init + [DigitChar(n % 10)];
      assert s[..|s| - 1] == init;
      s
  }

  /** Go's `strconv.Itoa`: a minus sign for negative numbers, then the digits. */
  function Itoa(i: int): (s: string)
    ensures |s| >= 1
    ensures i < 0 <==> s[0] == '-'
    ensures i >= 0 ==> s == NatToDecimal(i)
    ensures i < 0 ==> s == "-" + NatToDecimal(-i)
    ensures forall k :: 0 <= k < |s| ==> IsDigit(s[k]) || (k == 0 && s[k] == '-')
  {
    if i < 0 then "-" + NatToDecimal(-i) else NatToDecimal(i)
  }

  /**
   * Go's `strconv.ParseInt(s, 10, 64)` with its error folded into `None`:
   * an optional '+' or '-' followed by at least one decimal digit (no
   * underscores, since the base is given), denoting a value in the int64
   * range. A value out of range is a range error, hence `None` too.
   */
  function ParseInt(s: string): (r: Option<int>)
    ensures r.Some? ==> MinInt64 <= r.value <= MaxInt64
    ensures r.Some? <==> s != [] && var digits := if s[0] == '+' || s[0] == '-' then s[1..] else s;
      && digits != [] && AllDigits(digits)
      && var v: int := if s[0] == '-' then -(DecimalValue(digits) as int) else DecimalValue(digits);
        MinInt64 <= v <= MaxInt64
    ensures r.Some? ==> var digits := if s[0] == '+' || s[0] == '-' then s[1..] else s;
      r.value == if s[0] == '-' then -(DecimalValue(digits) as int) else DecimalValue(digits)
  {
    if s == [] then None
    else
      var neg := s[0] == '-';
      var digits := if s[0] == '+' || s[0] == '-' then s[1..] else s;
      if digits == [] || !AllDigits(digits) then None
      else
        var u: int := DecimalValue(digits);
        var v := if neg then -u else u;
        if v < MinInt64 || MaxInt64 < v then None else Some(v)
  }

  /** Reading back what Itoa wrote gives the number back, for every int64. */
  lemma ParseIntItoa(i: int)
    requires MinInt64 <= i <= MaxInt64
    ensures ParseInt(Itoa(i)) == Some(i)
  {
    var s := Itoa(i);
    if i < 0 {
      assert s[1..] == NatToDecimal(-i);
    }
  }

  /** Itoa is injective on all integers, bounded or not. */
  lemma ItoaInjective(i: int, j: int)
    requires Itoa(i) == Itoa(j)
    ensures i == j
  {
    if i < 0 {
      assert Itoa(i)[1..] == NatToDecimal(-i);
      assert Itoa(j)[1..] == NatToDecimal(-j);
    }
  }

  /**
   * Go's `strconv.ParseBool` with its error folded into `None`: the six
   * spellings of true and the six spellings of false, and nothing else.
   */
  function ParseBool(s: string): (r: Option<bool>)
    ensures r.Some? <==> s in {"1", "t", "T", "TRUE", "true", "True", "0", "f", "F", "FALSE", "false", "False"}
    ensures r.Some? ==> s != [] && (r.value <==> s[0] in "1tT") && (!r.value <==> s[0] in "0fF")
  {
    if s in {"1", "t", "T", "TRUE", "true", "True"} then Some(true)
    else if s in {"0", "f", "F", "FALSE", "false", "False"} then Some(false)
    else None
  }

  /** Go's `strconv.FormatBool`. */
  function FormatBool(b: bool): string
  {
    if b then "true" else "false"
  }

  /** ParseBool reads back what FormatBool writes. */
  lemma ParseBoolFormatBool(b: bool)
    ensures ParseBool(FormatBool(b)) == Some(b)
  {
  }
}
