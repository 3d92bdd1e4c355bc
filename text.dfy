/**
 * The two string operations the register map handling needs: Python's
 * `str.upper()` on a data-type name and `str(n)` inside the f-strings that
 * build row names (`Register_<address>`, `<name>[<i>]`). Only ASCII letters
 * change case here.
 */
module Text {

  predicate IsLowerAscii(c: char) { 'a' <= c <= 'z' }

  predicate IsDigit(c: char) { '0' <= c <= '9' }

  /** `c.upper()` for ASCII `c`: a lower-case letter becomes its capital, anything else stays. */
  function UpperChar(c: char): (u: char)
    ensures !IsLowerAscii(u)
    ensures IsLowerAscii(c) ==> u as int == c as int - 32
    ensures !IsLowerAscii(c) ==> u == c
  {
    if IsLowerAscii(c) then (c as int - 32) as char else c
  }

  /** `s.upper()`: the same string with every ASCII lower-case letter capitalised. */
  function Upper(s: string): (u: string)
    ensures |u| == |s|
    ensures forall i :: 0 <= i < |s| ==> u[i] == UpperChar(s[i])
    ensures forall i :: 0 <= i < |u| ==> !IsLowerAscii(u[i])
  {
    if s == [] then [] else [UpperChar(s[0])] + Upper(s[1..])
  }

  /** Upper-casing twice is upper-casing once. */
  lemma UpperIdempotent(s: string)
    ensures Upper(Upper(s)) == Upper(s)
  {
    var u := Upper(s);
    assert forall i :: 0 <= i < |u| ==> Upper(u)[i] == u[i];
  }

  /** A string with no lower-case letter is its own upper-case form. */
  lemma UpperOfUpperCase(s: string)
    requires forall i :: 0 <= i < |s| ==> !IsLowerAscii(s[i])
    ensures Upper(s) == s
  {
    assert forall i :: 0 <= i < |s| ==> Upper(s)[i] == s[i];
  }

  // ------------------------------------------------------------ str(int)

  function DigitChar(d: nat): (c: char)
    requires d < 10
    ensures IsDigit(c) && c as int == '0' as int + d
  {
    ('0' as int + d) as char
  }

  function DigitValue(c: char): (d: nat)
    requires IsDigit(c)
    ensures d < 10 && DigitChar(d) == c
  {
    c as int - '0' as int
  }

  /** The number a string of decimal digits denotes, most significant digit first. */
  function DecimalValue(s: string): nat
    requires forall i :: 0 <= i < |s| ==> IsDigit(s[i])
  {
    if s == [] then 0 else DecimalValue(s[..|s| - 1]) * 10 + DigitValue(s[|s| - 1])
  }

  /** `str(n)` for a natural number: its digits without leading zeros. */
  function NatToDecimal(n: nat): (s: string)
    ensures |s| >= 1
    ensures forall i :: 0 <= i < |s| ==> IsDigit(s[i])
    ensures s[0] == '0' ==> s == "0"
    ensures DecimalValue(s) == n
  {
    if n < 10 then [DigitChar(n)]
    else
      var s := NatToDecimal(n / 10) + [DigitChar(n % 10)];
      assert s[..|s| - 1] == NatToDecimal(n / 10);
      s
  }

  /** `str(n)`: a minus sign for negatives, then the digits of the magnitude. */
  function IntToDecimal(n: int): (s: string)
    ensures |s| >= 1
    ensures s[0] == '-' <==> n < 0
    ensures n >= 0 ==> s == NatToDecimal(n)
    ensures n < 0 ==> s[1..] == NatToDecimal(-n)
  {
    if n < 0 then "-" + NatToDecimal(-n) else NatToDecimal(n)
  }

  /** `int(s)` for an optional minus sign followed by decimal digits. */
  function ParseDecimal(s: string): (n: int)
    requires |s| >= 1
    requires forall i :: 1 <= i < |s| ==> IsDigit(s[i])
    requires s[0] == '-' || IsDigit(s[0])
  {
    if s[0] == '-' then 0 - DecimalValue(s[1..]) as int else DecimalValue(s)
  }

  /** Reading back what `str` wrote gives the number: `int(str(n)) == n`. */
  lemma DecimalRoundTrip(n: int)
    ensures ParseDecimal(IntToDecimal(n)) == n
  {
  }

  /** Distinct numbers give distinct strings. */
  lemma IntToDecimalInjective(m: int, n: int)
    requires IntToDecimal(m) == IntToDecimal(n)
    ensures m == n
  {
    DecimalRoundTrip(m);
    DecimalRoundTrip(n);
  }
}
