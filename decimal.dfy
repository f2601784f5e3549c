/** Base-10 integers as text: the page-number token read by Python's `int(...)`
    and the text written by `str(...)`. Only an optional sign followed by ASCII
    digits is accepted as a token. */
module Decimal {

  datatype Option<T> = None | Some(value: T)

  predicate IsDigit(c: char) {
    '0' <= c <= '9'
  }

  /** A non-empty run of ASCII digits. */
  predicate IsDigits(t: string) {
    |t| > 0 && forall i :: 0 <= i < |t| ==> IsDigit(t[i])
  }

  /** The value of a run of digits, read most significant digit first. */
  function DigitsValue(t: string): nat
    requires forall i :: 0 <= i < |t| ==> IsDigit(t[i])
  {
    if t == [] then 0
    else
      assert IsDigit(t[|t| - 1]);
      DigitsValue(t[..|t| - 1]) * 10 + (t[|t| - 1] as int - '0' as int)
  }

  /** `int(t)` on a token: a `+` or `-` sign is optional, leading zeros are
      allowed, anything else is refused with None (Python's ValueError). */
  function ParseInt(t: string): Option<int>
  {
    if |t| > 0 && (t[0] == '+' || t[0] == '-') then
      if IsDigits(t[1..]) then
        var v: int := DigitsValue(t[1..]);
        Some(if t[0] == '-' then -v else v)
      else None
    else if IsDigits(t) then Some(DigitsValue(t))
    else None
  }

  /** The digit character of a value below ten. */
  function DigitChar(d: nat): (c: char)
    requires d < 10
    ensures IsDigit(c) && c as int - '0' as int == d
  {
    ('0' as int + d) as char
  }

  /** `str(n)` for a natural number: digits only, no leading zero. */
  function NatToDecimal(n: nat): (t: string)
    ensures IsDigits(t)
    ensures DigitsValue(t) == n
    ensures t[0] == '0' ==> n == 0
  {
    if n < 10 then [DigitChar(n)]
    else
      var t := NatToDecimal(n / 10) + [DigitChar(n % 10)];
      assert t[..|t| - 1] == NatToDecimal(n / 10);
      t
  }

  /** `str(n)`: a minus sign for negative numbers, then the digits of `|n|`. */
  function IntToDecimal(n: int): (t: string)
    ensures |t| > 0 && IsDigit(t[|t| - 1]) && ' ' !in t
    ensures t[0] == '-' <==> n < 0
  {
    if n < 0 then "-" + NatToDecimal(-n) else NatToDecimal(n)
  }

  /** `int(str(n)) == n`: every number's text reads back as that number. */
  lemma ParseIntToDecimal(n: int)
    ensures ParseInt(IntToDecimal(n)) == Some(n)
  {
    if n < 0 {
      assert IntToDecimal(n)[1..] == NatToDecimal(-n);
    }
  }

  /** A leading zero does not change the value of a run of digits. */
  lemma {:induction false} DigitsValueLeadingZero(t: string)
    requires forall i :: 0 <= i < |t| ==> IsDigit(t[i])
    ensures DigitsValue("0" + t) == DigitsValue(t)
    decreases |t|
  {
    if t != [] {
      var n := |t| - 1;
      assert ("0" + t)[..|t|] == "0" + t[..n];
      DigitsValueLeadingZero(t[..n]);
    } else {
      assert "0" + t == "0" && "0"[..0] == [];
    }
  }

  /** `int` accepts a leading zero: `int('0' + str(n)) == n` for `n >= 0`. */
  lemma ParseLeadingZero(n: int)
    requires n >= 0
    ensures ParseInt("0" + IntToDecimal(n)) == Some(n)
  {
    var t := "0" + IntToDecimal(n);
    assert t[0] == '0';
    DigitsValueLeadingZero(IntToDecimal(n));
  }

  /** Different numbers have different texts. */
  lemma IntToDecimalInjective(m: int, n: int)
    requires IntToDecimal(m) == IntToDecimal(n)
    ensures m == n
  {
    ParseIntToDecimal(m);
    ParseIntToDecimal(n);
  }
}
