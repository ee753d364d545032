/** Decimal texts: Rust's integer parsers and printers. */
module Decimal {
  import opened Wrappers
  import opened Text
  import opened Json

  function DigitChar(d: nat): (c: char)
    requires d < 10
    ensures IsAsciiDigit(c) && DigitValue(c) == d
  {
    '0' + d as char
  }

  function DigitValue(c: char): (d: nat)
    requires IsAsciiDigit(c)
    ensures d < 10
    ensures '0' + d as char == c
  {
    (c - '0') as int
  }

  predicate AllDigits(s: string) {
    forall i :: 0 <= i < |s| ==> IsAsciiDigit(s[i])
  }

  function DigitsValue(s: string): nat
    requires AllDigits(s)
  {
    if s == "" then 0 else DigitsValue(s[..|s| - 1]) * 10 + DigitValue(s[|s| - 1])
  }

  function PrintNat(n: nat): (s: string)
    ensures s != "" && AllDigits(s)
    ensures s[0] == '0' <==> n == 0
    ensures n == 0 ==> s == "0"
  {
    if n < 10 then [DigitChar(n)] else PrintNat(n / 10) + [DigitChar(n % 10)]
  }

  function PrintInt(i: int): string {
    if i < 0 then "-" + PrintNat(-i) else PrintNat(i)
  }

  /** `parse::<i64>`: an optional sign, at least one digit, in range. */
  function ParseI64(s: string): (r: Option<int>)
    ensures r.Some? ==> I64_MIN <= r.value <= I64_MAX
  {
    var negative := s != "" && s[0] == '-';
    var digits := if s != "" && (s[0] == '-' || s[0] == '+') then s[1..] else s;
    if digits == "" || !AllDigits(digits) then None
    else
      var v: int := if negative then 0 - DigitsValue(digits) else DigitsValue(digits);
      if I64_MIN <= v <= I64_MAX then Some(v) else None
  }

  /** `parse::<u64>`: only a plus sign is allowed. */
  function ParseU64(s: string): (r: Option<int>)
    ensures r.Some? ==> 0 <= r.value <= U64_MAX
  {
    var digits := if s != "" && s[0] == '+' then s[1..] else s;
    if digits == "" || !AllDigits(digits) || DigitsValue(digits) > U64_MAX then None
    else Some(DigitsValue(digits))
  }

  lemma {:induction false} PrintedValue(n: nat)
    ensures DigitsValue(PrintNat(n)) == n
  {
    var s := PrintNat(n);
    if n < 10 {
      assert s[..0] == "";
    } else {
      PrintedValue(n / 10);
      assert s[..|s| - 1] == PrintNat(n / 10);
    }
  }

  /** Without a leading zero, the value determines the digits. */
  lemma {:induction false} ValuePrinted(s: string)
    requires s != "" && AllDigits(s) && (s == "0" || s[0] != '0')
    ensures PrintNat(DigitsValue(s)) == s
    ensures s != "0" ==> DigitsValue(s) > 0
  {
    var init, last := s[..|s| - 1], s[|s| - 1];
    assert s == init + [last];
    if init == "" {
      assert DigitsValue(s) == DigitValue(last);
      assert [DigitChar(DigitValue(last))] == s;
    } else {
      assert init[0] == s[0];
      ValuePrinted(init);
      var v := DigitsValue(init);
      assert (v * 10 + DigitValue(last)) / 10 == v && (v * 10 + DigitValue(last)) % 10 == DigitValue(last);
    }
  }

  /** The texts an integer is read from: a sign or none, then digits, for a number of the 64-bit range. */
  lemma ParsesIff(s: string, i: int)
    ensures ParseI64(s) == Some(i) <==>
            && -9223372036854775808 <= i <= 9223372036854775807
            && exists digits ::
                 && digits != "" && AllDigits(digits)
                 && ((s == digits && i == DigitsValue(digits)) || (s == "+" + digits && i == DigitsValue(digits))
                     || (s == "-" + digits && i == 0 - DigitsValue(digits)))
  {
    if ParseI64(s) == Some(i) {
      if s[0] == '-' || s[0] == '+' {
        assert s == [s[0]] + s[1..];
      }
    }
    if digits: string :|
      && digits != "" && AllDigits(digits)
      && ((s == digits && i == DigitsValue(digits)) || (s == "+" + digits && i == DigitsValue(digits))
          || (s == "-" + digits && i == 0 - DigitsValue(digits)))
    {
      assert s != digits ==> s[1..] == digits;
      assert s == digits ==> IsAsciiDigit(s[0]);
    }
  }
}
