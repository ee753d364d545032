/** Big integers across the JS boundary as one-key marker objects (oj-plugin-ffi/src/jsint.rs). */
module JsInt {
  import opened Wrappers
  import opened Text
  import opened Json
  import opened Decimal

  const I64_MARKER := "$oj$i64"
  const U64_MARKER := "$oj$u64"

  /** An optional minus sign and no leading zero; neither `-0` nor the empty text. */
  predicate IsCanonicalDecimal(s: string) {
    var minus := StripPrefix(s, "-");
    var digits := if minus.Some? then minus.value else s;
    && !(minus.Some? && minus.value == "0")
    && digits != "" && AllDigits(digits)
    && (digits == "0" || digits[0] != '0')
  }

  function MarkerStr(v: Json, key: string): Option<string> {
    if !v.Obj? || |v.fields| != 1 then None
    else match Lookup(v.fields, key)
      case Some(Str(s)) => if IsCanonicalDecimal(s) then Some(s) else None
      case _ => None
  }

  function MarkerI64(v: Json): Option<int> {
    match MarkerStr(v, I64_MARKER)
    case Some(s) => ParseI64(s)
    case None => None
  }

  function MarkerU64(v: Json): Option<int> {
    match MarkerStr(v, U64_MARKER)
    case Some(s) => ParseU64(s)
    case None => None
  }

  /** What the JS side sends for an integer. */
  function Marker(key: string, i: int): Json {
    Obj([Field(key, Str(PrintInt(i)))])
  }

  lemma MarkerStrShape(v: Json, key: string)
    ensures MarkerStr(v, key).Some? ==> v == Obj([Field(key, Str(MarkerStr(v, key).value))])
  {
    if MarkerStr(v, key).Some? {
      assert v.fields == [v.fields[0]];
    }
  }

  /** The integer a canonical text denotes. */
  function CanonicalValue(s: string): int
    requires IsCanonicalDecimal(s)
  {
    if s[0] == '-' then 0 - DigitsValue(s[1..]) else DigitsValue(s)
  }

  lemma MinusForm(s: string)
    ensures StripPrefix(s, "-") == if s != "" && s[0] == '-' then Some(s[1..]) else None
  {
    if s != "" && s[0] == '-' {
      assert "-" <= s;
    }
  }

  /** A canonical text is the print of its value, and both parsers agree with it within their ranges. */
  lemma CanonicalParses(s: string)
    requires IsCanonicalDecimal(s)
    ensures var i := CanonicalValue(s);
            && s == PrintInt(i)
            && ParseI64(s) == (if I64_MIN <= i <= I64_MAX then Some(i) else None)
            && ParseU64(s) == (if 0 <= i <= U64_MAX then Some(i) else None)
  {
    MinusForm(s);
    if s[0] == '-' {
      ValuePrinted(s[1..]);
      assert s == "-" + s[1..];
      assert !IsAsciiDigit(s[0]);
    } else {
      ValuePrinted(s);
      assert s[0] != '+' by {
        assert IsAsciiDigit(s[0]);
      }
    }
  }

  lemma PrintIntIsCanonical(i: int)
    ensures IsCanonicalDecimal(PrintInt(i)) && CanonicalValue(PrintInt(i)) == i
  {
    var s := PrintInt(i);
    MinusForm(s);
    PrintedValue(if i < 0 then 0 - i else i);
    if i < 0 {
      assert s[1..] == PrintNat(0 - i);
      assert s[1..][0] != '0';
    } else {
      assert IsAsciiDigit(s[0]);
    }
  }

  lemma LookupSingle(key: string, val: Json)
    ensures Lookup([Field(key, val)], key) == Some(val)
  {
  }

  /**
    Decoding is a bijection: a value decodes to `i` exactly when `i` is in range and the value is the
    marker object holding the decimal print of `i`. Everything else -- non-canonical spellings,
    numbers out of range, other keys, more keys -- is refused.
   */
  lemma MarkerI64Bijection(v: Json, i: int)
    ensures MarkerI64(v) == Some(i) <==> I64_MIN <= i <= I64_MAX && v == Marker(I64_MARKER, i)
  {
    MarkerStrShape(v, I64_MARKER);
    if MarkerI64(v) == Some(i) {
      CanonicalParses(MarkerStr(v, I64_MARKER).value);
    }
    if I64_MIN <= i <= I64_MAX && v == Marker(I64_MARKER, i) {
      LookupSingle(I64_MARKER, Str(PrintInt(i)));
      PrintIntIsCanonical(i);
      CanonicalParses(PrintInt(i));
    }
  }

  lemma MarkerU64Bijection(v: Json, i: int)
    ensures MarkerU64(v) == Some(i) <==> 0 <= i <= U64_MAX && v == Marker(U64_MARKER, i)
  {
    MarkerStrShape(v, U64_MARKER);
    if MarkerU64(v) == Some(i) {
      CanonicalParses(MarkerStr(v, U64_MARKER).value);
    }
    if 0 <= i <= U64_MAX && v == Marker(U64_MARKER, i) {
      LookupSingle(U64_MARKER, Str(PrintInt(i)));
      PrintIntIsCanonical(i);
      CanonicalParses(PrintInt(i));
    }
  }

  /** Instances: the marker objects as they are written, and a spelling that is refused. */
  lemma MarkerExamples()
    ensures MarkerI64(Obj([Field("$oj$i64", Str("-907"))])) == Some(-907)
    ensures MarkerU64(Obj([Field("$oj$u64", Str("907"))])) == Some(907)
    ensures MarkerI64(Obj([Field("$oj$i64", Str("0907"))])) == None
  {
    assert PrintNat(9) == "9" && PrintNat(90) == "90" && PrintNat(907) == "907";
    assert "-" + PrintNat(907) == "-907";
    assert PrintInt(-907) == "-907" && PrintInt(907) == "907";
    MarkerI64Bijection(Obj([Field("$oj$i64", Str("-907"))]), -907);
    MarkerU64Bijection(Obj([Field("$oj$u64", Str("907"))]), 907);
    LookupSingle("$oj$i64", Str("0907"));
    MinusForm("0907");
  }
}
