/**
 * The .NET number and boolean conversions the variable store performs on a
 * value's text: `ToString()` of integers, decimals and booleans, and
 * `short.Parse`, `int.Parse`, `decimal.Parse` and `bool.Parse` of the
 * invariant-culture texts those produce.
 *
 * Integers are unbounded here; the 16- and 32-bit ranges that decide whether
 * a parse overflows are explicit predicates.
 */
module Numbers {
  import opened Wrappers
  import opened Text

  /** The two exceptions the parsers throw. */
  datatype ParseError = FormatError | OverflowError

  const MinInt16: int := -0x8000
  const MaxInt16: int := 0x7FFF
  const MinInt32: int := -0x8000_0000
  const MaxInt32: int := 0x7FFF_FFFF
  const MaxUInt64: int := 0xFFFF_FFFF_FFFF_FFFF
  /** The largest magnitude of a .NET `decimal`'s 96-bit coefficient. */
  const MaxDecimalUnits: int := 0xFFFF_FFFF_FFFF_FFFF_FFFF_FFFF
  /** The largest scale (digits after the point) of a .NET `decimal`. */
  const MaxDecimalScale: nat := 28

  /** The range of `short`. */
  predicate InInt16(i: int) {
    MinInt16 <= i <= MaxInt16
  }

  /** The range of `int`. */
  predicate InInt32(i: int) {
    MinInt32 <= i <= MaxInt32
  }

  function Abs(i: int): nat {
    if i < 0 then -i else i
  }

  // ---------------------------------------------------------------- digits

  predicate IsDigit(c: char) {
    '0' <= c <= '9'
  }

  predicate AllDigits(s: string) {
    forall k :: 0 <= k < |s| ==> IsDigit(s[k])
  }

  function DigitChar(d: nat): (c: char)
    requires d < 10
    ensures IsDigit(c)
  {
    ('0' as int + d) as char
  }

  function DigitValue(c: char): (d: nat)
    requires IsDigit(c)
    ensures d < 10 && DigitChar(d) == c
  {
    c as int - '0' as int
  }

  /** The decimal digits of `n`, most significant first, with no leading zero. */
  function NatToString(n: nat): (s: string)
    ensures |s| >= 1 && AllDigits(s)
    ensures s[0] == '0' ==> n == 0
  {
    if n < 10 then [DigitChar(n)] else NatToString(n / 10) + [DigitChar(n % 10)]
  }

  /** The number a string of decimal digits denotes (leading zeros allowed). */
  function DigitsValue(s: string): nat
    requires AllDigits(s)
  {
    if s == [] then 0 else DigitsValue(s[..|s| - 1]) * 10 + DigitValue(s[|s| - 1])
  }

  /** Reading back the digits `NatToString` writes gives the number. */
  lemma {:induction false} DigitsValueOfNatToString(n: nat)
    ensures DigitsValue(NatToString(n)) == n
  {
    var s := NatToString(n);
    if n >= 10 {
      assert s[..|s| - 1] == NatToString(n / 10);
      DigitsValueOfNatToString(n / 10);
    }
  }

  /** Leading zeros do not change the number a digit string denotes. */
  lemma {:induction false} DigitsValueOfPadded(zeros: string, s: string)
    requires AllDigits(s)
    requires forall k :: 0 <= k < |zeros| ==> zeros[k] == '0'
    ensures AllDigits(zeros + s) && DigitsValue(zeros + s) == DigitsValue(s)
  {
    if s == [] {
      assert zeros + s == zeros;
      if zeros != [] {
        DigitsValueOfPadded(zeros[..|zeros| - 1], []);
        assert zeros[..|zeros| - 1] + [] == zeros[..|zeros| - 1];
      }
    } else {
      DigitsValueOfPadded(zeros, s[..|s| - 1]);
      assert (zeros + s)[..|zeros + s| - 1] == zeros + s[..|s| - 1];
    }
  }

  // ---------------------------------------------------------------- integers

  /** `ToString()` of an integer of any width, invariant culture. */
  function IntToString(i: int): (s: string)
    ensures |s| >= 1
    ensures s[0] == '-' <==> i < 0
  {
    if i < 0 then "-" + NatToString(-i) else NatToString(i)
  }

  /** The optional minus sign split off a numeral. */
  function SplitSign(s: string): (bool, string) {
    if |s| > 0 && s[0] == '-' then (true, s[1..]) else (false, s)
  }

  /** The integer an invariant-culture numeral `[-]digits` denotes, if `s` is one. */
  function ParseInteger(s: string): (r: Option<int>)
    ensures r.Some? ==> |s| >= 1
  {
    var (negative, body) := SplitSign(s);
    if body == [] || !AllDigits(body) then None
    else
      var magnitude: int := DigitsValue(body);
      Some(if negative then -magnitude else magnitude)
  }

  /** Parsing the text of an integer gives the integer back. */
  lemma ParseIntegerOfIntToString(i: int)
    ensures ParseInteger(IntToString(i)) == Some(i)
  {
    DigitsValueOfNatToString(Abs(i));
    if i < 0 {
      assert SplitSign(IntToString(i)).1 == NatToString(-i);
    }
  }

  /** `short.Parse(s)`. */
  function ParseInt16(s: string): (r: Result<int, ParseError>)
    ensures r.Ok? ==> InInt16(r.value) && ParseInteger(s) == Some(r.value)
    ensures r == Err(FormatError) <==> ParseInteger(s).None?
    ensures r == Err(OverflowError) <==> ParseInteger(s).Some? && !InInt16(ParseInteger(s).value)
  {
    match ParseInteger(s)
    case None => Err(FormatError)
    case Some(i) => if InInt16(i) then Ok(i) else Err(OverflowError)
  }

  /** `int.Parse(s)`. */
  function ParseInt32(s: string): (r: Result<int, ParseError>)
    ensures r.Ok? ==> InInt32(r.value) && ParseInteger(s) == Some(r.value)
    ensures r == Err(FormatError) <==> ParseInteger(s).None?
    ensures r == Err(OverflowError) <==> ParseInteger(s).Some? && !InInt32(ParseInteger(s).value)
  {
    match ParseInteger(s)
    case None => Err(FormatError)
    case Some(i) => if InInt32(i) then Ok(i) else Err(OverflowError)
  }

  /** `short.Parse(i.ToString())` succeeds exactly on the 16-bit range, and overflows outside it. */
  lemma ParseInt16OfIntToString(i: int)
    ensures ParseInt16(IntToString(i)) == if InInt16(i) then Ok(i) else Err(OverflowError)
  {
    ParseIntegerOfIntToString(i);
  }

  /** `int.Parse(i.ToString())` succeeds exactly on the 32-bit range, and overflows outside it. */
  lemma ParseInt32OfIntToString(i: int)
    ensures ParseInt32(IntToString(i)) == if InInt32(i) then Ok(i) else Err(OverflowError)
  {
    ParseIntegerOfIntToString(i);
  }

  // ---------------------------------------------------------------- decimals

  /** A .NET `decimal`: the value `units / 10^scale`, trailing zeros kept (1.50 has scale 2). */
  datatype Decimal = Decimal(units: int, scale: nat)

  /** A coefficient and a scale that a .NET `decimal` can hold. */
  predicate ValidDecimal(d: Decimal) {
    Abs(d.units) <= MaxDecimalUnits && d.scale <= MaxDecimalScale
  }

  /** `s` with zeros in front, so that it is at least `width` long. */
  function PadLeft(s: string, width: nat): (r: string)
    ensures |r| >= width && |r| >= |s|
    ensures r == Zeros(|r| - |s|) + s
  {
    if |s| >= width then (assert Zeros(0) + s == s; s) else Zeros(width - |s|) + s
  }

  function Zeros(n: nat): (z: string)
    ensures |z| == n && forall k :: 0 <= k < n ==> z[k] == '0'
  {
    if n == 0 then "" else "0" + Zeros(n - 1)
  }

  /** Padding with zeros keeps a digit string's value. */
  lemma PadLeftValue(digits: string, width: nat)
    requires AllDigits(digits)
    ensures AllDigits(PadLeft(digits, width))
    ensures DigitsValue(PadLeft(digits, width)) == DigitsValue(digits)
  {
    var p := PadLeft(digits, width);
    DigitsValueOfPadded(Zeros(|p| - |digits|), digits);
  }

  /**
   * `d.ToString()`, invariant culture: a minus sign for a negative value,
   * the integer part, and, when the scale is positive, a point followed by
   * exactly `scale` digits.
   */
  function FormatDecimal(d: Decimal): (s: string)
    ensures d.scale == 0 ==> s == IntToString(d.units)
  {
    FormatScaled(d.units < 0, NatToString(Abs(d.units)), d.scale)
  }

  /** The text of a decimal from its sign, the digits of its coefficient and its scale. */
  function FormatScaled(negative: bool, digits: string, scale: nat): string {
    var sign := if negative then "-" else "";
    if scale == 0 then sign + digits
    else PointedText(negative, PadLeft(digits, scale + 1), scale)
  }

  /** A sign, then the digits of `p` with a point before the last `scale` of them. */
  function PointedText(negative: bool, p: string, scale: nat): string
    requires scale < |p|
  {
    (if negative then "-" else "") + p[..|p| - scale] + "." + p[|p| - scale..]
  }

  /**
   * `decimal.Parse(s)` on the invariant-culture grammar `[-]digits[.digits]`
   * (either side of the point may be empty, not both): the coefficient is
   * every digit read as one number, the scale the count of digits after the
   * point. A coefficient beyond 96 bits is an overflow here; .NET instead
   * rounds away excess fraction digits when the integer part fits, a case
   * the texts `Set` parses never reach.
   */
  function ParseDecimal(s: string): (r: Result<Decimal, ParseError>)
    ensures r.Ok? ==> ValidDecimal(r.value)
  {
    var (negative, body) := SplitSign(s);
    var (whole, fraction) := SplitPoint(body);
    ParseDecimalParts(negative, whole, fraction)
  }

  /** The decimal a sign and the digits either side of the point stand for. */
  function ParseDecimalParts(negative: bool, whole: string, fraction: string): (r: Result<Decimal, ParseError>)
    ensures r.Ok? ==> ValidDecimal(r.value)
  {
    var digits := whole + fraction;
    if digits == [] || !AllDigits(digits) || |fraction| > MaxDecimalScale then
      Err(FormatError)
    else
      var units: int := DigitsValue(digits);
      if units > MaxDecimalUnits then Err(OverflowError)
      else Ok(Decimal(if negative then -units else units, |fraction|))
  }

  /** The parts of a numeral before and after its first point (all of it and nothing, without one). */
  function SplitPoint(body: string): (string, string) {
    if '.' in body then
      var i := IndexOf(body, '.');
      (body[..i], body[i + 1..])
    else (body, "")
  }

  lemma NoPointInDigits(s: string)
    requires AllDigits(s)
    ensures '.' !in s
  {
    forall k | 0 <= k < |s| ensures s[k] != '.' {
      assert IsDigit(s[k]);
    }
  }

  lemma SplitSignOfSigned(sign: string, body: string)
    requires sign == "" || sign == "-"
    requires |body| > 0 && IsDigit(body[0])
    ensures SplitSign(sign + body) == (sign == "-", body)
  {
    if sign == "" {
      assert sign + body == body;
    } else {
      assert (sign + body)[1..] == body;
    }
  }

  lemma SplitPointAt(whole: string, fraction: string)
    requires AllDigits(whole)
    ensures SplitPoint(whole + "." + fraction) == (whole, fraction)
  {
    var body := whole + "." + fraction;
    NoPointInDigits(whole);
    assert body[..|whole|] == whole;
    IndexOfFirst(body, '.', |whole|);
    assert body[|whole| + 1..] == fraction;
  }

  /** `decimal.Parse` of a signed numeral with a point. */
  lemma ParseDecimalWithPoint(sign: string, whole: string, fraction: string, units: int)
    requires sign == (if units < 0 then "-" else "")
    requires |whole| > 0 && AllDigits(whole + fraction) && |fraction| <= MaxDecimalScale
    requires DigitsValue(whole + fraction) == Abs(units) <= MaxDecimalUnits
    ensures ParseDecimal(sign + whole + "." + fraction) == Ok(Decimal(units, |fraction|))
  {
    AllDigitsOfPrefix(whole, fraction);
    var body := whole + "." + fraction;
    assert body[0] == whole[0];
    SplitSignOfSigned(sign, body);
    assert sign + whole + "." + fraction == sign + body;
    SplitPointAt(whole, fraction);
    ParseDecimalOfSplit(sign + body, units < 0, body, whole, fraction);
    ParseDecimalPartsOk(whole, fraction, units);
  }

  /** `decimal.Parse` of a signed numeral without a point. */
  lemma ParseDecimalWithoutPoint(sign: string, digits: string, units: int)
    requires sign == (if units < 0 then "-" else "")
    requires |digits| > 0 && AllDigits(digits)
    requires DigitsValue(digits) == Abs(units) <= MaxDecimalUnits
    ensures ParseDecimal(sign + digits) == Ok(Decimal(units, 0))
  {
    SplitSignOfSigned(sign, digits);
    NoPointInDigits(digits);
    assert SplitPoint(digits) == (digits, "");
    ParseDecimalOfSplit(sign + digits, units < 0, digits, digits, "");
    assert digits + "" == digits;
    ParseDecimalPartsOk(digits, "", units);
  }

  /** `ParseDecimal` reads the parts `SplitSign` and `SplitPoint` cut out. */
  lemma ParseDecimalOfSplit(s: string, negative: bool, body: string, whole: string, fraction: string)
    requires SplitSign(s) == (negative, body) && SplitPoint(body) == (whole, fraction)
    ensures ParseDecimal(s) == ParseDecimalParts(negative, whole, fraction)
  {
  }

  /** Digits within range, read as a coefficient and a scale. */
  lemma ParseDecimalPartsOk(whole: string, fraction: string, units: int)
    requires |whole + fraction| > 0 && AllDigits(whole + fraction) && |fraction| <= MaxDecimalScale
    requires DigitsValue(whole + fraction) == Abs(units) <= MaxDecimalUnits
    ensures ParseDecimalParts(units < 0, whole, fraction) == Ok(Decimal(units, |fraction|))
  {
  }

  /** The digits of a numeral before its point are digits. */
  lemma AllDigitsOfPrefix(whole: string, fraction: string)
    requires AllDigits(whole + fraction)
    ensures AllDigits(whole)
  {
    forall k | 0 <= k < |whole| ensures IsDigit(whole[k]) {
      assert whole[k] == (whole + fraction)[k];
    }
  }

  /** Parsing the text of a decimal gives the same decimal back, scale and all. */
  lemma ParseFormatDecimal(d: Decimal)
    requires ValidDecimal(d)
    ensures ParseDecimal(FormatDecimal(d)) == Ok(d)
  {
    var digits := NatToString(Abs(d.units));
    DigitsValueOfNatToString(Abs(d.units));
    assert FormatDecimal(d) == FormatScaled(d.units < 0, digits, d.scale);
    ParseFormatScaled(d, digits);
  }

  /** The text laid out from a decimal's sign, digits and scale parses back to that decimal. */
  lemma ParseFormatScaled(d: Decimal, digits: string)
    requires ValidDecimal(d)
    requires |digits| >= 1 && AllDigits(digits) && DigitsValue(digits) == Abs(d.units)
    ensures ParseDecimal(FormatScaled(d.units < 0, digits, d.scale)) == Ok(d)
  {
    var sign := if d.units < 0 then "-" else "";
    if d.scale == 0 {
      assert FormatScaled(d.units < 0, digits, 0) == sign + digits;
      ParseDecimalWithoutPoint(sign, digits, d.units);
    } else {
      ParseFormatPointed(d, digits);
    }
  }

  /** The same, for a positive scale: the text has a point. */
  lemma ParseFormatPointed(d: Decimal, digits: string)
    requires ValidDecimal(d) && d.scale > 0
    requires AllDigits(digits) && DigitsValue(digits) == Abs(d.units)
    ensures ParseDecimal(FormatScaled(d.units < 0, digits, d.scale)) == Ok(d)
  {
    PadLeftValue(digits, d.scale + 1);
    ParsePointedText(d, PadLeft(digits, d.scale + 1));
  }

  /** A sign and a digit string with a point before its last `scale` digits parse to the decimal they spell. */
  lemma ParsePointedText(d: Decimal, p: string)
    requires ValidDecimal(d) && d.scale > 0
    requires |p| > d.scale && AllDigits(p) && DigitsValue(p) == Abs(d.units)
    ensures ParseDecimal(PointedText(d.units < 0, p, d.scale)) == Ok(d)
  {
    var k := |p| - d.scale;
    assert p[..k] + p[k..] == p;
    ParseDecimalWithPoint(if d.units < 0 then "-" else "", p[..k], p[k..], d.units);
  }

  /** `decimal.Parse(i.ToString())` gives the integer as a decimal with scale 0. */
  lemma ParseDecimalOfIntToString(i: int)
    requires Abs(i) <= MaxDecimalUnits
    ensures ParseDecimal(IntToString(i)) == Ok(Decimal(i, 0))
  {
    ParseFormatDecimal(Decimal(i, 0));
  }

  // ---------------------------------------------------------------- booleans

  /** `b.ToString()`; `bool.Parse` reads it back. */
  function BoolToString(b: bool): (s: string)
    ensures ParseBool(s) == Some(b)
  {
    if b then "True" else "False"
  }

  /** `bool.Parse(s)` on the two texts `bool.ToString()` produces; any other text is a format error. */
  function ParseBool(s: string): (r: Option<bool>)
    ensures r.Some? ==> s == (if r.value then "True" else "False")
    ensures r.None? ==> s != "True" && s != "False"
  {
    if s == "True" then Some(true) else if s == "False" then Some(false) else None
  }
}
