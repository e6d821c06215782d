/** The host's number parsing as the field kinds use it: `int(value)` and
    `decimal.Decimal(value)` on text made of an optional sign, ASCII digits and,
    for decimals, at most one point. */
module Numerals {
  import opened Values

  predicate IsDigit(c: char) { '0' <= c <= '9' }

  predicate AllDigits(s: string) { forall i :: 0 <= i < |s| ==> IsDigit(s[i]) }

  function DigitChar(d: nat): (c: char)
    requires d < 10
    ensures IsDigit(c) && c as int - '0' as int == d
  {
    ('0' as int + d) as char
  }

  /** The value of a run of ASCII digits, most significant first. */
  function DigitsValue(s: string): nat
    requires AllDigits(s)
  {
    if s == [] then 0 else DigitsValue(s[..|s| - 1]) * 10 + (s[|s| - 1] as int - '0' as int)
  }

  /** The shortest spelling of n in ASCII digits. */
  function NatToDigits(n: nat): (s: string)
    ensures 1 <= |s| && AllDigits(s)
    decreases n
  {
    if n < 10 then [DigitChar(n)] else NatToDigits(n / 10) + [DigitChar(n % 10)]
  }

  lemma {:induction false} DigitsRoundTrip(n: nat)
    ensures DigitsValue(NatToDigits(n)) == n
    decreases n
  {
    var s := NatToDigits(n);
    if n >= 10 {
      DigitsRoundTrip(n / 10);
      assert s[..|s| - 1] == NatToDigits(n / 10);
    }
  }

  lemma AllDigitsConcat(a: string, b: string)
    requires AllDigits(a) && AllDigits(b)
    ensures AllDigits(a + b)
  {
    forall i | 0 <= i < |a + b| ensures IsDigit((a + b)[i]) {
      if i >= |a| { assert (a + b)[i] == b[i - |a|]; }
    }
  }

  /** The most digits `int()` converts from text: the default of
      `sys.get_int_max_str_digits()`. Longer numerals raise ValueError. */
  const MaxIntDigits: nat := 4300

  /** `int(value)`: an optional `+` or `-` followed by one to MaxIntDigits
      ASCII digits. */
  function ParseInt(s: string): (r: Option<int>)
    ensures r.Some? ==> |s| > 0 && (r.value < 0 ==> s[0] == '-')
  {
    if |s| > 0 && (s[0] == '+' || s[0] == '-') then
      var digits := s[1..];
      if 0 < |digits| <= MaxIntDigits && AllDigits(digits)
      then
        var magnitude: int := DigitsValue(digits);
        Some(if s[0] == '-' then -magnitude else magnitude)
      else None
    else if 0 < |s| <= MaxIntDigits && AllDigits(s) then Some(DigitsValue(s))
    else None
  }

  /** A numeral of more than MaxIntDigits digits is refused, whatever its
      sign and its digits. */
  lemma ParseIntDigitLimit(s: string)
    requires |Unsigned(s)| > MaxIntDigits
    ensures ParseInt(s) == None
  {
  }

  /** A non-empty run of digits, bare or after one sign character, parses to
      the signed value of the digits. */
  lemma ParseSigned(sign: char, digits: string)
    requires sign == '+' || sign == '-'
    requires 0 < |digits| <= MaxIntDigits && AllDigits(digits)
    ensures var magnitude: int := DigitsValue(digits);
      ParseInt([sign] + digits) == Some(if sign == '-' then -magnitude else magnitude)
    ensures ParseInt(digits) == Some(DigitsValue(digits))
  {
    var s := [sign] + digits;
    assert s[0] == sign && s[1..] == digits;
    assert IsDigit(digits[0]);
  }

  /** `str(n)` for an integer. */
  function IntToString(n: int): (s: string)
    ensures 1 <= |s|
  {
    if n < 0 then ['-'] + NatToDigits(-n) else NatToDigits(n)
  }

  /** The number of decimal digits in the spelling of n. */
  function DigitCount(n: int): nat
  {
    |NatToDigits(if n < 0 then -n else n)|
  }

  /** Every integer spelt in at most MaxIntDigits digits parses back to it. */
  lemma ParseIntRoundTrip(n: int)
    requires DigitCount(n) <= MaxIntDigits
    ensures ParseInt(IntToString(n)) == Some(n)
  {
    if n < 0 {
      NegativeRoundTrip(n);
    } else {
      var digits := NatToDigits(n);
      DigitsRoundTrip(n);
      ParseSigned('+', digits);
    }
  }

  lemma NegativeRoundTrip(n: int)
    requires n < 0 && DigitCount(n) <= MaxIntDigits
    ensures ParseInt(IntToString(n)) == Some(n)
  {
    var digits := NatToDigits(-n);
    DigitsRoundTrip(-n);
    ParseSigned('-', digits);
    assert IntToString(n) == ['-'] + digits;
  }

  /** An integer spelt in more than MaxIntDigits digits does not parse back:
      `int()` refuses its spelling. */
  lemma ParseIntRefusesLong(n: int)
    requires DigitCount(n) > MaxIntDigits
    ensures ParseInt(IntToString(n)) == None
  {
    var s := IntToString(n);
    var digits := NatToDigits(if n < 0 then -n else n);
    if n < 0 {
      assert s[1..] == digits;
    } else {
      assert IsDigit(s[0]);
    }
    ParseIntDigitLimit(s);
  }

  /** Index of the first `.` of s, or |s| when s has none. */
  function FirstDot(s: string): (i: nat)
    ensures i <= |s| && (i < |s| ==> s[i] == '.')
    ensures forall j :: 0 <= j < i ==> s[j] != '.'
  {
    if s == [] || s[0] == '.' then 0 else 1 + FirstDot(s[1..])
  }

  /** `value.split(".")[-1]`: the text after the last `.`, all of s when it has none. */
  function AfterLastDot(s: string): (t: string)
    ensures |t| <= |s| && t == s[|s| - |t|..]
    ensures '.' !in t
    ensures |t| < |s| ==> s[|s| - |t| - 1] == '.'
  {
    if s == [] then []
    else if s[|s| - 1] == '.' then []
    else
      var t := AfterLastDot(s[..|s| - 1]);
      assert s[..|s| - 1][|s| - 1 - |t|..] + [s[|s| - 1]] == s[|s| - |t| - 1..];
      t + [s[|s| - 1]]
  }

  /** Whether decimal text starts with a minus sign. */
  function Sign(s: string): bool { |s| > 0 && s[0] == '-' }

  /** Decimal text without its sign. */
  function Unsigned(s: string): (u: string)
    ensures |u| <= |s| && u == s[|s| - |u|..]
  {
    if |s| > 0 && (s[0] == '+' || s[0] == '-') then s[1..] else s
  }

  /** The digits before the first point. */
  function WholePart(s: string): string
  {
    var u := Unsigned(s);
    u[..FirstDot(u)]
  }

  /** What follows the first point; empty when there is none. */
  function FractionPart(s: string): string
  {
    var u := Unsigned(s);
    var dot := FirstDot(u);
    if dot < |u| then u[dot + 1..] else ""
  }

  /** `decimal.Decimal(value)`: an optional sign, then digits with at most one
      point and at least one digit in all (`5.`, `.5` and `-0` are accepted). */
  function ParseDecimal(s: string): (r: Option<Decimal>)
    ensures r.Some? ==> r.value.scale == |FractionPart(s)| && r.value.negative == Sign(s)
  {
    var whole, fraction := WholePart(s), FractionPart(s);
    if AllDigits(whole) && AllDigits(fraction) && |whole| + |fraction| > 0
    then
      AllDigitsConcat(whole, fraction);
      Some(Decimal(Sign(s), DigitsValue(whole + fraction), |fraction|))
    else None
  }

  /** Decimal text assembled from its parts: a sign, the whole digits and,
      when `point` holds, a point and the fractional digits. */
  function DecimalText(negative: bool, whole: string, point: bool, fraction: string): string
  {
    (if negative then "-" else "") + (whole + (if point then "." + fraction else ""))
  }

  lemma UnsignedAfterSign(negative: bool, tail: string)
    requires |tail| > 0 ==> tail[0] != '+' && tail[0] != '-'
    ensures Unsigned((if negative then "-" else "") + tail) == tail
    ensures Sign((if negative then "-" else "") + tail) == negative
  {
    var s := (if negative then "-" else "") + tail;
    if negative {
      assert s[0] == '-' && s[1..] == tail;
    } else {
      assert s == tail;
    }
  }

  lemma {:induction false} FirstDotAfterDigits(whole: string, rest: string)
    requires AllDigits(whole) && (rest == [] || rest[0] == '.')
    ensures FirstDot(whole + rest) == |whole|
    decreases |whole|
  {
    if whole != [] {
      assert (whole + rest)[0] == whole[0];
      assert (whole + rest)[1..] == whole[1..] + rest;
      FirstDotAfterDigits(whole[1..], rest);
    } else {
      assert whole + rest == rest;
    }
  }

  /** Unsigned text made of whole digits and an optional point with
      fractional digits splits at its first point. */
  lemma SplitUnsigned(whole: string, point: bool, fraction: string)
    requires AllDigits(whole)
    requires !point ==> fraction == ""
    ensures var tail := whole + (if point then "." + fraction else "");
      var dot := FirstDot(tail);
      dot == |whole| && tail[..dot] == whole &&
      (if dot < |tail| then tail[dot + 1..] else "") == fraction &&
      (|tail| > 0 ==> tail[0] != '+' && tail[0] != '-')
  {
    var rest := if point then "." + fraction else "";
    var tail := whole + rest;
    FirstDotAfterDigits(whole, rest);
    assert tail[..|whole|] == whole;
    if point {
      assert tail[|whole| + 1..] == fraction;
    }
    if |whole| > 0 {
      assert tail[0] == whole[0];
    }
  }

  /** Assembled text splits back into the parts it was made of. */
  lemma SplitDecimalText(negative: bool, whole: string, point: bool, fraction: string)
    requires AllDigits(whole) && AllDigits(fraction)
    requires !point ==> fraction == ""
    ensures var s := DecimalText(negative, whole, point, fraction);
      Sign(s) == negative && WholePart(s) == whole && FractionPart(s) == fraction
  {
    var tail := whole + (if point then "." + fraction else "");
    SplitUnsigned(whole, point, fraction);
    UnsignedAfterSign(negative, tail);
  }

  /** Decimal() on assembled text: the coefficient is the value of all the
      digits, the scale the number of fractional digits, the sign the sign. */
  lemma ParseDecimalText(negative: bool, whole: string, point: bool, fraction: string)
    requires AllDigits(whole) && AllDigits(fraction) && |whole| + |fraction| > 0
    requires !point ==> fraction == ""
    ensures AllDigits(whole + fraction)
    ensures ParseDecimal(DecimalText(negative, whole, point, fraction)) ==
      Some(Decimal(negative, DigitsValue(whole + fraction), |fraction|))
  {
    SplitDecimalText(negative, whole, point, fraction);
    AllDigitsConcat(whole, fraction);
  }

  /** The fractional digits DecimalField counts (those after the last point)
      are exactly the parsed decimal's scale. */
  lemma DecimalScaleIsFractionLength(s: string)
    ensures ParseDecimal(s).Some? && '.' in s ==> |AfterLastDot(s)| == ParseDecimal(s).value.scale
    ensures ParseDecimal(s).Some? && '.' !in s ==> ParseDecimal(s).value.scale == 0
  {
    if ParseDecimal(s).Some? {
      var u := Unsigned(s);
      if FirstDot(u) < |u| {
        FractionAfterPoint(s);
      } else {
        PointInUnsigned(s);
      }
    }
  }

  /** A point of the text lies in its unsigned part. */
  lemma PointInUnsigned(s: string)
    requires FirstDot(Unsigned(s)) == |Unsigned(s)|
    ensures '.' !in s && FractionPart(s) == ""
  {
    var u := Unsigned(s);
    forall i | 0 <= i < |s| ensures s[i] != '.' {
      if i >= |s| - |u| { assert s[i] == u[i - (|s| - |u|)]; }
    }
  }

  /** When the unsigned part has a point and what follows the first one is
      all digits, that is also what follows the last one. */
  lemma FractionAfterPoint(s: string)
    requires FirstDot(Unsigned(s)) < |Unsigned(s)| && AllDigits(FractionPart(s))
    ensures AfterLastDot(s) == FractionPart(s)
  {
    var u := Unsigned(s);
    var dot := FirstDot(u);
    var fraction := FractionPart(s);
    assert fraction == u[dot + 1..];
    assert fraction == s[|s| - |fraction|..];
    assert s[|s| - |fraction| - 1] == '.';
    AfterLastDotIsSuffix(s, fraction);
  }

  /** A dot-free suffix right after a point is what `split(".")[-1]` returns. */
  lemma AfterLastDotIsSuffix(s: string, fraction: string)
    requires AllDigits(fraction) && |fraction| < |s|
    requires fraction == s[|s| - |fraction|..] && s[|s| - |fraction| - 1] == '.'
    ensures AfterLastDot(s) == fraction
  {
  }
}
