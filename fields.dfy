/** The field kinds: each field's three-way decision (required and missing,
    optional and missing, present) and the kind-specific coercion rules. */
module Fields {
  import opened Values
  import opened Numerals
  import Urls
  import Base64

  /** The host services the field kinds call into, which this model does not
      define: `re.match(pattern, value)` succeeding, `datetime.strptime(value,
      pattern)` (None where it raises) and `json.loads(value)` (None where it
      raises). */
  datatype Env = Env(
    reMatch: (string, string) -> bool,
    strptime: (string, string) -> Option<DateTime>,
    jsonLoads: string -> Option<Json>)

  /** EmailFiled's class-level pattern. */
  const EmailPattern: string := "^(\\w-*\\.*)+@(\\w-?)+(\\.\\w{2,})+$"

  /** The texts BooleanField maps to False. */
  const FalseTokens: seq<string> := ["0", "false", "null"]

  /** One variant per field class, carrying the constructor arguments that
      class reads. A length or value bound of 0 and an empty `regexp` are
      unset, as Python's truth test on them is. `DateKind` and `DateTimeKind`
      carry the instance's `pattern` argument, which hides the class-level
      format strings. */
  datatype Kind =
    | CharKind(minLength: int, maxLength: int, regexp: string)
    | IntegerKind(minValue: int, maxValue: int)
    | DecimalKind(maxDigits: int, decimalPlaces: int)
    | BooleanKind
    | ChoiceKind(choices: seq<string>)
    | EmailKind(regexp: string)
    | UrlKind(regexp: string)
    | DateKind(pattern: string)
    | DateTimeKind(pattern: string)
    | JsonKind
    | Base64Kind

  /** A declared field. An empty `errorMessage` is unset. */
  datatype Field = Field(kind: Kind, required: bool, default: Value, errorMessage: string)

  /** `"parameter %s is required" % k` */
  function RequiredMessage(k: string): (m: string)
    ensures m != ""
  {
    "parameter " + k + " is required"
  }

  /** `self.error_message or "parameter %s not valid" % k` */
  function InvalidMessage(errorMessage: string, k: string): (m: string)
    ensures m != ""
    ensures errorMessage != "" ==> m == errorMessage
  {
    if errorMessage != "" then errorMessage else "parameter " + k + " not valid"
  }

  /** The two generic messages never coincide, so a caller can tell a missing
      parameter from a rejected one. */
  lemma MessagesDiffer(k: string)
    ensures RequiredMessage(k) != InvalidMessage("", k)
  {
    var at := |"parameter "| + |k| + 1;
    assert RequiredMessage(k)[at] == 'i';
    assert InvalidMessage("", k)[at] == 'n';
  }

  // ----- IntegerField -----

  /** Both bounds are exclusive, and a bound equal to 0 is unset. */
  predicate WithinExclusive(n: int, minValue: int, maxValue: int)
  {
    (minValue == 0 || minValue < n) && (maxValue == 0 || n < maxValue)
  }

  /** IntegerField.run_validate: `int(value)`, then fail when a set bound is
      reached or crossed. */
  function IntegerRule(minValue: int, maxValue: int, value: string): (r: Option<int>)
    ensures r.Some? <==> ParseInt(value).Some? && WithinExclusive(ParseInt(value).value, minValue, maxValue)
    ensures r.Some? ==> r == ParseInt(value)
  {
    match ParseInt(value)
    case None => None
    case Some(n) =>
      if (minValue != 0 && n <= minValue) || (maxValue != 0 && n >= maxValue) then None else Some(n)
  }

  /** On the spelling of any integer of at most MaxIntDigits digits,
      IntegerField accepts exactly the integers strictly between the set
      bounds, and yields that integer. */
  lemma IntegerAcceptsExactly(minValue: int, maxValue: int, n: int)
    requires DigitCount(n) <= MaxIntDigits
    ensures IntegerRule(minValue, maxValue, IntToString(n)) ==
      (if WithinExclusive(n, minValue, maxValue) then Some(n) else None)
  {
    ParseIntRoundTrip(n);
  }

  /** IntegerField rejects the spelling of every integer of more than
      MaxIntDigits digits, whatever its bounds. */
  lemma IntegerRejectsLong(minValue: int, maxValue: int, n: int)
    requires DigitCount(n) > MaxIntDigits
    ensures IntegerRule(minValue, maxValue, IntToString(n)) == None
  {
    ParseIntRefusesLong(n);
  }

  // ----- CharField -----

  /** CharField.run_validate's test as written: the regexp when one is set
      (length is then ignored), otherwise an OR of the two length bounds. */
  function CharAcceptsAsWritten(minLength: int, maxLength: int, regexp: string, value: string, env: Env): (ok: bool)
    ensures regexp != "" ==> (ok <==> env.reMatch(regexp, value))
    ensures regexp == "" && minLength == 0 && maxLength == 0 ==> !ok
    ensures regexp == "" && minLength != 0 && maxLength == 0 ==> (ok <==> |value| >= minLength)
    ensures regexp == "" && minLength == 0 && maxLength != 0 ==> (ok <==> |value| <= maxLength)
    ensures regexp == "" && minLength != 0 && maxLength != 0 ==>
      (ok <==> |value| >= minLength || |value| <= maxLength)
  {
    if regexp != "" then env.reMatch(regexp, value)
    else
      var l := |value|;
      (minLength != 0 && l >= minLength) || (maxLength != 0 && l <= maxLength)
  }

  /** As written, setting both bounds with minLength <= maxLength + 1 turns the
      length check off: every text is accepted, however long or short. */
  lemma CharBothBoundsAcceptAll(minLength: int, maxLength: int, value: string, env: Env)
    requires minLength != 0 && maxLength != 0 && minLength <= maxLength + 1
    ensures CharAcceptsAsWritten(minLength, maxLength, "", value, env)
  {
  }

  /** CharField's test with the evident intent of its two bounds: the length
      must lie between the set bounds, both ends included. With no regexp and
      no bound nothing is accepted, as in the code. */
  function CharAccepts(minLength: int, maxLength: int, regexp: string, value: string, env: Env): (ok: bool)
    ensures regexp != "" ==> (ok <==> env.reMatch(regexp, value))
    ensures regexp == "" ==>
      (ok <==> (minLength != 0 || maxLength != 0) &&
               (minLength == 0 || |value| >= minLength) && (maxLength == 0 || |value| <= maxLength))
  {
    if regexp != "" then env.reMatch(regexp, value)
    else
      var l := |value|;
      (minLength != 0 || maxLength != 0) &&
      (minLength == 0 || l >= minLength) && (maxLength == 0 || l <= maxLength)
  }

  /** The intended rule differs from the written one only when both bounds
      are set, and then it only rejects more. */
  lemma CharAcceptsRefinesAsWritten(minLength: int, maxLength: int, regexp: string, value: string, env: Env)
    ensures CharAccepts(minLength, maxLength, regexp, value, env) ==>
      CharAcceptsAsWritten(minLength, maxLength, regexp, value, env)
    ensures regexp != "" || minLength == 0 || maxLength == 0 ==>
      CharAccepts(minLength, maxLength, regexp, value, env) ==
      CharAcceptsAsWritten(minLength, maxLength, regexp, value, env)
  {
  }

  // ----- DecimalField -----

  /** DecimalField.run_validate: a length check on the whole text, a check on
      the digits after the last point, then `decimal.Decimal(value)`. */
  function DecimalRule(maxDigits: int, decimalPlaces: int, value: string): (r: Option<Decimal>)
    ensures |value| > maxDigits + 1 ==> r.None?
    ensures '.' in value && |AfterLastDot(value)| > decimalPlaces ==> r.None?
    ensures r.Some? ==> r == ParseDecimal(value) && (r.value.scale == 0 || r.value.scale <= decimalPlaces)
  {
    if |value| > maxDigits + 1 then None
    else if '.' in value && |AfterLastDot(value)| > decimalPlaces then None
    else
      DecimalScaleIsFractionLength(value);
      ParseDecimal(value)
  }

  /** On any text `decimal.Decimal` accepts, DecimalField accepts exactly
      when the text is at most `max_digits + 1` characters long and, if it has
      a point, the parsed scale is at most `decimal_places`. */
  lemma DecimalRuleOnParsed(maxDigits: int, decimalPlaces: int, s: string, d: Decimal)
    requires ParseDecimal(s) == Some(d)
    ensures DecimalRule(maxDigits, decimalPlaces, s) ==
      if |s| <= maxDigits + 1 && ('.' !in s || d.scale <= decimalPlaces) then Some(d) else None
  {
    DecimalScaleIsFractionLength(s);
  }

  /** Assembled decimal text holds a `.` exactly when it was given a point. */
  lemma PointInText(negative: bool, whole: string, point: bool, fraction: string)
    requires AllDigits(whole) && AllDigits(fraction)
    ensures '.' in DecimalText(negative, whole, point, fraction) <==> point
  {
    var s := DecimalText(negative, whole, point, fraction);
    var sign := if negative then "-" else "";
    var rest := if point then "." + fraction else "";
    assert s == sign + whole + rest;
    if point {
      assert s[|sign| + |whole|] == '.';
    } else {
      forall i | 0 <= i < |s| ensures s[i] != '.' {
        if i >= |sign| { assert s[i] == whole[i - |sign|]; }
      }
    }
  }

  /** On decimal text assembled from a sign, whole digits and an optional
      point with fractional digits, DecimalField accepts exactly when the text
      is at most `max_digits + 1` characters long and, if it has a point, the
      fractional digits are at most `decimal_places`; it then yields the
      decimal those digits spell. */
  lemma DecimalAcceptsText(maxDigits: int, decimalPlaces: int,
                           negative: bool, whole: string, point: bool, fraction: string)
    requires AllDigits(whole) && AllDigits(fraction) && |whole| + |fraction| > 0
    requires !point ==> fraction == ""
    ensures AllDigits(whole + fraction)
    ensures var s := DecimalText(negative, whole, point, fraction);
      DecimalRule(maxDigits, decimalPlaces, s) ==
        if |s| <= maxDigits + 1 && (!point || |fraction| <= decimalPlaces)
        then Some(Decimal(negative, DigitsValue(whole + fraction), |fraction|))
        else None
  {
    var s := DecimalText(negative, whole, point, fraction);
    ParseDecimalText(negative, whole, point, fraction);
    PointInText(negative, whole, point, fraction);
    DecimalRuleOnParsed(maxDigits, decimalPlaces, s, Decimal(negative, DigitsValue(whole + fraction), |fraction|));
  }

  /** With `max_digits` left at 0, only texts of at most one character pass:
      0 does not mean "unset" here, unlike the other numeric arguments. */
  lemma DecimalDefaultMaxDigits(decimalPlaces: int, value: string)
    requires DecimalRule(0, decimalPlaces, value).Some?
    ensures |value| <= 1 && '.' !in value
  {
    if '.' in value {
      DecimalScaleIsFractionLength(value);
    }
  }

  // ----- Dispatch -----

  /** run_validate's coercion for each kind, as the code is written:
      Some(coerced value) on success, None where run_validate returns its
      failure message. */
  function Coerce(kind: Kind, value: string, env: Env): (r: Option<Value>)
    ensures r.Some? ==> CoercedShape(kind, value, env, r.value)
  {
    match kind
    case CharKind(minLength, maxLength, regexp) =>
      if CharAcceptsAsWritten(minLength, maxLength, regexp, value, env) then Some(Text(value)) else None
    case IntegerKind(minValue, maxValue) =>
      (match IntegerRule(minValue, maxValue, value)
       case Some(n) => Some(Int(n))
       case None => None)
    case DecimalKind(maxDigits, decimalPlaces) =>
      (match DecimalRule(maxDigits, decimalPlaces, value)
       case Some(d) => Some(Dec(d))
       case None => None)
    case BooleanKind =>
      Some(Bool(value !in FalseTokens))
    case ChoiceKind(choices) =>
      if value in choices then Some(Text(value)) else None
    case EmailKind(regexp) =>
      if env.reMatch(if regexp != "" then regexp else EmailPattern, value) then Some(Text(value)) else None
    case UrlKind(regexp) =>
      var matched := if regexp != "" then env.reMatch(regexp, value) else Urls.Matches(value);
      if matched then Some(Text(value)) else None
    case DateKind(pattern) =>
      (match env.strptime(value, pattern)
       case Some(t) => Some(Moment(t))
       case None => None)
    case DateTimeKind(pattern) =>
      (match env.strptime(value, pattern)
       case Some(t) => Some(Moment(t))
       case None => None)
    case JsonKind =>
      (match env.jsonLoads(value)
       case Some(j) => Some(Document(j))
       case None => None)
    case Base64Kind =>
      // The decode step names a variable that does not exist; the bare
      // `except` swallows the NameError, so every value is rejected.
      None
  }

  /** The value each kind yields from the text it was given: the text itself
      for the text kinds, the parsed number for the numeric kinds, the flag,
      the host's moment or document. Base64Field as written yields nothing. */
  predicate CoercedShape(kind: Kind, value: string, env: Env, v: Value)
  {
    match kind
    case CharKind(_, _, _) => v == Text(value)
    case ChoiceKind(_) => v == Text(value)
    case EmailKind(_) => v == Text(value)
    case UrlKind(_) => v == Text(value)
    case IntegerKind(_, _) => v.Int? && ParseInt(value) == Some(v.i)
    case DecimalKind(_, _) => v.Dec? && ParseDecimal(value) == Some(v.d)
    case BooleanKind => v == Bool(value !in FalseTokens)
    case DateKind(pattern) => v.Moment? && env.strptime(value, pattern) == Some(v.t)
    case DateTimeKind(pattern) => v.Moment? && env.strptime(value, pattern) == Some(v.t)
    case JsonKind => v.Document? && env.jsonLoads(value) == Some(v.j)
    case Base64Kind => false
  }

  /** The coercion with the two defects of the code repaired: CharField
      checks both length bounds, and Base64Field decodes the value it was
      given. Every other kind is coerced as written. */
  function CoerceIntended(kind: Kind, value: string, env: Env): Option<Value>
  {
    match kind
    case CharKind(minLength, maxLength, regexp) =>
      if CharAccepts(minLength, maxLength, regexp, value, env) then Some(Text(value)) else None
    case Base64Kind =>
      (match Base64.Decode(value)
       case Some(b) => Some(Bytes(b))
       case None => None)
    case _ => Coerce(kind, value, env)
  }

  /** The repaired coercion agrees with the written one on every kind but
      CharField and Base64Field; on CharField it accepts only what the
      written one accepts, with the same value. */
  lemma IntendedRefines(kind: Kind, value: string, env: Env)
    ensures !kind.CharKind? && !kind.Base64Kind? ==> CoerceIntended(kind, value, env) == Coerce(kind, value, env)
    ensures kind.CharKind? && CoerceIntended(kind, value, env).Some? ==>
      Coerce(kind, value, env) == CoerceIntended(kind, value, env)
  {
    if kind.CharKind? {
      CharAcceptsRefinesAsWritten(kind.minLength, kind.maxLength, kind.regexp, value, env);
    }
  }

  /** With `min_length=3, max_length=10` the written CharField lets a
      20-character text through; the repaired one rejects it. */
  lemma CharBoundsCounterexample(env: Env)
    ensures var v := "abcdefghijklmnopqrst";
      |v| == 20 && Coerce(CharKind(3, 10, ""), v, env) == Some(Text(v)) &&
      CoerceIntended(CharKind(3, 10, ""), v, env) == None
  {
  }

  /** run_validate: the coerced value, or the field's fallback message. */
  function RunValidate(f: Field, k: string, value: string, env: Env): (r: Outcome)
    ensures r.Err? ==> r.message == InvalidMessage(f.errorMessage, k)
    ensures r.Ok? <==> Coerce(f.kind, value, env).Some?
    ensures r.Ok? ==> r.value == Coerce(f.kind, value, env).value
  {
    match Coerce(f.kind, value, env)
    case Some(v) => Ok(v)
    case None => Err(InvalidMessage(f.errorMessage, k))
  }

  /** Field.validate on the input mapping. */
  function Validate(f: Field, k: string, input: map<string, string>, env: Env): (r: Outcome)
    ensures r.Err? ==> r.message != ""
  {
    if f.required && k !in input then Err(RequiredMessage(k))
    else if !f.required && k !in input then Ok(f.default)
    else RunValidate(f, k, input[k], env)
  }

  /** validate fails exactly for a missing required key or a present value
      its kind rejects, with the matching message; otherwise it yields the
      default for a missing key and the coerced value for a present one. */
  lemma ValidateSpec(f: Field, k: string, input: map<string, string>, env: Env)
    ensures var r := Validate(f, k, input, env);
      (r.Err? <==> (k !in input && f.required) || (k in input && Coerce(f.kind, input[k], env).None?)) &&
      (r.Err? ==> r.message == (if k in input then InvalidMessage(f.errorMessage, k) else RequiredMessage(k))) &&
      (r.Ok? && k !in input ==> r.value == f.default) &&
      (r.Ok? && k in input ==> r == Ok(Coerce(f.kind, input[k], env).value) &&
                               CoercedShape(f.kind, input[k], env, r.value))
  {
  }

  // ----- Properties of validate -----

  /** A required field whose key is missing fails with the required message,
      whatever its kind, its own message and the rest of the input. */
  lemma RequiredMissing(f: Field, k: string, input: map<string, string>, env: Env)
    requires f.required && k !in input
    ensures Validate(f, k, input, env) == Err(RequiredMessage(k))
  {
  }

  /** An optional field whose key is missing yields its default without
      consulting its kind: any other kind gives the same outcome. */
  lemma OptionalMissing(f: Field, other: Kind, k: string, input: map<string, string>, env: Env)
    requires !f.required && k !in input
    ensures Validate(f, k, input, env) == Ok(f.default)
    ensures Validate(f.(kind := other), k, input, env) == Validate(f, k, input, env)
  {
  }

  /** A present key is judged by run_validate alone, required or not. */
  lemma PresentDelegates(f: Field, k: string, input: map<string, string>, env: Env)
    requires k in input
    ensures Validate(f, k, input, env) == RunValidate(f, k, input[k], env)
    ensures Validate(f.(required := !f.required), k, input, env) == Validate(f, k, input, env)
  {
  }

  /** validate reads only its own key: two inputs that agree on k give the
      same outcome. */
  lemma ValidateLocal(f: Field, k: string, input: map<string, string>, other: map<string, string>, env: Env)
    requires (k in input <==> k in other) && (k in input ==> input[k] == other[k])
    ensures Validate(f, k, input, env) == Validate(f, k, other, env)
  {
  }

  // ----- Properties of the individual kinds -----

  /** BooleanField never fails; it yields False exactly for "0", "false" and
      "null". */
  lemma BooleanNeverFails(k: string, f: Field, value: string, env: Env)
    requires f.kind == BooleanKind
    ensures RunValidate(f, k, value, env) == Ok(Bool(!(value == "0" || value == "false" || value == "null")))
  {
  }

  /** ChoiceField accepts exactly the listed texts and returns them unchanged. */
  lemma ChoiceMembership(f: Field, k: string, value: string, env: Env)
    requires f.kind.ChoiceKind?
    ensures RunValidate(f, k, value, env) ==
      (if value in f.kind.choices then Ok(Text(value)) else Err(InvalidMessage(f.errorMessage, k)))
  {
  }

  /** Base64Field as written fails on every value, with its failure message. */
  lemma Base64AlwaysFails(f: Field, k: string, value: string, env: Env)
    requires f.kind == Base64Kind
    ensures RunValidate(f, k, value, env) == Err(InvalidMessage(f.errorMessage, k))
  {
  }

  /** The written field rejects even the Base64 encoding of a byte string,
      which a decoder applied to the value accepts and turns back into the
      same bytes. */
  lemma Base64AsWrittenRejectsEncoded(f: Field, k: string, bytes: seq<Byte>, env: Env)
    requires f.kind == Base64Kind
    ensures RunValidate(f, k, Base64.Encode(bytes), env).Err?
    ensures Base64.Decode(Base64.Encode(bytes)) == Some(bytes)
  {
    Base64AlwaysFails(f, k, Base64.Encode(bytes), env);
    Base64.DecodeEncode(bytes);
  }

  /** The repaired Base64Field accepts the encoding of every byte string and
      yields exactly those bytes. */
  lemma Base64AcceptsEncoded(bytes: seq<Byte>, env: Env)
    ensures CoerceIntended(Base64Kind, Base64.Encode(bytes), env) == Some(Bytes(bytes))
  {
    Base64.DecodeEncode(bytes);
  }

  /** DateField and DateTimeField behave identically: both parse with the
      instance's `pattern`, which hides the class-level formats. */
  lemma DateKindsAgree(pattern: string, value: string, env: Env)
    ensures Coerce(DateKind(pattern), value, env) == Coerce(DateTimeKind(pattern), value, env)
    ensures Coerce(DateKind(pattern), value, env).Some? <==> env.strptime(value, pattern).Some?
  {
  }

  /** A `regexp` argument replaces the built-in pattern of EmailFiled and
      URLField; without one they use their own. */
  lemma PatternOverride(regexp: string, value: string, env: Env)
    ensures regexp != "" ==>
      Coerce(EmailKind(regexp), value, env).Some? == env.reMatch(regexp, value) &&
      Coerce(UrlKind(regexp), value, env).Some? == env.reMatch(regexp, value)
    ensures Coerce(EmailKind(""), value, env).Some? == env.reMatch(EmailPattern, value)
    ensures Coerce(UrlKind(""), value, env).Some? == Urls.Matches(value)
  {
  }

  /** Worked cases of the integer rule; 10 is rejected with an upper bound
      of 10 because the bounds are exclusive. */
  lemma IntegerExamples()
    ensures IntegerRule(1, 10, "5") == Some(5)
    ensures IntegerRule(1, 10, "11") == None
    ensures IntegerRule(1, 10, "10") == None
    ensures IntegerRule(0, 0, "-7") == Some(-7)
  {
    IntegerAcceptsExactly(1, 10, 5);
    IntegerAcceptsExactly(1, 10, 11);
    IntegerAcceptsExactly(1, 10, 10);
    IntegerAcceptsExactly(0, 0, -7);
  }

  /** A worked case of the decimal rule: "12.34" fits ten digits and two
      places, and yields the coefficient 1234 at scale 2. */
  lemma DecimalExample()
    ensures DecimalRule(10, 2, DecimalText(false, "12", true, "34")) == Some(Decimal(false, 1234, 2))
  {
    DecimalAcceptsText(10, 2, false, "12", true, "34");
    FourDigits();
  }

  lemma FourDigits()
    ensures AllDigits("12" + "34") && DigitsValue("12" + "34") == 1234
  {
    var s := "12" + "34";
    assert s == "1234";
    assert s[..3] == "123" && "123"[..2] == "12" && "12"[..1] == "1" && "1"[..0] == "";
  }

  /** Worked cases of the boolean and choice rules. */
  lemma TokenExamples(env: Env)
    ensures Coerce(BooleanKind, "null", env) == Some(Bool(false))
    ensures Coerce(BooleanKind, "true", env) == Some(Bool(true))
    ensures Coerce(ChoiceKind(["a", "b"]), "c", env) == None
    ensures Coerce(ChoiceKind(["a", "b"]), "a", env) == Some(Text("a"))
  {
  }
}
