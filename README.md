# serializer — a verified model of request-parameter validation

`serializer` validates a mapping of request parameters against a schema that
is declared as class attributes. A `Serializer` subclass declares fields such
as `IntegerField(min_value=1, max_value=10)`, `CharField(max_length=20)` or
`BooleanField()`. The constructor snapshots the public attributes into
`__data__`. `is_valid(data)` walks those fields in declaration order (see the version notes below). Each field's
`validate` makes one three-way decision:

- a required field whose key is missing fails with `parameter k is required`;
- an optional field whose key is missing yields its default;
- otherwise the kind-specific `run_validate` coerces the text. On failure it
  answers with the field's `error_message` or `parameter k not valid`.

`is_valid` stops at the first failure and records its message in `error`.
Otherwise `data` ends up holding every field's coerced value.

The model follows Python 3.11 and later, with the interpreter's default
settings. Two of the behaviours it relies on depend on the version:

- Class dictionaries and plain dictionaries keep insertion order from Python
  3.7 on. So the constructor's loop over the class attributes and
  `is_valid`'s loop over `__data__` both visit the fields in declaration
  order, and the order decides which failure `is_valid` reports. Before 3.7
  both loops could run in hash order.
- `int()` on text refuses a numeral of more than 4300 digits with a
  ValueError (the default of `sys.get_int_max_str_digits()`, present from
  3.11 and in the 2022 security releases of 3.7 to 3.10). IntegerField
  catches it, so it rejects such a parameter.

The model is split into six modules:

- `Values` (values.dfy): what crosses the boundary. It defines coerced values,
  decimals, moments, JSON documents and the per-field `Outcome`.
- `Numerals` (numerals.dfy): the host's `int(value)` and
  `decimal.Decimal(value)` on sign-and-digit text, and `value.split(".")[-1]`.
- `Urls` (urls.dfy): URLField's built-in regular expression, written out as
  a prefix matcher.
- `Base64` (base64.dfy): strict standard Base64. It is the decoder Base64Field
  evidently meant to apply to its parameter.
- `Fields` (fields.dfy): the closed set of field kinds with their constructor
  arguments, each kind's rule, `run_validate` and `Field.validate`. The host
  services `re.match`, `datetime.strptime` and `json.loads` come in as an
  `Env` parameter.
- `Serializers` (serializers.dfy): the schema as an ordered sequence of
  `(name, Field)` and the `Serializer` class. Its constructor filters the
  attributes in a loop. Its `IsValid` method runs the fields in a loop with an
  early return and is proved against the specification function `Run`.

The schema, the constructor arguments and every message follow the code:

- Integer bounds are exclusive: a value equal to a set bound is rejected. A
  bound of 0 is unset.
- DecimalField has no range check. It checks the whole text length against
  `max_digits + 1`, so a `max_digits` of 0 allows texts of one character.
- DateField and DateTimeField parse with the instance's `pattern` argument.
  Its default `""` hides the class-level formats.
- Nothing runs before the fields: `is_valid` goes straight to the first
  field's `validate`.
- The two defects listed under "## Findings" are part of the model as
  written. `Coerce`, and therefore `RunValidate`, `Validate`, `Run` and the
  serializer, accept every length with both CharField bounds set and reject
  every value in Base64Field. `CoerceIntended` holds the repaired rules, and
  the lemmas about it state what the code evidently meant.

## Model

| member | source | states |
|---|---|---|
| Numerals.ParseInt | serializer/__init__.py:73 | text `int()` accepts is non-empty, and a negative result comes only from a leading `-` |
| Numerals.ParseIntDigitLimit | serializer/__init__.py:73 | `int()` refuses every numeral of more than 4300 digits, whatever its sign |
| Numerals.DigitsRoundTrip | serializer/__init__.py:73 | the value of an integer's decimal digits is that integer |
| Numerals.ParseSigned | serializer/__init__.py:73 | `int()` of a non-empty digit run, bare or after `+`/`-`, is the run's value with that sign |
| Numerals.ParseIntRoundTrip | serializer/__init__.py:73 | `int()` reads back the spelling of every integer of at most 4300 digits, negative ones included |
| Numerals.ParseIntRefusesLong | serializer/__init__.py:73 | `int()` refuses the spelling of every integer of more than 4300 digits |
| Numerals.AfterLastDot | serializer/__init__.py:120 | `split(".")[-1]` is a dot-free suffix of the text, and a `.` precedes it whenever it is not the whole text |
| Numerals.ParseDecimal | serializer/__init__.py:122 | a parsed decimal's scale is the number of digits after the point and its sign is the leading minus |
| Numerals.ParseDecimalText | serializer/__init__.py:122 | `Decimal()` of sign, whole digits and optional point and fraction has the value of all the digits as coefficient and the fraction's length as scale |
| Numerals.DecimalScaleIsFractionLength | serializer/__init__.py:120-122 | for parsable text, the digits after the last `.` are exactly the parsed scale, and text without `.` has scale 0 |
| Urls.Matches | serializer/__init__.py:127-129 | every text the built-in URL pattern matches has at least 8 characters: a scheme of 3 or more letters, `://` and two more |
| Urls.TailMatchesMeaning | serializer/__init__.py:127 | the matcher after `://` succeeds exactly when a non-empty run of body characters is followed by an end character |
| Urls.MatchesExtends | serializer/__init__.py:127-129 | `re.match` is anchored at the start only: anything appended to a matching text keeps it matching |
| Urls.NeedsScheme | serializer/__init__.py:127 | text that does not start with `https://`, `http://`, `ftp://` or `file://` never matches |
| Urls.Examples | serializer/__init__.py:127 | `http://ab` and `ftp://host/path?q=1` match; `mailto:someone` does not |
| Base64.Encode | serializer/__init__.py:136 | an encoding's length is a multiple of 4 |
| Base64.EncodeLength | serializer/__init__.py:136 | an encoding spends four characters on every started group of three bytes |
| Base64.DecodeLength | serializer/__init__.py:136 | text that `Decode` accepts has a length that is a multiple of 4 and spells three bytes per group of four characters, less at most two for padding |
| Base64.DecodeEncode | serializer/__init__.py:136 | decoding the Base64 encoding of any byte string gives back that byte string |
| Base64.Example | serializer/__init__.py:136 | the bytes `hi` encode to `aGk=` and decode back |
| Fields.RequiredMessage | serializer/__init__.py:58 | the required message is never empty |
| Fields.InvalidMessage | serializer/__init__.py:68 | the failure message is never empty, and a non-empty `error_message` replaces the generic `parameter k not valid` |
| Fields.MessagesDiffer | serializer/__init__.py:58 | the required message and the generic invalid message never coincide |
| Fields.IntegerRule | serializer/__init__.py:70-78 | IntegerField succeeds exactly when `int()` succeeds and the number lies strictly between the set bounds, and yields that number |
| Fields.IntegerAcceptsExactly | serializer/__init__.py:70-78 | on the spelling of any integer n of at most 4300 digits, IntegerField yields n exactly when n is strictly inside the set bounds, and fails otherwise |
| Fields.IntegerRejectsLong | serializer/__init__.py:70-78 | IntegerField rejects the spelling of every integer of more than 4300 digits, whatever its bounds |
| Fields.CharAcceptsAsWritten | serializer/__init__.py:80-89 | as written: with a regexp only the match counts; without one the test is the OR of the set length bounds, and nothing passes when neither is set |
| Fields.CharBothBoundsAcceptAll | serializer/__init__.py:87 | as written, with both bounds set and `min_length <= max_length + 1`, every text passes |
| Fields.CharBoundsCounterexample | serializer/__init__.py:87 | with bounds 3 and 10 the written CharField coercion accepts a 20-character text that the repaired coercion rejects |
| Fields.CharAccepts | serializer/__init__.py:80-89 | intended: with a regexp only the match counts; without one the length must lie within every set bound, and nothing passes when neither is set |
| Fields.CharAcceptsRefinesAsWritten | serializer/__init__.py:87 | the intended test accepts only what the written one accepts, and agrees with it unless both bounds are set |
| Fields.DecimalRule | serializer/__init__.py:115-124 | DecimalField fails when the text is longer than `max_digits + 1` or has more than `decimal_places` characters after its last `.`; on success it yields `Decimal(value)`, whose scale then respects `decimal_places` |
| Fields.DecimalRuleOnParsed | serializer/__init__.py:118-122 | on text `Decimal()` accepts, DecimalField succeeds exactly when the length fits and, if there is a point, the scale fits |
| Fields.DecimalAcceptsText | serializer/__init__.py:115-124 | on sign-digits-point-digits text, DecimalField yields the decimal of those digits exactly when the text fits `max_digits + 1` and any fraction fits `decimal_places` |
| Fields.DecimalDefaultMaxDigits | serializer/__init__.py:118 | with `max_digits` 0 only texts of at most one character and without a point pass |
| Fields.Coerce | serializer/__init__.py:63-153 | as written, each kind yields: the text itself for EmailFiled, URLField, CharField and ChoiceField; the `int()` or `Decimal()` of the text for the numeric kinds; False exactly for `0`, `false` and `null` in BooleanField; exactly what `strptime` or `json.loads` returns; nothing at all in Base64Field |
| Fields.RunValidate | serializer/__init__.py:63-153 | run_validate fails exactly when the kind's coercion fails, then with the field's fallback message, and otherwise yields exactly the coerced value |
| Fields.Validate | serializer/__init__.py:56-61 | a failing validate always carries a non-empty message |
| Fields.ValidateSpec | serializer/__init__.py:56-61 | validate fails exactly for a missing required key or a rejected present value, with the matching message; otherwise it yields the default or the coerced value |
| Fields.RequiredMissing | serializer/__init__.py:57-58 | a required field with a missing key fails with `parameter k is required`, whatever its kind |
| Fields.OptionalMissing | serializer/__init__.py:59-60 | an optional field with a missing key yields its default without consulting its kind |
| Fields.PresentDelegates | serializer/__init__.py:61 | a present key is judged by run_validate alone, whether the field is required or not |
| Fields.ValidateLocal | serializer/__init__.py:56-61 | validate reads only its own key of the input |
| Fields.BooleanNeverFails | serializer/__init__.py:141-145 | BooleanField always succeeds, yielding False exactly for `0`, `false` and `null` |
| Fields.ChoiceMembership | serializer/__init__.py:91-95 | ChoiceField yields the value unchanged when it is listed, and the fallback message otherwise |
| Fields.Base64AlwaysFails | serializer/__init__.py:133-139 | as written, Base64Field fails on every value with its fallback message |
| Fields.Base64AsWrittenRejectsEncoded | serializer/__init__.py:133-139 | as written, the field fails even on the encoding of a byte string, which a decoder of the value turns back into those bytes |
| Fields.Base64AcceptsEncoded | serializer/__init__.py:133-139 | intended: the repaired Base64Field accepts the encoding of every byte string and yields exactly those bytes |
| Fields.IntendedRefines | serializer/__init__.py:63-153 | the repaired coercion agrees with the written one on every kind but CharField and Base64Field, and on CharField accepts only what the written one accepts |
| Fields.DateKindsAgree | serializer/__init__.py:97-113 | DateField and DateTimeField behave identically, and both succeed exactly when `strptime` with the instance pattern does |
| Fields.PatternOverride | serializer/__init__.py:53-54 | a `regexp` argument replaces EmailFiled's and URLField's built-in patterns |
| Fields.IntegerExamples | serializer/__init__.py:70-78 | with bounds 1 and 10, `5` passes while `11` and `10` fail; without bounds `-7` passes |
| Fields.DecimalExample | serializer/__init__.py:115-124 | `12.34` with 10 digits and 2 places yields coefficient 1234 at scale 2 |
| Fields.TokenExamples | serializer/__init__.py:141-145 | `null` gives False and `true` gives True; choices `a`, `b` reject `c` and return `a` unchanged |
| Serializers.PublicFields | serializer/__init__.py:15-17 | the snapshot is no longer than the declarations and holds only public names |
| Serializers.PublicFieldsKeep | serializer/__init__.py:15-17 | a declaration is kept exactly when its name does not start with `_` |
| Serializers.PublicFieldsAppend | serializer/__init__.py:15-17 | filtering keeps declaration order: it distributes over concatenation |
| Serializers.PublicFieldsDistinct | serializer/__init__.py:15-17 | distinct declaration names stay distinct among the kept fields |
| Serializers.Run | serializer/__init__.py:19-29 | a rejected run always carries a non-empty error message |
| Serializers.RunAcceptsIffAllValid | serializer/__init__.py:19-29 | a run succeeds exactly when every field's validate succeeds |
| Serializers.AcceptedStep | serializer/__init__.py:27-28 | each success adds the field's value under its name to the data collected so far |
| Serializers.AcceptedData | serializer/__init__.py:19-29 | on success the data's keys are exactly the declared names, each mapped to the value its field yielded |
| Serializers.RejectedIsFinal | serializer/__init__.py:24-26 | once a run has failed, fields after the failing one change nothing |
| Serializers.FirstFailureWins | serializer/__init__.py:22-26 | when field i is the first to fail, the run reports its message with the data of the fields before it |
| Serializers.StoppedAt | serializer/__init__.py:22-28 | a field that fails after a successful prefix is the first failure, and the data holds exactly the prefix's names |
| Serializers.MissingRequiredFails | serializer/__init__.py:19-29 | a missing required parameter fails the run with its required message unless an earlier field fails first |
| Serializers.Serializer.constructor | serializer/__init__.py:13-17 | the schema is the public declarations in order, with distinct names, and `error` and `data` start empty |
| Serializers.Serializer.IsValid | serializer/__init__.py:19-29 | the new state is the run's verdict; True exactly when every field validates, and then `error` is empty and `data` maps every name to its value; False at the first failing field, with its non-empty message in `error` and exactly the earlier names in `data` |

## Left out

- Input values other than text are not modelled: the input is a `map<string, string>`, so a key mapped to `None` cannot occur and "missing or None" is "key absent". `len(None)` raising in CharField is therefore out too.
- Schema entries that are not fields are not modelled. Nor are the inherited attributes that `__dict__` does not show, or the `label` argument, which no rule reads.
- `re.compile` raising on a malformed `regexp` at construction is not modelled; a regexp is a string handed to `Env.reMatch`.
- The regular-expression engine is not modelled: EmailFiled's pattern and user `regexp`s are matched by the `Env.reMatch` parameter. Only URLField's built-in pattern is written out.
- `datetime.strptime` and `json.loads`/`ujson` are the `Env.strptime` and `Env.jsonLoads` parameters, None where they raise.
- Numerals.ParseInt: accepts only an optional sign and ASCII digits; Python's `int()` also strips whitespace and accepts `_` separators and non-ASCII digits.
- Numerals.ParseDecimal: accepts only an optional sign, ASCII digits and at most one point; `decimal.Decimal()` also accepts exponents, `NaN`, `Infinity`, whitespace and `_` separators.
- Base64.Decode: is the strict decoder; `base64.b64decode` by default first discards characters outside the alphabet.
- Serializers.Serializer.IsValid: `data` is a map, so its key insertion order is not modelled.
- `error` and `data` are unset until the first `is_valid` in the code; the constructor here starts them empty.
- Decimal coefficients and parsed integers are unbounded, as Python's values are. Only `int()`'s limit of 4300 digits on text bounds them, and that limit is modelled. Decimal context precision and rounding are not modelled because parsing a string is exact.
- Numerals.ParseInt: the 4300-digit limit is the interpreter default; a program that changes it with `sys.set_int_max_str_digits` is not modelled.

## Findings

| source | as written | input that shows it | evidently intended | confidence | as-written member | corrected member |
|---|---|---|---|---|---|---|
| serializer/__init__.py:87 | the two length bounds are joined by `or`, so with both set every length satisfies one of them | `CharField(min_length=3, max_length=10)` on a 20-character text is accepted | the length must lie between both bounds | high; not executed | Fields.CharBoundsCounterexample | Fields.CharAccepts |
| serializer/__init__.py:136 | decodes the undefined name `balue`; the NameError is swallowed, so the field fails on every value | `Base64Field()` on `aGk=` fails | decode the parameter `value` and yield its bytes | high; not executed | Fields.Base64AsWrittenRejectsEncoded | Fields.Base64AcceptsEncoded |
