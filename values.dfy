/** The values that cross the validation boundary: what a field yields when a
    parameter is accepted, and the per-field outcome. */
module Values {

  datatype Option<+T> = None | Some(value: T)

  type Byte = b: int | 0 <= b < 256

  /** A moment as returned by the host's `datetime.strptime`. */
  datatype DateTime = DateTime(year: int, month: int, day: int,
                               hour: int, minute: int, second: int, microsecond: int)

  /** A document as returned by the host's JSON parser. */
  datatype Json =
    | JNull
    | JBool(b: bool)
    | JNumber(literal: string)
    | JString(s: string)
    | JArray(items: seq<Json>)
    | JObject(members: seq<(string, Json)>)

  /** A finite `decimal.Decimal`: (-1)^negative * coefficient * 10^(-scale).
      Like Python's, it keeps its sign and its exponent, so `12.340` and
      `12.34` are two representations of one number: Python compares them
      equal and only their exponent and their printed form differ. */
  datatype Decimal = Decimal(negative: bool, coefficient: nat, scale: nat)

  /** A coerced parameter, or a field's default. */
  datatype Value =
    | NoneValue
    | Text(s: string)
    | Int(i: int)
    | Dec(d: Decimal)
    | Bool(b: bool)
    | Moment(t: DateTime)
    | Document(j: Json)
    | Bytes(octets: seq<Byte>)

  /** What `validate` and `run_validate` return: `(True, value)` or `(False, message)`. */
  datatype Outcome = Ok(value: Value) | Err(message: string)
}
