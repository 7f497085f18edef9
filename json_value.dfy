/**
 * The values the language model's reply can decode to. Parsing the reply text
 * is done by Python's json.loads; the model starts from its outcome: the
 * decoder raised, or it produced one of the values below.
 */
module JsonValue {

  /**
   * A Python float. Finite values are exact reals (IEEE rounding is not
   * modelled); json.loads and float() can also produce the infinities and NaN.
   */
  datatype Float = Finite(value: real) | PosInf | NegInf | NaN

  /** A decoded JSON value as json.loads returns it (true/false are Python bools). */
  datatype Json =
    | JNull
    | JBool(b: bool)
    | JInt(i: int)
    | JFloat(f: Float)
    | JStr(s: string)
    | JArr(items: seq<Json>)
    | JObj(members: map<string, Json>)

  /**
   * The result of json.loads on the reply text: a JSONDecodeError, another
   * exception (RecursionError on deep nesting, ValueError on an integer literal
   * of more than 4300 digits), or a value.
   */
  datatype Decoded = DecodeFailed | LoadRaised | Decoded(value: Json)

  /** dict.get(key): a missing key reads as None, exactly like a JSON null. */
  function Get(members: map<string, Json>, key: string): Json {
    if key in members then members[key] else JNull
  }
}
