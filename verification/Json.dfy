/** JSON values as the cJSON calls see them. A number is the double cJSON keeps. */
module Json {
  import opened Wrappers
  import opened CText

  datatype Json =
    | Null
    | Bool(truth: bool)
    | Number(value: real)
    | Text(text: string)
    | Array(items: seq<Json>)
    | Object(fields: map<string, Json>)

  // cJSON_GetObjectItemCaseSensitive
  function Item(o: Json, key: string): Option<Json> {
    if o.Object? && key in o.fields then Some(o.fields[key]) else None
  }

  // A C cast from double to an integer type: towards zero.
  function Truncate(r: real): (n: int)
    ensures r >= 0.0 ==> n as real <= r < n as real + 1.0
    ensures r <= 0.0 ==> n as real - 1.0 < r <= n as real
  {
    if r >= 0.0 then r.Floor else -((-r).Floor)
  }

  // An integer field: 0 when it is missing or not a number.
  function IntField(o: Json, key: string): int {
    match Item(o, key)
    case Some(Number(r)) => Truncate(r)
    case _ => 0
  }

  // A text field copied into a buffer of the given size: empty when missing or not a string.
  function TextField(o: Json, key: string, size: nat): string
    requires size > 0
  {
    match Item(o, key)
    case Some(Text(s)) => Clip(s, size)
    case _ => ""
  }

  function BoolField(o: Json, key: string): bool {
    Item(o, key) == Some(Bool(true))
  }
}
