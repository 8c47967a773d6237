/**
 * The parsed JSON the Reddit API returns, as far as main.py reads it: scalar
 * values, objects read with `d.get(key, default)`, and the values as `csv.writer`
 * writes them.
 */
module Json {

  /** A JSON scalar. Floats are carried as their text: they are passed through, never computed with. */
  datatype Value = Null | Str(s: string) | Int(i: int) | Bool(b: bool) | Float(text: string)

  /** A JSON object's scalar members. */
  type Fields = map<string, Value>

  /** `d.get(key, default)`: the member when present, even when it is `null`; the default otherwise. */
  function Get(d: Fields, key: string, default: Value): Value {
    if key in d then d[key] else default
  }
}
