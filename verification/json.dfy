/**
 Decoded JSON values as Go's `encoding/json` hands them to untyped code:
 objects become `map[string]interface{}`, numbers `float64`, strings
 `string`. A lookup of a missing key gives Go's nil interface, which is
 also what a JSON `null` gives; a type assertion on a value of another
 dynamic type panics.
 */
module Json {
  import opened Wrappers

  datatype Json =
    | JNull
    | JBool(b: bool)
    | JNumber(n: real)
    | JString(s: string)
    | JArray(items: seq<Json>)
    | JObject(fields: map<string, Json>)

  /** A panic of the consumer: the type assertion on the value found under
      `key` failed (the key was missing, null, or of another type). */
  datatype Fault = Panic(key: string)

  /** `obj[key]` on a Go map: the value, or nil (here JNull) when absent. */
  function Get(obj: map<string, Json>, key: string): (v: Json)
  {
    if key in obj then obj[key] else JNull
  }

  /** `obj[key].(map[string]interface{})`. */
  function ObjectAt(obj: map<string, Json>, key: string): (r: Result<map<string, Json>, Fault>)
    ensures r.Ok? <==> key in obj && obj[key].JObject?
    ensures r.Ok? ==> r.value == obj[key].fields
    ensures r.Err? ==> r.error == Panic(key)
  {
    match Get(obj, key)
    case JObject(m) => Ok(m)
    case _ => Err(Panic(key))
  }

  /** `obj[key].(string)`. */
  function StringAt(obj: map<string, Json>, key: string): (r: Result<string, Fault>)
    ensures r.Ok? <==> key in obj && obj[key].JString?
    ensures r.Ok? ==> r.value == obj[key].s
    ensures r.Err? ==> r.error == Panic(key)
  {
    match Get(obj, key)
    case JString(s) => Ok(s)
    case _ => Err(Panic(key))
  }

  /** `obj[key].(float64)`. */
  function NumberAt(obj: map<string, Json>, key: string): (r: Result<real, Fault>)
    ensures r.Ok? <==> key in obj && obj[key].JNumber?
    ensures r.Ok? ==> r.value == obj[key].n
    ensures r.Err? ==> r.error == Panic(key)
  {
    match Get(obj, key)
    case JNumber(n) => Ok(n)
    case _ => Err(Panic(key))
  }

  /** Go's `int(x)` for a float64 `x`: the fraction is dropped, rounding
      toward zero. */
  function Trunc(x: real): (i: int)
    ensures x >= 0.0 ==> i as real <= x < i as real + 1.0
    ensures x < 0.0 ==> i as real - 1.0 < x <= i as real
  {
    if x >= 0.0 then x.Floor else -((-x).Floor)
  }

  /** Truncation is symmetric about zero, unlike the floor. */
  lemma TruncNegate(x: real)
    ensures Trunc(-x) == -Trunc(x)
  {
  }

  /** A whole number is kept as it is. */
  lemma TruncWhole(n: int)
    ensures Trunc(n as real) == n
  {
  }
}
