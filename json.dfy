/**
 * The values `json.loads` produces and the Python conversions the views apply to
 * them: truthiness, `dict.get`, `x or ""` followed by a string method, and `int(x or 0)`.
 * A JSON number is kept as an exact `real`.
 */
module Json {
  import opened Wrappers
  import opened Text

  datatype Json =
    | JNull
    | JBool(b: bool)
    | JNumber(n: real)
    | JString(s: string)
    | JArray(items: seq<Json>)
    | JObject(fields: map<string, Json>)

  /** A request body: text when it decodes as UTF-8. */
  datatype Body = Utf8(text: string) | NotUtf8

  /** Python's `bool(v)`. */
  predicate Truthy(v: Json) {
    match v
    case JNull => false
    case JBool(b) => b
    case JNumber(n) => n != 0.0
    case JString(s) => s != ""
    case JArray(items) => items != []
    case JObject(fields) => fields != map[]
  }

  /** Exactly six values are falsy: None, False, 0, "", [] and {}. */
  lemma FalsyValues(v: Json)
    ensures !Truthy(v) <==>
      v == JNull || v == JBool(false) || v == JNumber(0.0) || v == JString("") || v == JArray([]) || v == JObject(map[])
  {
  }

  /** Python's `d.get(key)` on a dict: a missing key reads as None. */
  function Get(d: map<string, Json>, key: string): (v: Json)
    ensures key in d ==> v == d[key]
    ensures key !in d ==> v == JNull
  {
    if key in d then d[key] else JNull
  }

  /**
   * `(v or "")` used as a string: a falsy value becomes "", a string stays itself, and any
   * other truthy value (a number, a list, ...) has no string methods, so the caller's
   * `.strip()` / `len()` raises; that is `None` here.
   */
  function StringValue(v: Json): (r: Option<string>)
    ensures !Truthy(v) ==> r == Some("")
    ensures r.Some? && r.value != "" ==> v == JString(r.value)
    ensures v.JString? ==> r == Some(v.s)
    ensures Truthy(v) && !v.JString? ==> r.None?
  {
    if !Truthy(v) then Some("") else if v.JString? then Some(v.s) else None
  }

  /** Python's `int(x)` for a real: truncation toward zero. */
  function Truncate(x: real): (i: int)
    ensures x >= 0.0 ==> i as real <= x < i as real + 1.0
    ensures x < 0.0 ==> i as real - 1.0 < x <= i as real
  {
    if x >= 0.0 then x.Floor else -((-x).Floor)
  }

  /** `int()` of text with no surrounding space: an optional sign, then decimal digits. */
  function ParseTrimmed(t: string): (r: Option<int>)
    ensures t != [] && AllDigits(t) ==> r == Some(ParseDecimal(t))
    ensures |t| >= 2 && t[0] == '+' && AllDigits(t[1..]) ==> r == Some(ParseDecimal(t[1..]))
    ensures |t| >= 2 && t[0] == '-' && AllDigits(t[1..]) ==> r == Some(-(ParseDecimal(t[1..]) as int))
    ensures r.None? <==>
      !(t != [] && AllDigits(t)) && !(|t| >= 2 && (t[0] == '+' || t[0] == '-') && AllDigits(t[1..]))
  {
    if t != [] && AllDigits(t) then Some(ParseDecimal(t))
    else if |t| >= 2 && (t[0] == '+' || t[0] == '-') && AllDigits(t[1..]) then
      var magnitude: int := ParseDecimal(t[1..]);
      Some(if t[0] == '+' then magnitude else -magnitude)
    else None
  }

  /** Python's `int(s)` for a string: surrounding whitespace is ignored, then `ParseTrimmed`. */
  function ParseInt(s: string): (r: Option<int>)
    ensures r == ParseTrimmed(Trim(s))
    ensures Trim(s) == s ==> r == ParseTrimmed(s)
  {
    ParseTrimmed(Trim(s))
  }

  /** Python's `int(v or 0)`; `None` where `int()` raises (an unparsable string, a non-empty list or dict). */
  function IntValue(v: Json): (r: Option<int>)
    ensures !Truthy(v) ==> r == Some(0)
    ensures v.JNumber? ==> r == Some(Truncate(v.n))
    ensures v == JBool(true) ==> r == Some(1)
    ensures v.JString? && v.s != "" ==> r == ParseInt(v.s)
    ensures v.JArray? || v.JObject? ==> (r.Some? <==> !Truthy(v))
  {
    if !Truthy(v) then Some(0)
    else match v
      case JBool(b) => Some(1)
      case JNumber(n) => Some(Truncate(n))
      case JString(s) => ParseInt(s)
      case _ => None
  }

  /** A digit string has no surrounding space, and neither has it after a minus sign. */
  lemma DigitsTrimmed(d: string)
    requires d != [] && AllDigits(d)
    ensures Trim(d) == d
    ensures Trim("-" + d) == "-" + d
  {
    assert IsDigit(d[0]) && IsDigit(d[|d| - 1]);
    StripKeepsEnds(d, IsSpace);
    var t := "-" + d;
    assert t[|t| - 1] == d[|d| - 1];
    StripKeepsEnds(t, IsSpace);
  }

  /** A digit string of value `v` reads as `v`, and after a minus sign as `-v`. */
  lemma ParseIntDigits(d: string, v: nat)
    requires d != [] && AllDigits(d) && ParseDecimal(d) == v
    ensures ParseInt(d) == Some(v)
    ensures ParseInt("-" + d) == Some(-(v as int))
  {
    DigitsTrimmed(d);
    assert ("-" + d)[1..] == d;
  }

  /** `int(str(n))` and `int("-" + str(n))` read the number back. */
  lemma ParseIntNatStr(n: nat)
    ensures ParseInt(NatStr(n)) == Some(n)
    ensures ParseInt("-" + NatStr(n)) == Some(-(n as int))
  {
    ParseNatStr(n);
    ParseIntDigits(NatStr(n), n);
  }
}
