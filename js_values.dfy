/** The few JavaScript value semantics the relay depends on: `undefined`,
    truthiness, `a || b`, and the string conversion done by a template literal. */
module JsValues {

  /** A value that may be `undefined` (an absent property, an unset
      environment variable, a missing query parameter). */
  datatype Option<+T> = None | Some(value: T)

  /** Truthiness of a string that may be `undefined`: only `undefined` and `""` are falsy. */
  predicate Truthy(s: Option<string>)
  {
    s.Some? && s.value != ""
  }

  /** JavaScript `a || b` on strings that may be `undefined`: `b` is returned
      as it is whenever `a` is falsy, even when `b` is falsy too. */
  function Or(a: Option<string>, b: Option<string>): Option<string>
  {
    if Truthy(a) then a else b
  }

  /** JavaScript `a || fallback` where the fallback is a string. */
  function OrDefault(a: Option<string>, fallback: string): string
  {
    if Truthy(a) then a.value else fallback
  }

  /** Property access on a plain object: `undefined` when the key is absent. */
  function Get<V>(m: map<string, V>, key: string): Option<V>
  {
    if key in m then Some(m[key]) else None
  }

  /** A JSON scalar as parsed from an upstream body. Numbers are integers here. */
  datatype Value = Str(s: string) | Num(n: int) | Bool(b: bool) | Null

  /** Truthiness of a parsed JSON field: `undefined`, `""`, `0`, `false` and `null` are falsy. */
  predicate TruthyValue(v: Option<Value>)
  {
    match v
    case None => false
    case Some(Str(s)) => s != ""
    case Some(Num(n)) => n != 0
    case Some(Bool(b)) => b
    case Some(Null) => false
  }

  predicate IsDecimalDigit(c: char)
  {
    '0' <= c <= '9'
  }

  /** The decimal digits of a natural number, most significant first. */
  function NatToDecimal(n: nat): (digits: string)
    ensures |digits| >= 1
    ensures forall i :: 0 <= i < |digits| ==> IsDecimalDigit(digits[i])
    ensures DecimalValue(digits) == n
    ensures n >= 10 ==> digits[0] != '0'
  {
    var last := ['0' + (n % 10) as char];
    if n < 10 then last else NatToDecimal(n / 10) + last
  }

  /** The number a string of decimal digits denotes. */
  function DecimalValue(digits: string): int
  {
    if digits == [] then 0
    else 10 * DecimalValue(digits[..|digits| - 1]) + (digits[|digits| - 1] as int - '0' as int)
  }

  /** `String(n)` for an integer. */
  function IntToDecimal(n: int): string
  {
    if n < 0 then "-" + NatToDecimal(-n) else NatToDecimal(n)
  }

  /** The conversion `${v}` performs on a parsed JSON scalar. */
  function ToJsString(v: Value): (s: string)
    ensures TruthyValue(Some(v)) ==> s != ""
    ensures v.Str? ==> s == v.s
    ensures v.Num? && v.n >= 0 ==>
      (forall i :: 0 <= i < |s| ==> IsDecimalDigit(s[i])) && DecimalValue(s) == v.n && (v.n >= 10 ==> s[0] != '0')
  {
    match v
    case Str(s) => s
    case Num(n) => IntToDecimal(n)
    case Bool(b) => if b then "true" else "false"
    case Null => "null"
  }
}
