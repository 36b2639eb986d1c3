/**
 * The few pieces of JavaScript value semantics that the view module relies on:
 * truthiness (`x || y`), `typeof`, property access on a parsed JSON object,
 * and the conversion `String(x)` that template literals, `x + " "` and
 * `String.prototype.replace` apply to non-string values.
 */
module JsValues {

  /** A value as received from the JSON response or stored in a record.
      Numbers are the integral ones; see the README for what is left out. */
  datatype JsValue =
    | Undefined
    | Null
    | Bool(b: bool)
    | Num(n: int)
    | Str(s: string)
    | Obj(props: map<string, JsValue>)

  /** JavaScript truthiness: `undefined`, `null`, `false`, `0` and `""` are falsy.
      `x || y` keeps every object; for a truthy value the test
      `typeof x === "object"` then holds exactly when it is an object. */
  predicate Truthy(v: JsValue)
    ensures v.Obj? ==> Truthy(v)
    ensures v == Undefined || v == Null ==> !Truthy(v)
    ensures Truthy(v) ==> (TypeOf(v) == "object" <==> v.Obj?)
  {
    match v
    case Undefined => false
    case Null => false
    case Bool(b) => b
    case Num(n) => n != 0
    case Str(s) => s != ""
    case Obj(_) => true
  }

  /** The result of the `typeof` operator: `"undefined"` exactly for
      `undefined`, and `"object"` exactly for objects and `null`. */
  function TypeOf(v: JsValue): (t: string)
    ensures t == "undefined" <==> v == Undefined
    ensures t == "object" <==> v.Obj? || v == Null
  {
    match v
    case Undefined => "undefined"
    case Null => "object"
    case Bool(_) => "boolean"
    case Num(_) => "number"
    case Str(_) => "string"
    case Obj(_) => "object"
  }

  /** Property access `o.key`: a missing property reads as `undefined`. */
  function Field(o: JsValue, key: string): JsValue
    requires o.Obj?
  {
    if key in o.props then o.props[key] else Undefined
  }

  function DigitChar(d: nat): (c: char)
    requires d < 10
    ensures '0' <= c <= '9'
  {
    "0123456789"[d]
  }

  function DigitValue(c: char): nat
  {
    if '0' <= c <= '9' then (c - '0') as nat else 0
  }

  /** Decimal digits of `n`, most significant first, no leading zeros. */
  function NatToString(n: nat): (r: string)
    ensures |r| > 0
    ensures forall i :: 0 <= i < |r| ==> '0' <= r[i] <= '9'
    ensures (r[0] == '0') <==> (n == 0)
    decreases n
  {
    if n < 10 then [DigitChar(n)] else NatToString(n / 10) + [DigitChar(n % 10)]
  }

  /** The decimal value of a string of digits. */
  function ParseNat(s: string): nat
  {
    if s == [] then 0 else ParseNat(s[..|s| - 1]) * 10 + DigitValue(s[|s| - 1])
  }

  /** Reading back the digits written by NatToString gives the number again. */
  lemma {:induction false} NatToStringRoundTrip(n: nat)
    ensures ParseNat(NatToString(n)) == n
    decreases n
  {
    var r := NatToString(n);
    if n < 10 {
      assert r[..0] == [];
    } else {
      NatToStringRoundTrip(n / 10);
      assert r[..|r| - 1] == NatToString(n / 10);
      assert DigitValue(r[|r| - 1]) == n % 10;
    }
  }

  /** `String(n)` for an integral number: an optional minus sign, then the digits. */
  function IntToString(n: int): (r: string)
    ensures |r| > 0
    ensures forall i :: 0 <= i < |r| ==> r[i] == '-' || '0' <= r[i] <= '9'
    ensures n < 0 <==> r[0] == '-'
  {
    if n < 0 then "-" + NatToString(-n) else NatToString(n)
  }

  /** Digits of value `m` read as `m`, and after a minus sign as `-m`. */
  lemma ParseSigned(digits: string, m: nat)
    requires ParseNat(digits) == m && digits != [] && digits[0] != '-'
    ensures ParseInt(digits) == m && ParseInt("-" + digits) == -(m as int)
  {
    assert ("-" + digits)[1..] == digits;
  }

  /** The value of an optional minus sign followed by digits. */
  function ParseInt(s: string): int
  {
    var magnitude := ParseNat(Unsigned(s)) as int;
    if |s| > 0 && s[0] == '-' then -magnitude else magnitude
  }

  /** `s` without its leading minus sign, if it has one. */
  function Unsigned(s: string): string
  {
    if |s| > 0 && s[0] == '-' then s[1..] else s
  }

  /** Reading back the text written by IntToString gives the number again. */
  lemma IntToStringRoundTrip(n: int)
    ensures ParseInt(IntToString(n)) == n
  {
    if n < 0 {
      NatToStringRoundTrip(-n);
      ParseSigned(NatToString(-n), -n);
    } else {
      NatToStringRoundTrip(n);
      ParseSigned(NatToString(n), n);
    }
  }

  /** Distinct integers are written differently. */
  lemma IntToStringInjective(m: int, n: int)
    requires IntToString(m) == IntToString(n)
    ensures m == n
  {
    IntToStringRoundTrip(m);
    IntToStringRoundTrip(n);
  }

  /** `String(v)`, as applied by template literals and by `v + ""`. A string
      is itself; any other value gives a non-empty text without `#` or `$`,
      and the text of a number reads back as that number. */
  function ToString(v: JsValue): (r: string)
    ensures v.Str? ==> r == v.s
    ensures !v.Str? ==> r != [] && '#' !in r && '$' !in r
    ensures v.Num? ==> ParseInt(r) == v.n
  {
    match v
    case Undefined => "undefined"
    case Null => "null"
    case Bool(b) => if b then "true" else "false"
    case Num(n) => IntToStringRoundTrip(n); IntToString(n)
    case Str(s) => s
    case Obj(_) => "[object Object]"
  }
}
