/**
 * JSON values as the request body decodes them, and the few Python
 * operations the ingestion handler applies to them: truthiness,
 * `dict.get`, hashability and the `float()`/`int()` conversions.
 */
module Json {
  import opened Wrappers

  /** A decoded JSON value; `Null` is Python's `None`. */
  datatype Value =
    | Null
    | Bool(b: bool)
    | Int(i: int)
    | Float(f: real)
    | Str(s: string)
    | Array(items: seq<Value>)
    | Object(fields: map<string, Value>)

  /** Python truthiness of a decoded value: `None`, `False`, zero and empty containers are falsy. */
  predicate Truthy(v: Value)
    ensures !Truthy(v) <==> v in {Null, Bool(false), Int(0), Float(0.0), Str(""), Array([]), Object(map[])}
  {
    match v
    case Null => false
    case Bool(b) => b
    case Int(i) => i != 0
    case Float(f) => f != 0.0
    case Str(s) => s != ""
    case Array(items) => items != []
    case Object(fields) => fields != map[]
  }

  /** `fields.get(key)`: a missing key and an explicit JSON null both read as `None`. */
  function Get(fields: map<string, Value>, key: string): (v: Value)
    ensures v != Null <==> key in fields && fields[key] != Null
    ensures v != Null ==> v == fields[key]
  {
    if key in fields then fields[key] else Null
  }

  /** Whether Python can hash the value, i.e. use it as a dictionary key (lists and dicts cannot). */
  predicate Hashable(v: Value) {
    !v.Array? && !v.Object?
  }

  function Abs(i: int): nat {
    if i < 0 then -i else i
  }

  /**
   * The least integer magnitude that IEEE 754 double precision rounds
   * (half to even) to infinity: 2^1024 - 2^970. `float()` of an integer
   * at least this large raises OverflowError.
   */
  const FloatOverflowBound: nat := 0xFFFF_FFFF_FFFF_FC_0000000000000000000000_0000000000000000000000_0000000000000000000000_0000000000000000000000_0000000000000000000000_0000000000000000000000_0000000000000000000000_0000000000000000000000_0000000000000000000000_0000000000000000000000_0000000000000000000000

  /**
   * `float(v)`. Booleans, floats and integers below `FloatOverflowBound`
   * convert; a string goes through `parse`, which stands for Python's
   * float-literal parser; `None`, lists, dicts and larger integers raise
   * (`None` here).
   */
  function ToFloat(v: Value, parse: string -> Option<real>): (r: Option<real>)
    ensures r.Some? && !v.Str? ==> !v.Null? && !v.Array? && !v.Object?
  {
    match v
    case Bool(b) => Some(if b then 1.0 else 0.0)
    case Int(i) => if Abs(i) < FloatOverflowBound then Some(i as real) else None
    case Float(f) => Some(f)
    case Str(s) => parse(s)
    case _ => None
  }

  /** The integer part of `f`, rounding toward zero as Python's `int()` does on a float. */
  function TruncateTowardZero(f: real): (n: int)
    ensures 0.0 <= f ==> 0 <= n && n as real <= f < n as real + 1.0
    ensures f < 0.0 ==> n <= 0 && n as real - 1.0 < f <= n as real
  {
    if 0.0 <= f then f.Floor else -((-f).Floor)
  }

  /**
   * `int(v)`. Booleans and integers convert, a float is truncated toward
   * zero, a string goes through `parse` (Python's integer-literal
   * parser); `None`, lists and dicts raise (`None` here).
   */
  function ToInt(v: Value, parse: string -> Option<int>): (r: Option<int>)
    ensures v.Float? ==> r == Some(TruncateTowardZero(v.f))
    ensures r.Some? && !v.Str? ==> !v.Null? && !v.Array? && !v.Object?
  {
    match v
    case Bool(b) => Some(if b then 1 else 0)
    case Int(i) => Some(i)
    case Float(f) => Some(TruncateTowardZero(f))
    case Str(s) => parse(s)
    case _ => None
  }

  /**
   * Outside strings, `float()` and `int()` agree: wherever `float()`
   * succeeds on a boolean, a float or an integer of magnitude at most
   * 2^53 (where a double is exact), `int()` succeeds with the float's
   * truncation; and the only values `int()` takes and `float()` refuses
   * are integers too large for a double.
   */
  lemma ConversionsAgree(v: Value, parseFloat: string -> Option<real>, parseInt: string -> Option<int>)
    requires !v.Str?
    ensures ToFloat(v, parseFloat).Some? && (v.Int? ==> Abs(v.i) <= 0x20_0000_0000_0000) ==>
      ToInt(v, parseInt) == Some(TruncateTowardZero(ToFloat(v, parseFloat).value))
    ensures ToInt(v, parseInt).Some? && ToFloat(v, parseFloat).None? <==>
      v.Int? && FloatOverflowBound <= Abs(v.i)
  {
    if v.Int? {
      TruncateInteger(v.i);
    } else if v.Bool? {
      TruncateInteger(if v.b then 1 else 0);
    }
  }

  /** Truncating a whole number gives it back. */
  lemma TruncateInteger(i: int)
    ensures TruncateTowardZero(i as real) == i
  {
    var n := TruncateTowardZero(i as real);
    assert n as real - 1.0 < i as real < n as real + 1.0;
  }
}
