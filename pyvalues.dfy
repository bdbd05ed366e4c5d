/** The Python values that travel through the service's dictionaries (JSON-compatible
    scalars), Python truthiness, `dict.get`, `str()`, `int()` and the exceptions raised. */
module PyValues {
  import opened Wrappers
  import opened PyText

  /** A JSON-compatible Python scalar. Times are integer seconds since the epoch. */
  datatype Value = VNone | VBool(b: bool) | VInt(i: int) | VStr(s: string)

  /** A Python `dict` with string keys, such as a JWT claim set. */
  type Dict = map<string, Value>

  datatype Exception =
    | TypeError(message: string)
    | ValueError(message: string)
    | ImportError(message: string)

  /** `min(a, b)` on integers; also the clipping of a slice bound at the end of a sequence. */
  function Min(a: int, b: int): int
  {
    if a <= b then a else b
  }

  /** Python's `bool(v)`. */
  predicate Truthy(v: Value)
  {
    match v
    case VNone => false
    case VBool(b) => b
    case VInt(i) => i != 0
    case VStr(s) => s != ""
  }

  /** `d.get(key)`: the value, or None when the key is absent. */
  function Get(d: Dict, key: string): Value
  {
    if key in d then d[key] else VNone
  }

  /** Python's `str(v)`. */
  function Str(v: Value): string
  {
    match v
    case VNone => "None"
    case VBool(b) => if b then "True" else "False"
    case VInt(i) => IntToDecimal(i)
    case VStr(s) => s
  }

  /** Python's `int(v)`: a bool is 0 or 1, a string must be a decimal numeral,
      None is a TypeError. */
  function ToInt(v: Value): (r: Result<int, Exception>)
    ensures v.VInt? ==> r == Ok(v.i)
    ensures v.VStr? ==> (r.Ok? <==> ParseInt(v.s).Some?)
  {
    match v
    case VNone => Err(TypeError("int() argument must be a string or a number, not 'NoneType'"))
    case VBool(b) => Ok(if b then 1 else 0)
    case VInt(i) => Ok(i)
    case VStr(s) =>
      match ParseInt(s)
      case Some(n) => Ok(n)
      case None => Err(ValueError("invalid literal for int() with base 10"))
  }

  /** `int(str(i)) == i` for the claim values the service writes. */
  lemma IntOfStrOfInt(i: int)
    ensures ToInt(VStr(Str(VInt(i)))) == Ok(i)
  {
    ParseIntOfDecimal(i);
  }
}

/** How a request handler ends when it does not return a value. */
module Http {
  import opened PyValues

  datatype Failure =
    | HttpError(status: int, detail: string)   // an HTTPException raised on purpose
    | Unhandled(error: Exception)              // any other exception: the framework answers 500

  const Unauthorized: int := 401
  const Forbidden: int := 403
  const NotFound: int := 404
  const UnprocessableEntity: int := 422
}
