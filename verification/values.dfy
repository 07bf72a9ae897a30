/**
 * The keyword bag the command builders read, the Python values stored in
 * it, and the two ways a builder turns such a value into text: `name()`
 * for path-or-handle values and f-string rendering for everything else.
 * Python exceptions become `Failure` values.
 */
module Values {
  import opened Strings

  datatype Option<+T> = None | Some(value: T)

  /** The Python exception a builder raises, with the key or value it concerns. */
  datatype Error =
    | KeyError(key: string)              // `kwargs[key]` on a missing key
    | AttributeError(key: string)        // `kwargs[key].name` on a value without `.name`
    | DuplicateKeyword(param: string)    // `f(param=..., **kwargs)` with `param` in kwargs
    | UnknownTech(tech: string)          // the `assert tech in ("HiFi", "ONT")`
    | MissingField(line: string)         // `toks[1]` on a line with one field
    | Unrendered(key: string)            // f-string of an open file handle
    | UnsupportedPattern(pattern: string) // `%` with a template outside the two-hole form
    | TypeError(key: string)             // `name(kwargs[key]) + ".fai"` on a value that is not text
    | FileNotFound(path: string)         // `open(path)` on a file that does not exist

  datatype Result<+T> = Success(value: T) | Failure(error: Error) {
    predicate IsFailure() { Failure? }

    function PropagateFailure<U>(): Result<U>
      requires Failure?
    {
      Failure(error)
    }

    function Extract(): T
      requires Success?
    {
      value
    }
  }

  /** A value stored under a key of `kwargs`. */
  datatype Value =
    | Str(s: string)      // a plain path or any other text
    | Int(i: int)         // `cores`, `phase_max_depth`
    | Handle(name: string) // an open `io.TextIOWrapper`, known by its `.name`
    | NoneVal             // Python `None`

  type Kwargs = map<string, Value>

  /** Python truthiness of a value. */
  predicate Truthy(v: Value) {
    match v
    case Str(s) => s != ""
    case Int(i) => i != 0
    case Handle(_) => true
    case NoneVal => false
  }

  /** `kwargs.get(key)`: the stored value, or `None` for a missing key. */
  function Get(kw: Kwargs, key: string): (v: Value)
    ensures key !in kw ==> v == NoneVal
    ensures key in kw ==> v == kw[key]
  {
    if key in kw then kw[key] else NoneVal
  }

  /** `kwargs[key]`, which raises `KeyError` for a missing key. */
  function Lookup(kw: Kwargs, key: string): (r: Result<Value>)
    ensures r.Success? <==> key in kw
    ensures r.Success? ==> r.value == kw[key]
    ensures r.Failure? ==> r.error == KeyError(key)
  {
    if key in kw then Success(kw[key]) else Failure(KeyError(key))
  }

  /** `name(path)`: a handle becomes its file name, anything else is returned as is. */
  function Name(v: Value): (r: Value)
    ensures !r.Handle?
    ensures v.Handle? ==> r == Str(v.name)
    ensures !v.Handle? ==> r == v
  {
    if v.Handle? then Str(v.name) else v
  }

  /** Applying `name` to its own result changes nothing. */
  lemma NameIdempotent(v: Value)
    ensures Name(Name(v)) == Name(v)
  {
  }

  /**
   * `f"{v}"` for the value found under `key`. The text of a handle (its
   * Python repr) is not modelled and is reported as `Unrendered(key)`.
   */
  function Render(key: string, v: Value): (r: Result<string>)
    ensures r.Success? <==> !v.Handle?
    ensures r.Failure? ==> r.error == Unrendered(key)
    ensures v.Str? ==> r == Success(v.s)
    ensures v == NoneVal ==> r == Success("None")
    ensures v.Int? && v.i >= 0 ==> r.Success? && AllDigits(r.value) && DecimalValue(r.value) == v.i
  {
    match v
    case Str(s) => Success(s)
    case Int(i) =>
      if i >= 0 then DecimalRoundTrip(i); Success(IntToString(i))
      else Success(IntToString(i))
    case Handle(_) => Failure(Unrendered(key))
    case NoneVal => Success("None")
  }

  /** `f"{name(v)}"`: never fails, because `name` removes the handle. */
  function PathOf(v: Value): (p: string)
    ensures v.Str? ==> p == v.s
    ensures v.Handle? ==> p == v.name
    ensures v.Int? ==> p == IntToString(v.i)
    ensures v == NoneVal ==> p == "None"
  {
    match Name(v)
    case Str(s) => s
    case Int(i) => IntToString(i)
    case NoneVal => "None"
  }

  /** `name()` followed by rendering always succeeds, with the path as its text. */
  lemma PathOfRenders(key: string, v: Value)
    ensures Render(key, Name(v)) == Success(PathOf(v))
  {
  }

  /** `f"{kwargs[key]}"`: fails on a missing key, then on a handle. */
  function TextAt(kw: Kwargs, key: string): (r: Result<string>)
    ensures r.Success? <==> key in kw && !kw[key].Handle?
    ensures key !in kw ==> r == Failure(KeyError(key))
    ensures key in kw && kw[key].Handle? ==> r == Failure(Unrendered(key))
    ensures key in kw && kw[key].Str? ==> r == Success(kw[key].s)
  {
    var v :- Lookup(kw, key);
    Render(key, v)
  }
}
