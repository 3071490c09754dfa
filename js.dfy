/** JavaScript values as far as the skill backend relies on them: the
    falsy values that make `x || d` fall back to `d`, optional strings
    read with `_.get`, and objects used as string-keyed maps. */
module Js {

  datatype Option<+T> = None | Some(value: T)

  /** A call that either returns a value or throws. */
  datatype Result<+T, +E> = Ok(value: T) | Err(error: E) {
    predicate IsFailure() { Err? }

    function PropagateFailure<U>(): Result<U, E>
      requires Err?
    {
      Err(error)
    }

    function Extract(): T
      requires Ok?
    {
      value
    }
  }

  /** A JSON-like JavaScript value. Numbers are integers here (see README). */
  datatype Value =
    | Undefined
    | Null
    | Bool(b: bool)
    | Num(n: int)
    | Str(s: string)
    | Obj(fields: map<string, Value>)
  {
    /** `undefined`, `null`, `false`, `0` and `""` are falsy; every object is truthy. */
    predicate Truthy() {
      match this
      case Undefined => false
      case Null => false
      case Bool(b) => b
      case Num(n) => n != 0
      case Str(s) => s != ""
      case Obj(_) => true
    }

    /** Reading a property of these throws a TypeError. */
    predicate Nullish() { Undefined? || Null? }
  }

  /** JavaScript `v || d`. */
  function Or(v: Value, d: Value): Value {
    if v.Truthy() then v else d
  }

  /** `obj[key]` on a plain object: `undefined` for a missing key. */
  function Field(fields: map<string, Value>, key: string): Value {
    if key in fields then fields[key] else Undefined
  }

  /** Truthiness of a value that is either `undefined` or a string. */
  predicate TruthyString(s: Option<string>) {
    s.Some? && s.value != ""
  }
}
