/** The JSON data model shared by every component: values, their type names,
    and the Option/Result datatypes the other modules use. */
module Json {

  datatype Option<+T> = None | Some(value: T)

  datatype Result<+T, +E> = Ok(value: T) | Err(error: E) {
    predicate IsFailure() { Err? }
    function PropagateFailure<U>(): Result<U, E>
      requires Err?
    {
      Err(error)
    }
    function Extract(): T
      requires Ok?
    {
      value
    }
  }

  /** A JSON number as the program stores it: an unsigned or a negative
      integer, or a finite double identified by its bit pattern. */
  datatype Number = PosInt(magnitude: nat) | NegInt(magnitude: nat) | Float(bits: nat)

  datatype Value =
    | Null
    | Bool(b: bool)
    | Num(n: Number)
    | Str(s: string)
    | Arr(items: seq<Value>)
    | Obj(members: map<string, Value>)

  datatype JsonType = TNull | TBoolean | TNumber | TString | TArray | TObject

  function TypeOf(v: Value): JsonType {
    match v
    case Null => TNull
    case Bool(_) => TBoolean
    case Num(_) => TNumber
    case Str(_) => TString
    case Arr(_) => TArray
    case Obj(_) => TObject
  }
}
