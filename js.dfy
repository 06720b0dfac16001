/** JavaScript values as the two module registries see them.

    Exports, callback arguments and the arguments of `define` are JavaScript values.
    Functions written by the user (factories and callbacks) are opaque: a function value
    carries only its identity, and what it computes is given separately as a `Program`. */
module Js {

  datatype Option<+T> = None | Some(value: T)

  /** Identity of a function written by the registry's user. */
  type FunctionId = nat

  datatype Value =
    | Undefined
    | Null
    | Bool(b: bool)
    | Num(n: int)
    | Str(s: string)
    | Array(items: seq<Value>)
    | Object(tag: nat)
    | Func(fn: FunctionId)   // a function written by the user
    | Constant(v: Value)     // the wrapper `function() { return v; }` that the registries create
    | Ref(o: object)         // an object with identity: a registry, or an array `mmd` returns

  /** What every user function returns when applied to positional arguments.
      Functions are pure here: they cannot call back into a registry. */
  type Program = (FunctionId, seq<Value>) -> Value

  /** JavaScript's truthiness: `!v` is false exactly for these values. */
  predicate Truthy(v: Value) {
    match v
    case Undefined => false
    case Null => false
    case Bool(b) => b
    case Num(n) => n != 0
    case Str(s) => s != ""
    case _ => true
  }

  /** The answer of `typeof`. */
  datatype JsType = UndefinedType | ObjectType | BooleanType | NumberType | StringType | FunctionType

  function TypeOf(v: Value): JsType {
    match v
    case Undefined => UndefinedType
    case Null => ObjectType
    case Bool(_) => BooleanType
    case Num(_) => NumberType
    case Str(_) => StringType
    case Array(_) => ObjectType
    case Object(_) => ObjectType
    case Func(_) => FunctionType
    case Constant(_) => FunctionType
    case Ref(_) => ObjectType
  }

  /** A value that can be called: what the registries store as a module's factory. */
  type Function = f: Value | TypeOf(f) == FunctionType witness Func(0)

  /** `f.apply(null, args)`. */
  function Apply(prog: Program, f: Function, args: seq<Value>): Value {
    match f
    case Func(fn) => prog(fn, args)
    case Constant(v) => v
  }

  /** The three errors the registries throw. */
  datatype Error =
    | InvalidDefinition          // 'invalid definition'
    | UndefinedModule(ref: Value)   // '<id> is undefined'
    | CircularReference(id: string) // 'circular reference to <id>'

  datatype Result<+T> = Ok(value: T) | Err(error: Error)

  /** A sequence without repeated elements. */
  ghost predicate NoDuplicates<T>(s: seq<T>) {
    forall i, j :: 0 <= i < j < |s| ==> s[i] != s[j]
  }

  /** Two sequences without repeats and without common elements join into one without
      repeats. */
  lemma NoDuplicatesConcat<T>(a: seq<T>, b: seq<T>)
    requires NoDuplicates(a) && NoDuplicates(b)
    requires forall x :: x in a ==> x !in b
    ensures NoDuplicates(a + b)
  {
    forall i, j | 0 <= i < j < |a + b|
      ensures (a + b)[i] != (a + b)[j]
    {
      if i < |a| && j >= |a| {
        assert (a + b)[i] in a && (a + b)[j] in b;
      }
    }
  }

  /** Concatenation is associative; stated once so that proofs about long logs can cite it. */
  lemma Concat3<T>(a: seq<T>, b: seq<T>, c: seq<T>)
    ensures (a + b) + c == a + (b + c)
  {
  }
}
