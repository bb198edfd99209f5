/**
 JavaScript values as far as the reconciler looks at them, and the
 failures (thrown TypeErrors) its code paths can raise.

 Strict equality `===` is Dafny's `==` on `Value`: primitives compare by
 value, functions and other objects by identity (their id).  Numbers are
 integers, so there is no NaN.
 */
module Values {

  datatype Option<+T> = None | Some(value: T) {
    function GetOr(default: T): T {
      match this
      case Some(v) => v
      case None => default
    }
  }

  datatype Value =
    | Undefined
    | Null
    | Bool(b: bool)
    | Num(n: int)
    | Str(s: string)
    | Fn(fnId: nat)    // a function object
    | Obj(objId: nat)  // any other object (array, plain object)

  /** What `typeof v === "function"` says. */
  predicate IsFunction(v: Value) {
    v.Fn?
  }

  /** The TypeErrors the modelled code can throw, by the read that fails. */
  datatype Fault =
    | ReadOfMissingOldFiber   // `oldFiber.type` with no old fiber left
    | ReadOfNullPrevSibling   // `prevSibling.sibling = …` after a fiber-less position
    | NoHostAncestor          // walking `return` past the root
    | NoHostDescendant        // `commitDeletion` reached an absent child
    | MissingAlternate        // `fiber.alternate.props` on a fiber without alternate
    | MissingHook             // `effectHooks[index]` past the end
    | DepsUndefined           // `.length` of an absent dependency list

  datatype Result<+T> = Ok(value: T) | Err(fault: Fault) {
    predicate IsFailure() {
      Err?
    }

    function PropagateFailure<U>(): Result<U>
      requires Err?
    {
      Err(fault)
    }

    function Extract(): T
      requires Ok?
    {
      value
    }
  }
}
