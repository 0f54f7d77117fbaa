/** The slice of JavaScript's value universe that an environment stores and returns.

    Function objects are identified by their identity (`id`): two producers are the same
    object exactly when they are equal as Dafny values. What a caller-supplied function
    returns is not computed here; it is read from an oracle indexed by the function's
    identity and by how many times it has been called so far.
 */
module JsValues {

  datatype Option<+T> = None | Some(value: T) {
    /** The value, or `default` when absent. */
    function GetOr(default: T): T {
      match this
      case Some(v) => v
      case None => default
    }
  }

  /** A JavaScript value. `Callable` values are exactly those for which `typeof` yields 'function'. */
  datatype Value =
    | Undefined
    | Null
    | Boolean(b: bool)
    | Number(n: int)
    | Str(s: string)
    | Obj(ref: nat)
    | Callable(f: Producer)

  /** A zero-argument function object: either one handed in by a caller (`Fn`), or the
      closure an environment creates around a constant (`Wrap`), which returns `captured`. */
  datatype Producer =
    | Fn(id: nat)
    | Wrap(id: nat, captured: Value)

  /** The number of times each caller-supplied function has been called so far. */
  type Calls = map<nat, nat>

  /** `oracle(id, k)` is what function `id` returns on its k-th call (counting from 0). */
  type Oracle = (nat, nat) -> Value

  function CallCount(calls: Calls, id: nat): nat {
    if id in calls then calls[id] else 0
  }

  /** Calls producer `p` once. A wrapping closure returns its captured value and consults
      nothing; a caller's function answers from the oracle and its call count advances. */
  function Invoke(p: Producer, calls: Calls, oracle: Oracle): (r: (Value, Calls))
    ensures p.Wrap? ==> r.0 == p.captured && r.1 == calls
    ensures p.Fn? ==> r.0 == oracle(p.id, CallCount(calls, p.id))
    ensures p.Fn? ==> CallCount(r.1, p.id) == CallCount(calls, p.id) + 1
    ensures forall id :: id != p.id || p.Wrap? ==> CallCount(r.1, id) == CallCount(calls, id)
  {
    match p
    case Wrap(_, v) => (v, calls)
    case Fn(id) =>
      var k := CallCount(calls, id);
      (oracle(id, k), calls[id := k + 1])
  }
}
