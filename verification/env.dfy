/** The `Env` of lazylet: a flat environment mapping names to zero-argument producers,
    each name also exposed as an enumerable getter property of the environment.

    An environment is the pair of its `vars` table and its own getter properties
    (`props`), plus `nextId`, an identity above every closure the environment holds,
    from which the closures wrapping constants take fresh identities.
 */
module Lazylet {
  import opened JsValues
  import opened PropertyDescriptors

  /** Names that collide with the environment's own members (`vars`, `Let`) or that an
      ordinary object treats specially (`__proto__`); binding them is not modelled. */
  const Reserved: set<string> := {"vars", "Let", "__proto__"}

  datatype Env = Env(vars: map<string, Producer>, props: Object, nextId: nat)

  /** Outcome of `Let`: the environment itself, or a TypeError thrown after `vars`
      was already updated — the environment it leaves behind is carried along. */
  datatype LetResult = Ok(env: Env) | TypeError(env: Env)

  /** Outcome of reading a name: no own binding property, or the getter's result
      together with the call history after the call. */
  datatype ReadResult = NotFound | Found(value: Value, calls: Calls)

  /** `p` is not a closure with identity `n` or above. */
  predicate IdBelow(p: Producer, n: nat) {
    p.Wrap? ==> p.id < n
  }

  /** The names of the environment's enumerable own getter properties (the bindings). */
  function EnumerableNames(e: Env): set<string> {
    set name | name in e.props && e.props[name].enumerable
  }

  /** What every environment reachable from `New` by `Let` satisfies. */
  predicate Valid(e: Env) {
    && e.vars.Keys == e.props.Keys
    && Reserved !! e.vars.Keys
    && (forall name :: name in e.props ==> e.props[name].enumerable && !e.props[name].configurable)
    && (forall name :: name in e.vars ==> IdBelow(e.vars[name], e.nextId))
    && (forall name :: name in e.props ==> IdBelow(e.props[name].get, e.nextId))
  }

  /** `new Env()`: an empty table and no getter properties. */
  function New(): (e: Env)
    ensures Valid(e)
    ensures e.vars == map[] && EnumerableNames(e) == {}
  {
    Env(map[], map[], 0)
  }

  /** The producer `Let` stores for `thing`: a function is kept as the same object; any
      other value is wrapped in a new closure (identity `newId`) that always returns it. */
  function Normalise(thing: Value, newId: nat): (p: Producer)
    ensures thing.Callable? ==> p == thing.f
    ensures !thing.Callable? ==> p.Wrap? && p.id == newId
    ensures !thing.Callable? ==> forall calls, oracle :: Invoke(p, calls, oracle) == (thing, calls)
  {
    if thing.Callable? then thing.f else Wrap(newId, thing)
  }

  /** The getter descriptor `Let` hands to Object.defineProperty: it gives `get` and
      `enumerable: true`, and leaves out `configurable`. */
  function LetDescriptor(p: Producer): Descriptor {
    Descriptor(p, Some(true), None)
  }

  /** The steps of a binding, given the descriptor built for the stored producer: the
      table entry is written first, then the property is defined from `describe`. */
  function BindWith(e: Env, name: string, thing: Value, describe: Producer -> Descriptor): (r: LetResult)
    ensures r.env.vars.Keys == e.vars.Keys + {name}
    ensures forall n :: n in e.vars && n != name ==> r.env.vars[n] == e.vars[n]
    ensures r.env.vars[name] == Normalise(thing, e.nextId)
    ensures r.Ok? <==> DefineOwnProperty(e.props, name, describe(r.env.vars[name])).Some?
    ensures r.Ok? ==> r.env.props == DefineOwnProperty(e.props, name, describe(r.env.vars[name])).value
    ensures r.TypeError? ==> r.env.props == e.props
    // the environment keeps every closure identity it holds below `nextId`
    ensures r.env.nextId >= e.nextId && IdBelow(r.env.vars[name], r.env.nextId)
  {
    var p := Normalise(thing, e.nextId);
    var next := if p.Wrap? && p.id >= e.nextId then p.id + 1 else e.nextId;
    var vars := e.vars[name := p];
    match DefineOwnProperty(e.props, name, describe(vars[name]))
    case Some(props) => Ok(Env(vars, props, next))
    case None => TypeError(Env(vars, e.props, next))
  }

  /** `env.Let(name, thing)`. The table entry is written first; the property is then
      defined, which fails when `name` already has a different getter. */
  function Let(e: Env, name: string, thing: Value): (r: LetResult)
    requires name !in Reserved
    ensures Valid(e) ==> Valid(r.env)
    // the table always ends up holding the new producer; other entries are kept
    ensures r.env.vars.Keys == e.vars.Keys + {name}
    ensures forall n :: n in e.vars && n != name ==> r.env.vars[n] == e.vars[n]
    ensures thing.Callable? ==> r.env.vars[name] == thing.f
    ensures !thing.Callable? ==> r.env.vars[name] == Wrap(e.nextId, thing)
    // success exactly when the name is unbound or already has this very getter
    ensures r.Ok? <==> name !in e.props || e.props[name].configurable || Agrees(e.props[name], LetDescriptor(r.env.vars[name]))
    ensures Valid(e) ==> (r.Ok? <==> name !in e.props || e.props[name].get == r.env.vars[name])
    ensures r.Ok? ==> r.env.props.Keys == e.props.Keys + {name}
    ensures r.Ok? ==> r.env.props[name] == Accessor(r.env.vars[name], true, name in e.props && e.props[name].configurable)
    ensures r.Ok? ==> forall n :: n in e.props && n != name ==> r.env.props[n] == e.props[n]
    // a failed call leaves every property as it was
    ensures r.TypeError? ==> r.env.props == e.props
  {
    BindWith(e, name, thing, LetDescriptor)
  }

  /** Reading property `name` of the environment: calls the getter installed on the
      property (not the `vars` entry) once, afresh on every read. */
  function Read(e: Env, name: string, calls: Calls, oracle: Oracle): (r: ReadResult)
    ensures r.Found? <==> name in e.props
    ensures r.Found? && e.props[name].get.Wrap? ==> r.value == e.props[name].get.captured && r.calls == calls
    ensures r.Found? && e.props[name].get.Fn? ==>
      var id := e.props[name].get.id;
      r.value == oracle(id, CallCount(calls, id)) && CallCount(r.calls, id) == CallCount(calls, id) + 1
    // no other function's call count moves
    ensures r.Found? ==> forall id :: id != e.props[name].get.id || e.props[name].get.Wrap? ==>
      CallCount(r.calls, id) == CallCount(calls, id)
  {
    if name in e.props then
      var (v, calls') := Invoke(e.props[name].get, calls, oracle);
      Found(v, calls')
    else
      NotFound
  }

  /** The results of `k` successive reads of `name`, each starting from the call
      history the previous one left. */
  function Reads(e: Env, name: string, calls: Calls, oracle: Oracle, k: nat): (vs: seq<Value>)
    ensures name in e.props ==> |vs| == k
    ensures name !in e.props ==> vs == []
    decreases k
  {
    if k == 0 then []
    else
      match Read(e, name, calls, oracle)
      case NotFound => []
      case Found(v, calls') => [v] + Reads(e, name, calls', oracle, k - 1)
  }
}
