/** The binding operation as evidently intended: identical to `Lazylet.Let` except that
    the getter property is defined with `configurable: true`, so that a later binding of
    the same name may replace it. With that one attribute, rebinding overwrites and every
    read goes through the producer most recently stored for the name.
 */
module RedefinableLet {
  import opened JsValues
  import opened PropertyDescriptors
  import opened Lazylet
  import opened LazyletFacts

  /** The descriptor with `configurable: true` added. */
  function RedefinableDescriptor(p: Producer): Descriptor {
    Descriptor(p, Some(true), Some(true))
  }

  /** What every environment built by `New` and `LetRedefinable` satisfies: one property per
      table entry, each enumerable, configurable, and reading through that entry. */
  predicate RedefinableValid(e: Env) {
    && e.vars.Keys == e.props.Keys
    && Reserved !! e.vars.Keys
    && (forall name :: name in e.props ==> e.props[name].enumerable && e.props[name].configurable)
    && Coherent(e)
  }

  /** `Let` with a redefinable getter property. */
  function LetRedefinable(e: Env, name: string, thing: Value): (r: LetResult)
    requires name !in Reserved
    ensures RedefinableValid(e) ==> r.Ok? && RedefinableValid(r.env)
    ensures r.env.vars.Keys == e.vars.Keys + {name}
    ensures forall n :: n in e.vars && n != name ==> r.env.vars[n] == e.vars[n]
    ensures thing.Callable? ==> r.env.vars[name] == thing.f
    ensures !thing.Callable? ==> r.env.vars[name] == Wrap(e.nextId, thing)
    ensures r.Ok? ==> r.env.props.Keys == e.props.Keys + {name} && r.env.props[name].get == r.env.vars[name]
    ensures r.Ok? ==> forall n :: n in e.props && n != name ==> r.env.props[n] == e.props[n]
  {
    BindWith(e, name, thing, RedefinableDescriptor)
  }

  /** Rebinding overwrites: after binding `name` to `v1` and then to a constant `v2`,
      reading `name` returns `v2`, whatever `v1` was. */
  lemma RedefinableRebindReadsLatest(e: Env, name: string, v1: Value, v2: Value, calls: Calls, oracle: Oracle)
    requires RedefinableValid(e) && name !in Reserved && !v2.Callable?
    ensures LetRedefinable(e, name, v1).Ok?
    ensures LetRedefinable(LetRedefinable(e, name, v1).env, name, v2).Ok?
    ensures Read(LetRedefinable(LetRedefinable(e, name, v1).env, name, v2).env, name, calls, oracle) == Found(v2, calls)
  {
  }

  /** The rebinding scenario that `Lazylet.Let` gets wrong: 5 then 6 reads 6. */
  lemma RedefinableRebindScenario(calls: Calls, oracle: Oracle)
    ensures var e1 := LetRedefinable(New(), "x", Number(5)).env;
      && LetRedefinable(e1, "x", Number(6)).Ok?
      && Read(LetRedefinable(e1, "x", Number(6)).env, "x", calls, oracle) == Found(Number(6), calls)
  {
  }
}
