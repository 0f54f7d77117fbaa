/** Properties of `Lazylet.Env` that relate several calls: what reads return after a
    binding, what a rebinding does, and how the `vars` table and the exposed
    properties can drift apart.
 */
module LazyletFacts {
  import opened JsValues
  import opened PropertyDescriptors
  import opened Lazylet

  /** Every exposed property reads through the producer `vars` holds for its name. */
  predicate Coherent(e: Env) {
    forall name :: name in e.props ==> name in e.vars && e.props[name].get == e.vars[name]
  }

  /** A caller function that counts its own calls: the k-th call returns k. */
  function Counter(id: nat, k: nat): Value {
    Number(k)
  }

  /** Binding a fresh name succeeds and adds exactly that name, both to the table and to
      the enumerable properties; every other name keeps its producer and its property. */
  lemma LetUnboundName(e: Env, name: string, thing: Value)
    requires Valid(e) && name !in Reserved && name !in e.vars
    ensures Let(e, name, thing).Ok?
    ensures Let(e, name, thing).env.vars.Keys == e.vars.Keys + {name}
    ensures EnumerableNames(Let(e, name, thing).env) == EnumerableNames(e) + {name}
    ensures forall n :: n != name && n in e.vars ==>
      Let(e, name, thing).env.vars[n] == e.vars[n] && Let(e, name, thing).env.props[n] == e.props[n]
    ensures Let(e, name, thing).env.props[name].get == Let(e, name, thing).env.vars[name]
  {
  }

  /** Reads through a constant-returning closure all return its captured value and call nothing. */
  lemma {:induction false} WrapReadsStable(e: Env, name: string, calls: Calls, oracle: Oracle, k: nat)
    requires name in e.props && e.props[name].get.Wrap?
    ensures forall i :: 0 <= i < k ==> Reads(e, name, calls, oracle, k)[i] == e.props[name].get.captured
    decreases k
  {
    if k > 0 {
      WrapReadsStable(e, name, calls, oracle, k - 1);
      var rest := Reads(e, name, calls, oracle, k - 1);
      assert Reads(e, name, calls, oracle, k) == [e.props[name].get.captured] + rest;
    }
  }

  /** Reads through a caller's function are not memoised: the i-th read is the function's
      call number `CallCount(calls, id) + i`. */
  lemma {:induction false} FnReadsNotMemoised(e: Env, name: string, calls: Calls, oracle: Oracle, k: nat)
    requires name in e.props && e.props[name].get.Fn?
    ensures forall i :: 0 <= i < k ==>
      Reads(e, name, calls, oracle, k)[i] == oracle(e.props[name].get.id, CallCount(calls, e.props[name].get.id) + i)
    decreases k
  {
    if k > 0 {
      var id := e.props[name].get.id;
      var r := Read(e, name, calls, oracle);
      FnReadsNotMemoised(e, name, r.calls, oracle, k - 1);
      var vs := Reads(e, name, calls, oracle, k);
      assert vs == [r.value] + Reads(e, name, r.calls, oracle, k - 1);
      forall i | 0 <= i < k
        ensures vs[i] == oracle(id, CallCount(calls, id) + i)
      {
        if i > 0 {
          assert vs[i] == Reads(e, name, r.calls, oracle, k - 1)[i - 1];
        }
      }
    }
  }

  /** After a successful binding of a constant, reading the name returns that constant,
      and so does every later read. */
  lemma ConstantBindingReadsBack(e: Env, name: string, v: Value, calls: Calls, oracle: Oracle, k: nat)
    requires name !in Reserved && !v.Callable? && Let(e, name, v).Ok?
    ensures Read(Let(e, name, v).env, name, calls, oracle) == Found(v, calls)
    ensures forall i :: 0 <= i < k ==> Reads(Let(e, name, v).env, name, calls, oracle, k)[i] == v
  {
  }

  /** After a successful binding of a caller's function, successive reads call it anew:
      read i yields the function's call number `CallCount(calls, id) + i`. */
  lemma FunctionBindingReadsAfresh(e: Env, name: string, id: nat, calls: Calls, oracle: Oracle, k: nat)
    requires name !in Reserved && Let(e, name, Callable(Fn(id))).Ok?
    ensures Let(e, name, Callable(Fn(id))).env.vars[name] == Fn(id)
    ensures forall i :: 0 <= i < k ==>
      Reads(Let(e, name, Callable(Fn(id))).env, name, calls, oracle, k)[i] == oracle(id, CallCount(calls, id) + i)
  {
    FnReadsNotMemoised(Let(e, name, Callable(Fn(id))).env, name, calls, oracle, k);
  }

  /** With a counting function bound, successive reads return strictly increasing numbers. */
  lemma CounterReadsIncrease(e: Env, name: string, id: nat, calls: Calls, k: nat)
    requires name !in Reserved && Let(e, name, Callable(Fn(id))).Ok?
    ensures var vs := Reads(Let(e, name, Callable(Fn(id))).env, name, calls, Counter, k);
      forall i, j :: 0 <= i < j < k ==> vs[i].Number? && vs[j].Number? && vs[i].n < vs[j].n
  {
    FunctionBindingReadsAfresh(e, name, id, calls, Counter, k);
  }

  /** Rebinding a bound name with a different producer throws TypeError, but only after
      the table entry was overwritten: `vars` holds the new producer, while the property,
      and therefore every read, still goes through the old getter. */
  lemma RebindDifferentFails(e: Env, name: string, thing: Value, calls: Calls, oracle: Oracle)
    requires Valid(e) && name !in Reserved && name in e.vars
    requires Normalise(thing, e.nextId) != e.props[name].get
    ensures Let(e, name, thing).TypeError?
    ensures Let(e, name, thing).env.vars[name] == Normalise(thing, e.nextId)
    ensures Let(e, name, thing).env.props == e.props
    ensures Let(e, name, thing).env.vars[name] != Let(e, name, thing).env.props[name].get
    ensures Read(Let(e, name, thing).env, name, calls, oracle) == Read(e, name, calls, oracle)
  {
  }

  /** Rebinding a bound name with a constant always fails: the closure made for the
      constant is a new object, so it is never the getter already installed. */
  lemma ConstantRebindFails(e: Env, name: string, v: Value)
    requires Valid(e) && name !in Reserved && name in e.vars && !v.Callable?
    ensures Let(e, name, v).TypeError?
  {
  }

  /** Rebinding a name with the very function object its property already uses succeeds
      and leaves every property (getter and enumerability) as it was. */
  lemma SameFunctionRebindIsNoOp(e: Env, name: string, f: Producer)
    requires Valid(e) && name !in Reserved && name in e.props && e.props[name].get == f
    ensures Let(e, name, Callable(f)).Ok?
    ensures Let(e, name, Callable(f)).env.props == e.props
    ensures EnumerableNames(Let(e, name, Callable(f)).env) == EnumerableNames(e)
    ensures Let(e, name, Callable(f)).env.vars[name] == f
  {
  }

  /** In a valid environment, a `Let` keeps every property reading through its table
      entry exactly when it succeeds. */
  lemma LetCoherentIffOk(e: Env, name: string, thing: Value)
    requires Valid(e) && Coherent(e) && name !in Reserved
    ensures Coherent(Let(e, name, thing).env) <==> Let(e, name, thing).Ok?
  {
  }

  /** Chaining: binding two distinct fresh names one after the other succeeds twice and
      leaves both properties reading through their own producers; constants read back. */
  lemma ChainTwoBindings(e: Env, n1: string, t1: Value, n2: string, t2: Value, calls: Calls, oracle: Oracle)
    requires Valid(e) && n1 !in Reserved && n2 !in Reserved && n1 != n2
    requires n1 !in e.vars && n2 !in e.vars
    ensures Let(e, n1, t1).Ok? && Let(Let(e, n1, t1).env, n2, t2).Ok?
    ensures var e2 := Let(Let(e, n1, t1).env, n2, t2).env;
      && e2.props[n1].get == e2.vars[n1]
      && e2.props[n2].get == e2.vars[n2]
      && (!t1.Callable? ==> Read(e2, n1, calls, oracle) == Found(t1, calls))
      && (!t2.Callable? ==> Read(e2, n2, calls, oracle) == Found(t2, calls))
  {
  }

  /** Binding the same constant twice: the second call throws, yet reads observe the
      same value as after the first. */
  lemma RepeatedConstantBinding(e: Env, name: string, v: Value, calls: Calls, oracle: Oracle)
    requires Valid(e) && name !in Reserved && name !in e.vars && !v.Callable?
    ensures Let(Let(e, name, v).env, name, v).TypeError?
    ensures Read(Let(Let(e, name, v).env, name, v).env, name, calls, oracle) == Found(v, calls)
  {
  }

  /** `x` bound to 5 and `y` bound to a function whose first call returns 5 both read 5. */
  lemma ConstantAndFunctionScenario(id: nat, oracle: Oracle)
    requires oracle(id, 0) == Number(5)
    ensures var e1 := Let(New(), "x", Number(5));
      && e1.Ok?
      && Let(e1.env, "y", Callable(Fn(id))).Ok?
      && Read(Let(e1.env, "y", Callable(Fn(id))).env, "x", map[], oracle).value == Number(5)
      && Read(Let(e1.env, "y", Callable(Fn(id))).env, "y", map[], oracle).value == Number(5)
  {
  }

  /** Rebinding does not overwrite: after binding `x` to 5 and then to 6, the second call
      throws, `vars` holds a closure returning 6, and reading `x` still yields 5. */
  lemma RebindKeepsOldValue(calls: Calls, oracle: Oracle)
    ensures var e1 := Let(New(), "x", Number(5)).env;
      && Let(e1, "x", Number(6)).TypeError?
      && Let(e1, "x", Number(6)).env.vars["x"].captured == Number(6)
      && Read(Let(e1, "x", Number(6)).env, "x", calls, oracle) == Found(Number(5), calls)
  {
  }
}
