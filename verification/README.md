# lazylet `Env` in Dafny

lazylet provides one type, `Env`. It is a flat environment. `Let(name, thing)` records
a zero-argument producer for `name` in the table `vars`. A function is stored as it is.
Any other value is wrapped in a new closure that returns it. `Let` then installs the
producer as the getter of an enumerable own property `name` of the environment. Reading
`env.name` calls that getter afresh each time; nothing is memoised.

This model is functional. An environment is an immutable value `Env(vars, props, nextId)`:

- `vars` is the producer table.
- `props` holds the environment's own getter properties, with their ECMA-262 attributes.
- `nextId` is the identity the next constant-wrapping closure receives.

`Let` returns `Ok(env')` or `TypeError(env')`. Reads take the call history and an
oracle that says what each caller function returns on its k-th call.

Files:

- `values.dfy` (`JsValues`): JavaScript values, producers (function objects by identity), call counting.
- `descriptors.dfy` (`PropertyDescriptors`): accessor properties and [[DefineOwnProperty]] of an ordinary
  object, following ValidateAndApplyPropertyDescriptor (section 10.1.6.3 of ECMA-262).
- `env.dfy` (`Lazylet`): `New`, `Let`, property reads.
- `env_facts.dfy` (`LazyletFacts`): lemmas about reads, rebinding and chaining.
- `redefinable.dfy` (`RedefinableLet`): the corrected binding operation described under Findings.

### Rebinding does not overwrite

One might expect a second `Let` of a name to replace both the producer and the
property. The code does something else, and this model follows the code:

- The descriptor passed at dist/lazylet.js:18-21 has no `configurable` attribute.
- An absent attribute defaults to false (section 6.1.7.1 of ECMA-262), so every bound
  name is a non-configurable property.
- Redefining a non-configurable accessor with a different getter is rejected. Object.defineProperty
  then throws TypeError (section 20.1.2.4 of ECMA-262).
- Lines 12 and 14 have already run by then. So `vars[name]` holds the new producer while the
  property, and every read, keeps the old getter.
- A constant can never be rebound, because line 14 always makes a new closure.
- Rebinding with the function object the property already uses succeeds and leaves the property unchanged; `vars[name]` becomes that function again (after a failed rebind it had been overwritten).

## Model

| member | source | states |
|---|---|---|
| `JsValues.Invoke` | dist/lazylet.js:14-16 | a constant's closure returns exactly the captured value and calls nothing; a caller's function answers its next oracle call and its call count advances by one, no other count changes |
| `PropertyDescriptors.DefineOwnProperty` | dist/lazylet.js:18-21 | a new key is always added, with absent attributes false; a configurable property can always be redefined; a non-configurable one succeeds exactly when the descriptor agrees with it (same getter, same enumerability, not made configurable), and then the object is unchanged; other keys never change |
| `Lazylet.New` | dist/lazylet.js:6-8 | a new environment is valid, has an empty `vars` table and no binding getter properties |
| `Lazylet.Normalise` | dist/lazylet.js:11-17 | a function is stored as the same object; any other value becomes a new closure which, whatever the call history, returns that value and consumes no call |
| `Lazylet.BindWith` | dist/lazylet.js:11-21 | the steps both binding variants share: `vars[name]` becomes the normalised producer, other entries kept; the call succeeds exactly when defining the property from the given descriptor succeeds, and then the properties are the defined ones; on failure the properties are untouched; the closure-identity bound only grows and covers the stored producer |
| `Lazylet.Let` | dist/lazylet.js:10-22 | `vars[name]` always ends up as the normalised producer, other entries kept; the call succeeds exactly when the name has no property, or has one that accepts this getter (in a valid environment: the same getter object); on success `name` is an enumerable property whose getter is `vars[name]`, other properties are kept; on TypeError no property changes; validity is preserved |
| `Lazylet.Read` | dist/lazylet.js:18-19 | a read finds a value exactly when `name` has an own getter property; it calls the property's getter, not the `vars` entry; a constant's closure consumes no call, a caller's function advances only its own call count |
| `Lazylet.Reads` | dist/lazylet.js:18-19 | k successive reads of a bound name give k results; an unbound name gives none |
| `LazyletFacts.LetUnboundName` | dist/lazylet.js:12-20 | binding an unbound name succeeds, adds exactly that name to `vars` and to the enumerable names, installs `vars[name]` as its getter, and keeps every other name's producer and property |
| `LazyletFacts.WrapReadsStable` | dist/lazylet.js:14-16 | every read through a constant's closure returns the captured value |
| `LazyletFacts.FnReadsNotMemoised` | dist/lazylet.js:18-19 | read i through a caller's function is that function's call number `start + i`; nothing is cached |
| `LazyletFacts.ConstantBindingReadsBack` | dist/lazylet.js:13-19 | after a successful constant binding, reading the name returns the constant and calls nothing, and every later read returns it again |
| `LazyletFacts.FunctionBindingReadsAfresh` | dist/lazylet.js:11-12 | after a successful function binding, `vars[name]` is that same function and each read calls it anew |
| `LazyletFacts.CounterReadsIncrease` | dist/lazylet.js:18-19 | with a counting function bound, successive reads return strictly increasing numbers |
| `LazyletFacts.RebindDifferentFails` | dist/lazylet.js:12-21 | rebinding a bound name with a different producer throws TypeError; `vars[name]` holds the new producer, the properties are unchanged, the two disagree, and reads return what they did before |
| `LazyletFacts.ConstantRebindFails` | dist/lazylet.js:13-21 | rebinding a bound name with a constant always throws TypeError |
| `LazyletFacts.SameFunctionRebindIsNoOp` | dist/lazylet.js:11-21 | rebinding a name with the function object its property already uses succeeds and leaves every property and the enumerable names unchanged |
| `LazyletFacts.LetCoherentIffOk` | dist/lazylet.js:10-22 | from a valid environment in which every property reads through its `vars` entry, `Let` keeps that so exactly when it succeeds |
| `LazyletFacts.ChainTwoBindings` | dist/lazylet.js:18 | two bindings of distinct unbound names, the second applied to the environment the first returned, both succeed; both properties read through their own producers, and constants read back |
| `LazyletFacts.RepeatedConstantBinding` | dist/lazylet.js:13-21 | binding the same constant twice makes the second call throw, yet the name still reads that constant |
| `LazyletFacts.ConstantAndFunctionScenario` | dist/lazylet.js:10-22 | `x` bound to 5 and `y` bound to a function whose first call returns 5 both read 5 |
| `LazyletFacts.RebindKeepsOldValue` | dist/lazylet.js:18-21 | binding `x` to 5 and then to 6 throws on the second call, leaves a closure returning 6 in `vars`, and `x` still reads 5 |
| `RedefinableLet.LetRedefinable` | dist/lazylet.js:18-21 | with `configurable: true`, binding always succeeds from a valid environment and keeps every property reading through its `vars` entry |
| `RedefinableLet.RedefinableRebindReadsLatest` | dist/lazylet.js:18-21 | with `configurable: true`, binding a name and then rebinding it to a constant reads the constant |
| `RedefinableLet.RedefinableRebindScenario` | dist/lazylet.js:18-21 | with `configurable: true`, binding `x` to 5 and then to 6 succeeds and `x` reads 6 |

## Findings

| source | as written | input that shows it | evidently intended | confidence | as-written member | corrected member |
|---|---|---|---|---|---|---|
| dist/lazylet.js:18-21 | the getter property is defined without `configurable`, so it is non-configurable; a rebinding with a different producer throws TypeError after `vars` was overwritten | `env.Let("x", 5); env.Let("x", 6)` throws, and `env.x` is still 5 | rebinding overwrites: `env.x` reads 6, and every property reads through its `vars` entry | medium, not executed | `LazyletFacts.RebindKeepsOldValue` | `RedefinableLet.LetRedefinable` |

The lemmas in `LazyletFacts` describe the program as written, because that is what callers
get. `RedefinableLet` shows that adding `configurable: true` to the descriptor gives the
overwrite behaviour. `RedefinableRebindReadsLatest` and `RedefinableRebindScenario` prove it.

## Left out

- The CommonJS/global export shim and the wrapping function (dist/lazylet.js:2, 28-30). They are packaging, not behaviour.
- Names are strings. Property-key coercion of other values, symbols, and the prototype chain are not modelled. `Read` returning `NotFound` means only that the environment has no own getter property for the name; the host's lookup would continue up the prototype chain.
- Binding the names `vars`, `Let` and `__proto__` is excluded by a precondition. The first two would corrupt or shadow the environment's own members. Assigning `vars.__proto__` changes the table's prototype instead of adding an entry.
- Producers are abstract. Their side effects, thrown exceptions, and the `this` they see are not modelled. A caller function's results come from an oracle indexed by its identity and call count.
- Numbers are modelled as integers, not IEEE doubles. Objects that are not functions are opaque references. Neither affects the environment's behaviour.
- Closure identities are numbered per environment. A constant's closure is guaranteed to differ from everything that environment holds. Two closures made by two different environments with the same number and the same captured value are not told apart.
- `this.vars = {}` (dist/lazylet.js:7) makes `vars` an enumerable own data property of every environment, so `Object.keys(new Env())` is `["vars"]`. That property is always present and is not in `props`; `EnumerableNames` covers only the getter properties of the bindings.
- Writing to a bound name (the property has no setter) is not modelled. Neither is making the environment non-extensible. The environment is always an extensible ordinary object.
- Concurrency: the code is synchronous and single-threaded.
