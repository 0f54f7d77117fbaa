/** Own accessor properties of an ordinary object and the ECMA-262 rules for
    redefining them (ValidateAndApplyPropertyDescriptor, section 10.1.6.3 of ECMA-262,
    as reached from Object.defineProperty, section 20.1.2.4).

    Only accessor properties without a setter occur on an environment, and the
    environment object stays extensible, so those are the only cases modelled.
 */
module PropertyDescriptors {
  import opened JsValues

  /** A fully populated accessor property; its [[Set]] is always undefined. */
  datatype Property = Accessor(get: Producer, enumerable: bool, configurable: bool)

  /** A property descriptor with a getter; absent attributes are `None`. */
  datatype Descriptor = Descriptor(get: Producer, enumerable: Option<bool>, configurable: Option<bool>)

  /** The own properties of an object, by key. */
  type Object = map<string, Property>

  /** Attributes absent from a descriptor default to false when a property is created
      (Table "Default Attribute Values", section 6.1.7.1 of ECMA-262). */
  const AttributeDefault: bool := false

  /** `desc` asks for nothing a non-configurable property `current` can refuse:
      it keeps configurable off, keeps enumerability, and names the same getter. */
  predicate Agrees(current: Property, desc: Descriptor) {
    && desc.configurable != Some(true)
    && desc.enumerable in {None, Some(current.enumerable)}
    && desc.get == current.get
  }

  /** [[DefineOwnProperty]] of an ordinary extensible object: `None` when the
      redefinition is rejected (Object.defineProperty then throws TypeError). */
  function DefineOwnProperty(o: Object, key: string, desc: Descriptor): (r: Option<Object>)
    // a new key is always accepted, with absent attributes defaulted to false
    ensures key !in o ==> r.Some? && r.value.Keys == o.Keys + {key}
    ensures key !in o ==>
      r.value[key] == Accessor(desc.get, desc.enumerable.GetOr(AttributeDefault), desc.configurable.GetOr(AttributeDefault))
    // a configurable property may always be redefined
    ensures key in o && o[key].configurable ==> r.Some?
    ensures key in o && o[key].configurable ==>
      r.Some? && key in r.value && r.value[key] == Accessor(desc.get, desc.enumerable.GetOr(o[key].enumerable), desc.configurable.GetOr(o[key].configurable))
    // a non-configurable property may only be "redefined" to itself
    ensures key in o && !o[key].configurable ==> (r.Some? <==> Agrees(o[key], desc))
    ensures key in o && !o[key].configurable && r.Some? ==> r.value == o
    // on success the key holds the requested getter and nothing else changes
    ensures r.Some? ==> r.value.Keys == o.Keys + {key} && r.value[key].get == desc.get
    ensures r.Some? ==> forall k :: k in o && k != key ==> r.value[k] == o[k]
  {
    if key !in o then
      Some(o[key := Accessor(desc.get, desc.enumerable.GetOr(AttributeDefault),
                             desc.configurable.GetOr(AttributeDefault))])
    else
      var current := o[key];
      if !current.configurable && desc.configurable == Some(true) then None
      else if !current.configurable && desc.enumerable.Some? && desc.enumerable.value != current.enumerable then None
      else if !current.configurable && desc.get != current.get then None
      else
        var updated := Accessor(desc.get, desc.enumerable.GetOr(current.enumerable),
                                desc.configurable.GetOr(current.configurable));
        assert !current.configurable ==> updated == current;
        Some(o[key := updated])
  }
}
