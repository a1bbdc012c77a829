/**
  `DEFAULT_DECONSTRUCTOR` (src/Pool.ts): the reset a pool applies on release
  when the caller supplies none. It walks the enumerable keys of the object and
  sets every OWN property to `null`; inherited keys are enumerated too but
  skipped.
 */
module DefaultDeconstructor {

  /** The JavaScript values a property can hold, as far as the reset cares. */
  datatype Value = Null | Undefined | Bool(b: bool) | Number(x: int) | Str(s: string) | Ref(id: nat)

  /** An object as `for (key in object)` sees it: its own enumerable properties
      and the enumerable properties it inherits. */
  datatype JsObject = JsObject(own: map<string, Value>, inherited: map<string, Value>)

  /** The object is in the reset state: every own property holds `null`. */
  predicate Cleared(o: JsObject) {
    forall k | k in o.own :: o.own[k] == Null
  }

  /** `DEFAULT_DECONSTRUCTOR(object)`: keeps every own key, sets its value to
      `null`, and leaves inherited properties alone. */
  function Deconstruct(o: JsObject): (r: JsObject)
    ensures r.own.Keys == o.own.Keys
    ensures Cleared(r)
    ensures r.inherited == o.inherited
  {
    JsObject(map k | k in o.own :: Null, o.inherited)
  }

  /** Resetting an object changes it exactly when it was not already reset. */
  lemma DeconstructFixesCleared(o: JsObject)
    ensures Deconstruct(o) == o <==> Cleared(o)
  {
    if Cleared(o) {
      assert Deconstruct(o).own == o.own;
    } else {
      var k :| k in o.own && o.own[k] != Null;
      assert Deconstruct(o).own[k] == Null;
    }
  }

  /** The `Person` objects of src/Pool.test.ts under the default reset: the own
      property `meta`, an object reference, becomes `null` rather than an empty
      object, so reading `meta.age` afterwards would throw. */
  lemma DeconstructNullsNestedObject(o: JsObject, id: nat)
    requires "meta" in o.own && o.own["meta"] == Ref(id)
    ensures "meta" in Deconstruct(o).own && Deconstruct(o).own["meta"] == Null
  {
  }

  /** Resetting twice is resetting once. */
  lemma DeconstructIdempotent(o: JsObject)
    ensures Deconstruct(Deconstruct(o)) == Deconstruct(o)
  {
    DeconstructFixesCleared(Deconstruct(o));
  }
}
