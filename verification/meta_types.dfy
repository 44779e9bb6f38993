/** The meta model's type tables (xtuml/model.py:278-321): the default value of each
    type name, the type name of each Python type and the Python type of each name. */
module MetaTypes {
  import opened Errors
  import opened Values
  import opened Ids

  /** The type names `named_type` knows. */
  predicate IsTypeName(name: string) {
    name in {"boolean", "integer", "real", "string", "inst_ref", "inst_ref_set", "unique_id"}
  }

  /** The type names `default_value` knows: `inst_ref` and `inst_ref_set` have no default. */
  predicate HasDefault(name: string) {
    name in {"boolean", "integer", "real", "string", "unique_id"}
  }

  /** `default_value(ty_name)`: a fixed value per scalar type, the next id for `unique_id`,
      `ModelException` otherwise. Returns the generator as it is afterwards. */
  function DefaultValue(typeName: string, g: IdGen): (r: (Result<Value>, IdGen))
    ensures r.0.Ok? <==> HasDefault(typeName)
    ensures r.0.Err? ==> r.0.error == UnknownType(typeName)
    ensures r.1 == if typeName == "unique_id" then Next(g).1 else g
    ensures typeName == "unique_id" ==> r.0 == Ok(VId(Peek(g)))
    ensures typeName == "boolean" ==> r.0 == Ok(VBool(false))
    ensures typeName == "integer" ==> r.0 == Ok(VInt(0))
    ensures typeName == "real" ==> r.0 == Ok(VReal(0.0))
    ensures typeName == "string" ==> r.0 == Ok(VStr(""))
  {
    if typeName == "boolean" then (Ok(VBool(false)), g)
    else if typeName == "integer" then (Ok(VInt(0)), g)
    else if typeName == "real" then (Ok(VReal(0.0)), g)
    else if typeName == "string" then (Ok(VStr("")), g)
    else if typeName == "unique_id" then
      var (id, g') := Next(g);
      (Ok(VId(id)), g')
    else (Err(UnknownType(typeName)), g)
  }

  /** `type_name(ty)`: the first `issubclass` test that succeeds, in the source's order,
      so bool is named before int and None is named like an instance. */
  function TypeName(ty: PyType): (r: Result<string>)
    ensures r.Err? <==> ty == TOther
    ensures r.Err? ==> r.error == UnknownPyType
    ensures r.Ok? && ty != TNoneType ==> NamedType(r.value).Ok? && IsSubclass(ty, NamedType(r.value).value)
    ensures IsSubclass(ty, TBool) ==> r == Ok("boolean")
    ensures ty == TNoneType ==> r == Ok("inst_ref")
  {
    if IsSubclass(ty, TBool) then Ok("boolean")
    else if IsSubclass(ty, TInt) then Ok("integer")
    else if IsSubclass(ty, TFloat) then Ok("real")
    else if IsSubclass(ty, TStr) then Ok("string")
    else if IsSubclass(ty, TBaseObject) then Ok("inst_ref")
    else if IsSubclass(ty, TNoneType) then Ok("inst_ref")
    else if IsSubclass(ty, TQuerySet) then Ok("inst_ref_set")
    else if IsSubclass(ty, TUuid) then Ok("unique_id")
    else Err(UnknownPyType)
  }

  /** `named_type(name)`: the Python type behind a meta model type name. */
  function NamedType(name: string): (r: Result<PyType>)
    ensures r.Ok? <==> IsTypeName(name)
    ensures r.Err? ==> r.error == UnknownType(name)
  {
    if name == "boolean" then Ok(TBool)
    else if name == "integer" then Ok(TInt)
    else if name == "real" then Ok(TFloat)
    else if name == "string" then Ok(TStr)
    else if name == "inst_ref" then Ok(TBaseObject)
    else if name == "inst_ref_set" then Ok(TQuerySet)
    else if name == "unique_id" then Ok(TUuid)
    else Err(UnknownType(name))
  }

  /** `named_type` and `type_name` are inverse on the type names. */
  lemma NamedTypeRoundTrip(name: string)
    requires IsTypeName(name)
    ensures TypeName(NamedType(name).value) == Ok(name)
  {
  }

  /** In the other direction a type is named by a class it is a subclass of; only
      `NoneType` is named `inst_ref` without being a BaseObject. */
  lemma TypeNameSound(ty: PyType)
    requires TypeName(ty).Ok? && ty != TNoneType
    ensures NamedType(TypeName(ty).value).Ok?
    ensures IsSubclass(ty, NamedType(TypeName(ty).value).value)
  {
  }

  /** bool is a subclass of int, yet is named `boolean`: the order of the tests matters. */
  lemma BoolNamedBeforeInt()
    ensures IsSubclass(TBool, TInt)
    ensures TypeName(TBool) == Ok("boolean")
    ensures TypeName(TNoneType) == Ok("inst_ref")
    ensures TypeName(TOther).Err?
  {
  }

  /** Every default value is an instance of its type and is named by it, so `new` never
      needs to coerce a default; only `unique_id` consumes an id. */
  lemma DefaultHasItsType(typeName: string, g: IdGen)
    requires DefaultValue(typeName, g).0.Ok?
    ensures IsInstanceOf(DefaultValue(typeName, g).0.value, NamedType(typeName).value)
    ensures TypeName(TypeOf(DefaultValue(typeName, g).0.value)) == Ok(typeName)
  {
  }
}
