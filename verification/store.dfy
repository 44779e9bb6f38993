/** The `MetaModel` object store (xtuml/model.py:254-356, 458-508) as an immutable record.

    Instances live in an arena and are named by their index (`Handle`). Every class object
    `define_class` ever made stays in `classObjs`, so an instance keeps the class object it
    was made by even after its kind is redefined; `classes` maps each kind to its current
    class object. A class object carries what the source keeps on the generated class: the
    declared attributes, the association table `__q__` and the join cache `__c__`. */
module Store {
  import opened Errors
  import opened OrderedSets
  import opened Values
  import opened Ids
  import opened MetaTypes
  import opened Dicts
  import opened Objects
  import opened Associations

  /** The frozenset of (attribute, value) pairs a join is cached under; values are kept in
      canonical form, since equal numbers hash alike. */
  type JoinKey = set<(string, Value)>

  /** A declared attribute: its name and meta model type name. */
  datatype Attribute = Attribute(name: string, typeName: string)

  datatype ClassObj = ClassObj(
    kind: string,
    schema: seq<Attribute>,                    // param_names / param_types of the kind
    assoc: map<AssocKey, Endpoints>,           // __q__
    cache: map<JoinKey, seq<Handle>>)          // __c__

  datatype Instance = Instance(cls: nat, attrs: Dict)

  datatype Store = Store(
    classes: map<string, nat>,
    classObjs: seq<ClassObj>,
    instances: map<string, seq<Handle>>,
    heap: seq<Instance>,
    ids: IdGen,
    ignoreUndefinedClasses: bool)

  /** Every reference in the store points at something that exists. */
  ghost predicate WellFormed(s: Store) {
    && (forall k :: k in s.classes ==> s.classes[k] < |s.classObjs| && s.classObjs[s.classes[k]].kind == k)
    && (forall k :: k in s.instances ==> k in s.classes)
    && (forall k :: k in s.instances ==> Distinct(s.instances[k]))
    && (forall k, i :: k in s.instances && 0 <= i < |s.instances[k]| ==> s.instances[k][i] < |s.heap|)
    && (forall h :: 0 <= h < |s.heap| ==> s.heap[h].cls < |s.classObjs|)
    && CachesLive(s)
  }

  /** Every handle a join cache holds names an instance. */
  ghost predicate CachesLive(s: Store) {
    forall c, key, i :: 0 <= c < |s.classObjs| && key in s.classObjs[c].cache && 0 <= i < |s.classObjs[c].cache[key]| ==>
      s.classObjs[c].cache[key][i] < |s.heap|
  }

  /** Every handle of a cache entry of a well-formed store names an instance. */
  lemma CacheEntryLive(s: Store, c: nat, key: JoinKey)
    requires WellFormed(s) && c < |s.classObjs| && key in s.classObjs[c].cache
    ensures forall i :: 0 <= i < |s.classObjs[c].cache[key]| ==> s.classObjs[c].cache[key][i] < |s.heap|
  {
  }

  /** `MetaModel(id_generator)`: no classes and no instances. */
  function Init(source: nat -> Id, ignoreUndefinedClasses: bool): (r: Store)
    ensures WellFormed(r)
    ensures r.classes == map[] && r.instances == map[] && r.heap == []
  {
    Store(map[], [], map[], [], NewIdGen(source), ignoreUndefinedClasses)
  }

  /** The instance list of a kind, empty when the kind has none yet. */
  function InstancesOf(s: Store, kind: string): seq<Handle> {
    if kind in s.instances then s.instances[kind] else []
  }

  /** `define_class(kind, attributes)`: a new class object with an empty association table
      and an empty cache becomes the kind's class; existing instances and class objects
      are left as they are. */
  function DefineClass(s: Store, kind: string, attributes: seq<Attribute>): (r: Store)
    requires WellFormed(s)
    ensures WellFormed(r)
    ensures kind in r.classes && r.classes[kind] == |s.classObjs|
    ensures r.classObjs[r.classes[kind]] == ClassObj(kind, attributes, map[], map[])
    ensures forall k :: k in s.classes && k != kind ==> k in r.classes && r.classes[k] == s.classes[k]
    ensures s.classObjs <= r.classObjs && |r.classObjs| == |s.classObjs| + 1
    ensures r.instances == s.instances && r.heap == s.heap && r.ids == s.ids
  {
    s.(classes := s.classes[kind := |s.classObjs|],
       classObjs := s.classObjs + [ClassObj(kind, attributes, map[], map[])])
  }

  // ---------------------------------------------------------------------------
  // new

  /** The number of `unique_id` attributes among `schema`. */
  function CountIds(schema: seq<Attribute>): nat {
    if |schema| == 0 then 0
    else CountIds(schema[..|schema| - 1]) + (if schema[|schema| - 1].typeName == "unique_id" then 1 else 0)
  }

  /** The default the `i`-th declared attribute receives: the fixed default of its type, or
      for a `unique_id` the id after those the earlier `unique_id` attributes took. */
  ghost function DefaultAt(schema: seq<Attribute>, i: nat, g: IdGen): Value
    requires i < |schema| && HasDefault(schema[i].typeName)
  {
    if schema[i].typeName == "unique_id" then VId(g.source(g.taken + CountIds(schema[..i])))
    else DefaultValue(schema[i].typeName, g).0.value
  }

  /** The position of the first declared attribute whose type has no default. */
  function FirstWithoutDefault(schema: seq<Attribute>): (r: Option<nat>)
    ensures r.None? <==> forall i :: 0 <= i < |schema| ==> HasDefault(schema[i].typeName)
    ensures r.Some? ==> r.value < |schema| && !HasDefault(schema[r.value].typeName)
    ensures r.Some? ==> forall j :: 0 <= j < r.value ==> HasDefault(schema[j].typeName)
  {
    if |schema| == 0 then None
    else
      var n := |schema| - 1;
      match FirstWithoutDefault(schema[..n])
      case Some(i) => Some(i)
      case None => if HasDefault(schema[n].typeName) then None else Some(n)
  }

  /** The first loop of `new`: the default of every declared attribute, in declaration
      order, with the generator after it. Stops at the first type without a default,
      having consumed the ids of the `unique_id` attributes before it. */
  function Defaults(schema: seq<Attribute>, g: IdGen): (r: (Result<Dict>, IdGen))
    ensures r.1.source == g.source
    ensures r.0.Ok? <==> FirstWithoutDefault(schema).None?
    ensures r.0.Ok? ==> r.1.taken == g.taken + CountIds(schema)
    ensures r.0.Ok? ==> |r.0.value| == |schema|
    ensures r.0.Ok? ==> forall i {:trigger r.0.value[i]} :: 0 <= i < |schema| ==>
      r.0.value[i].0 == schema[i].name && r.0.value[i].1 == DefaultAt(schema, i, g)
    ensures r.0.Err? ==>
      var i := FirstWithoutDefault(schema).value;
      r.0.error == UnknownType(schema[i].typeName) && r.1.taken == g.taken + CountIds(schema[..i])
    decreases |schema|
  {
    if |schema| == 0 then (Ok([]), g)
    else
      var n := |schema| - 1;
      var init := schema[..n];
      var (prefix, g1) := Defaults(init, g);
      if prefix.Err? then
        var i := FirstWithoutDefault(init).value;
        assert init[..i] == schema[..i];
        (prefix, g1)
      else
        var (v, g2) := DefaultValue(schema[n].typeName, g1);
        assert schema[..n] == init;
        if v.Err? then (Err(v.error), g2)
        else
          DefaultsExtend(schema, g, prefix.value, g1);
          (Ok(prefix.value + [(schema[n].name, v.value)]), g2)
  }

  /** The inductive step of `Defaults`: the defaults of all but the last attribute, followed
      by the last attribute's default, are the defaults of all of them. */
  lemma DefaultsExtend(schema: seq<Attribute>, g: IdGen, prefix: Dict, g1: IdGen)
    requires |schema| > 0 && forall i :: 0 <= i < |schema| ==> HasDefault(schema[i].typeName)
    requires |prefix| == |schema| - 1
    requires forall i :: 0 <= i < |schema| - 1 ==>
      prefix[i].0 == schema[i].name && prefix[i].1 == DefaultAt(schema[..|schema| - 1], i, g)
    requires g1.source == g.source && g1.taken == g.taken + CountIds(schema[..|schema| - 1])
    ensures
      var n := |schema| - 1;
      var (v, g2) := DefaultValue(schema[n].typeName, g1);
      var r := prefix + [(schema[n].name, v.value)];
      && g2.source == g.source && g2.taken == g.taken + CountIds(schema)
      && |r| == |schema|
      && forall i :: 0 <= i < |schema| ==> r[i].0 == schema[i].name && r[i].1 == DefaultAt(schema, i, g)
  {
    var n := |schema| - 1;
    var (v, g2) := DefaultValue(schema[n].typeName, g1);
    var r := prefix + [(schema[n].name, v.value)];
    DefaultsPrefix(schema, g);
    assert v.value == DefaultAt(schema, n, g);
    forall i | 0 <= i < |schema| ensures r[i].0 == schema[i].name && r[i].1 == DefaultAt(schema, i, g) {
      if i < n { assert r[i] == prefix[i]; }
    }
  }

  /** The default of an attribute does not depend on the attributes after it. */
  lemma DefaultsPrefix(schema: seq<Attribute>, g: IdGen)
    requires |schema| > 0
    ensures forall i :: 0 <= i < |schema| - 1 && HasDefault(schema[i].typeName) ==>
      DefaultAt(schema[..|schema| - 1], i, g) == DefaultAt(schema, i, g)
  {
    var n := |schema| - 1;
    forall i | 0 <= i < n && HasDefault(schema[i].typeName)
      ensures DefaultAt(schema[..n], i, g) == DefaultAt(schema, i, g)
    {
      assert schema[..n][..i] == schema[..i];
    }
  }

  /** `Type(value)` for a value that is not already of the type: the source's coercion,
      a partial function supplied by the caller. */
  type Coercion = (PyType, Value) -> Result<Value>

  /** A positional argument as `new` stores it for an attribute of type `typeName`. */
  function CoerceTo(typeName: string, v: Value, coerce: Coercion): (r: Result<Value>)
    ensures !IsTypeName(typeName) ==> r == Err(UnknownType(typeName))
    ensures IsTypeName(typeName) && IsInstanceOf(v, NamedType(typeName).value) ==> r == Ok(v)
    ensures IsTypeName(typeName) && !IsInstanceOf(v, NamedType(typeName).value) ==>
      r == coerce(NamedType(typeName).value, v)
  {
    match NamedType(typeName)
    case Err(e) => Err(e)
    case Ok(ty) => if IsInstanceOf(v, ty) then Ok(v) else coerce(ty, v)
  }

  /** The second loop of `new`: the first min(#declared, #positional) attributes paired with
      their coerced arguments. Stops at the first argument that cannot be stored. */
  function PositionalPairs(schema: seq<Attribute>, args: seq<Value>, coerce: Coercion): (r: Result<Dict>)
    ensures r.Ok? <==> forall i :: 0 <= i < |schema| && i < |args| ==> CoerceTo(schema[i].typeName, args[i], coerce).Ok?
    ensures r.Ok? ==> |r.value| == (if |schema| <= |args| then |schema| else |args|)
    ensures r.Ok? ==> forall i :: 0 <= i < |r.value| ==>
      r.value[i].0 == schema[i].name && CoerceTo(schema[i].typeName, args[i], coerce) == Ok(r.value[i].1)
    ensures r.Err? ==> exists i :: (0 <= i < |schema| && i < |args| &&
      CoerceTo(schema[i].typeName, args[i], coerce) == Err(r.error) &&
      forall j :: 0 <= j < i ==> CoerceTo(schema[j].typeName, args[j], coerce).Ok?)
  {
    if |schema| == 0 || |args| == 0 then Ok([])
    else match CoerceTo(schema[0].typeName, args[0], coerce)
      case Err(e) => Err(e)
      case Ok(v) =>
        match PositionalPairs(schema[1..], args[1..], coerce)
        case Err(e) => Err(e)
        case Ok(rest) => Ok([(schema[0].name, v)] + rest)
  }

  /** A store whose class object `c` has an empty cache (`self.__c__.clear()`). */
  function ClearCache(s: Store, c: nat): (r: Store)
    requires c < |s.classObjs|
    ensures |r.classObjs| == |s.classObjs| && r.classObjs[c].cache == map[]
    ensures r.classObjs[c].kind == s.classObjs[c].kind && r.classObjs[c].schema == s.classObjs[c].schema
    ensures r.classObjs[c].assoc == s.classObjs[c].assoc
    ensures forall i :: 0 <= i < |s.classObjs| && i != c ==> r.classObjs[i] == s.classObjs[i]
    ensures r.classes == s.classes && r.instances == s.instances && r.heap == s.heap && r.ids == s.ids
  {
    s.(classObjs := s.classObjs[c := s.classObjs[c].(cache := map[])])
  }

  /** The attributes `new` gives an instance, and the generator afterwards: the defaults of
      all declared attributes, overwritten by the positional pairs, then by the named
      arguments (`inst.__dict__.update(kwargs)`). */
  function BuildAttrs(schema: seq<Attribute>, args: seq<Value>, kwargs: Dict, coerce: Coercion, g: IdGen)
    : (r: (Result<Dict>, IdGen))
    ensures r.1.source == g.source
    ensures r.0.Ok? <==> FirstWithoutDefault(schema).None? && PositionalPairs(schema, args, coerce).Ok?
    ensures r.0.Ok? ==> r.1.taken == g.taken + CountIds(schema)
  {
    var (defaults, g1) := Defaults(schema, g);
    if defaults.Err? then (Err(defaults.error), g1)
    else match PositionalPairs(schema, args, coerce)
      case Err(e) => (Err(e), g1)
      case Ok(positional) => (Ok(Update(Update(FromPairs(defaults.value), positional), kwargs)), g1)
  }

  /** Appends an instance of `kind` with the given attributes to the arena and to the
      kind's instance list. */
  function AddInstance(s: Store, kind: string, attrs: Dict): (r: Store)
    requires WellFormed(s) && kind in s.classes
    ensures WellFormed(r)
    ensures r.heap == s.heap + [Instance(s.classes[kind], attrs)]
    ensures r.instances == s.instances[kind := InstancesOf(s, kind) + [|s.heap|]]
    ensures r.classes == s.classes && r.classObjs == s.classObjs && r.ids == s.ids
  {
    var h := |s.heap|;
    var r := s.(heap := s.heap + [Instance(s.classes[kind], attrs)],
                instances := s.instances[kind := InstancesOf(s, kind) + [h]]);
    assert forall k :: k in s.instances ==> h !in s.instances[k];
    assert Distinct(r.instances[kind]) by {
      var xs := InstancesOf(s, kind);
      assert Distinct(xs) && h !in xs;
      forall i, j | 0 <= i < j < |xs| + 1 ensures (xs + [h])[i] != (xs + [h])[j] {
        if j == |xs| { assert (xs + [h])[i] == xs[i]; }
      }
    }
    assert forall k, i :: k in r.instances && 0 <= i < |r.instances[k]| ==> r.instances[k][i] < |r.heap| by {
      forall k, i | k in r.instances && 0 <= i < |r.instances[k]| ensures r.instances[k][i] < |r.heap| {
        if k != kind || i < |InstancesOf(s, kind)| {
          assert r.instances[k][i] in s.instances[k];
        }
      }
    }
    r
  }

  /** `new(kind, *args, **kwargs)`. An undefined kind answers `None` when the model
      ignores undefined classes and raises otherwise, changing nothing; a defined kind
      builds an instance as `NewOf` describes. */
  function New(s: Store, kind: string, args: seq<Value>, kwargs: Dict, coerce: Coercion): (r: (Result<Value>, Store))
    requires WellFormed(s)
    ensures WellFormed(r.1)
    ensures kind !in s.classes ==> r.1 == s
    ensures kind !in s.classes ==> r.0 == if s.ignoreUndefinedClasses then Ok(VNone) else Err(UnknownClass(kind))
    ensures kind in s.classes ==> r == NewOf(s, kind, args, kwargs, coerce)
  {
    if kind !in s.classes then
      if s.ignoreUndefinedClasses then (Ok(VNone), s) else (Err(UnknownClass(kind)), s)
    else NewOf(s, kind, args, kwargs, coerce)
  }

  /** `new` for a defined kind. Constructing the instance clears its class's cache first;
      then every declared attribute gets its default, the positional arguments overwrite
      the first attributes, and the named arguments are stored as given. The cache
      clearing and the ids the defaults consumed stay even when a later step fails. */
  function NewOf(s: Store, kind: string, args: seq<Value>, kwargs: Dict, coerce: Coercion): (r: (Result<Value>, Store))
    requires WellFormed(s) && kind in s.classes
    ensures WellFormed(r.1)
    ensures
      var c := s.classes[kind];
      var schema := s.classObjs[c].schema;
      var built := BuildAttrs(schema, args, kwargs, coerce, s.ids);
      && r.1.classes == s.classes
      && r.1.classObjs == s.classObjs[c := s.classObjs[c].(cache := map[])]
      && r.1.ids.source == s.ids.source
      && r.1.ids == built.1
      && r.0.Ok? == built.0.Ok?
      && (r.0.Ok? <==> FirstWithoutDefault(schema).None? && PositionalPairs(schema, args, coerce).Ok?)
      && (built.0.Ok? ==> r.1.ids.taken == s.ids.taken + CountIds(schema))
      && (built.0.Ok? ==> r.0.value == VInst(|s.heap|) &&
                          r.1.heap == s.heap + [Instance(c, built.0.value)] &&
                          r.1.instances == s.instances[kind := InstancesOf(s, kind) + [|s.heap|]])
      && (built.0.Err? ==> r.1.heap == s.heap && r.1.instances == s.instances)
  {
    var c := s.classes[kind];
    var built := BuildAttrs(s.classObjs[c].schema, args, kwargs, coerce, s.ids);
    var s2 := ClearCacheWithIds(s, c, built.1);
    assert InstancesOf(s2, kind) == InstancesOf(s, kind) && s2.classes[kind] == c;
    if built.0.Err? then (Err(built.0.error), s2)
    else
      var s3 := AddInstance(s2, kind, built.0.value);
      assert s3.heap == s.heap + [Instance(c, built.0.value)];
      assert s3.ids.taken == s.ids.taken + CountIds(s.classObjs[c].schema);
      (Ok(VInst(|s.heap|)), s3)
  }

  /** The store after `new` has cleared the cache of class `c` and drawn ids up to `g`. */
  function ClearCacheWithIds(s: Store, c: nat, g: IdGen): (r: Store)
    requires WellFormed(s) && c < |s.classObjs|
    ensures WellFormed(r)
    ensures r.classObjs == s.classObjs[c := s.classObjs[c].(cache := map[])]
    ensures r.classes == s.classes && r.instances == s.instances && r.heap == s.heap && r.ids == g
  {
    var r := s.(classObjs := s.classObjs[c := s.classObjs[c].(cache := map[])], ids := g);
    assert forall k :: k in r.classes ==> r.classObjs[r.classes[k]].kind == s.classObjs[s.classes[k]].kind;
    r
  }

  /** The attributes `new` builds, in terms of its arguments: named arguments verbatim;
      otherwise, for the first min(#declared, #positional) attributes, the coerced
      positional argument (the last one given for a name declared twice); otherwise the
      default. Every declared attribute is present, and nothing else besides the named
      arguments. */
  lemma NewAttributes(schema: seq<Attribute>, args: seq<Value>, kwargs: Dict, coerce: Coercion, g: IdGen)
    requires BuildAttrs(schema, args, kwargs, coerce, g).0.Ok?
    ensures
      var attrs := BuildAttrs(schema, args, kwargs, coerce, g).0.value;
      var positional := PositionalPairs(schema, args, coerce).value;
      var defaults := Defaults(schema, g).0.value;
      && IsDict(attrs)
      && (forall k :: k in Keys(attrs) <==> k in Keys(defaults) || k in Keys(kwargs))
      && (forall i :: 0 <= i < |schema| ==> schema[i].name in Keys(attrs))
      && (forall k :: k in Keys(kwargs) ==> Lookup(attrs, k) == LastValue(kwargs, k))
      && (forall k :: k !in Keys(kwargs) && k in Keys(positional) ==> Lookup(attrs, k) == LastValue(positional, k))
      && (forall k :: k !in Keys(kwargs) && k !in Keys(positional) ==> Lookup(attrs, k) == LastValue(defaults, k))
  {
    var defaults := Defaults(schema, g).0.value;
    var positional := PositionalPairs(schema, args, coerce).value;
    forall i | 0 <= i < |schema| ensures schema[i].name in Keys(defaults) {
      KeysAt(defaults, i);
    }
    forall k | k in Keys(positional) ensures k in Keys(defaults) {
      var i :| 0 <= i < |Keys(positional)| && Keys(positional)[i] == k;
      KeysAt(positional, i);
      KeysAt(defaults, i);
    }
  }

  /** `new` makes a fresh handle: the returned instance is none of the existing ones. */
  lemma NewIsFresh(s: Store, kind: string, args: seq<Value>, kwargs: Dict, coerce: Coercion)
    requires WellFormed(s)
    requires New(s, kind, args, kwargs, coerce).0.Ok? && kind in s.classes
    ensures forall k, i :: k in s.instances && 0 <= i < |s.instances[k]| ==>
      VInst(s.instances[k][i]) != New(s, kind, args, kwargs, coerce).0.value
    ensures Last(OrderedSet(New(s, kind, args, kwargs, coerce).1.instances[kind])) == Some(|s.heap|)
  {
  }

  // ---------------------------------------------------------------------------
  // attribute access on stored instances

  /** `setattr(inst, name, v)`: a name the instance has (ignoring case) is updated in place
      and the instance's class's cache is cleared; any other name changes nothing at all. */
  function SetAttr(s: Store, h: Handle, name: string, v: Value): (r: Store)
    requires WellFormed(s) && h < |s.heap|
    ensures WellFormed(r)
    ensures WriteAttr(s.heap[h].attrs, name, v).None? ==> r == s
    ensures WriteAttr(s.heap[h].attrs, name, v).Some? ==>
      var c := s.heap[h].cls;
      && r.heap == s.heap[h := Instance(c, WriteAttr(s.heap[h].attrs, name, v).value)]
      && Keys(r.heap[h].attrs) == Keys(s.heap[h].attrs)
      && r.classObjs == s.classObjs[c := s.classObjs[c].(cache := map[])]
      && r.classes == s.classes && r.instances == s.instances && r.ids == s.ids
  {
    var c := s.heap[h].cls;
    match WriteAttr(s.heap[h].attrs, name, v)
    case None => s
    case Some(d) =>
      s.(heap := s.heap[h := Instance(c, d)],
         classObjs := s.classObjs[c := s.classObjs[c].(cache := map[])])
  }

  /** Every declared attribute of every instance is present. */
  ghost predicate DeclaredAttributesPresent(s: Store) {
    forall h, i :: 0 <= h < |s.heap| && s.heap[h].cls < |s.classObjs| && 0 <= i < |s.classObjs[s.heap[h].cls].schema| ==>
      s.classObjs[s.heap[h].cls].schema[i].name in Keys(s.heap[h].attrs)
  }

  /** `new` keeps every declared attribute present: it starts from the defaults of all
      declared attributes. */
  lemma NewKeepsDeclaredAttributes(s: Store, kind: string, args: seq<Value>, kwargs: Dict, coerce: Coercion)
    requires WellFormed(s) && DeclaredAttributesPresent(s)
    ensures DeclaredAttributesPresent(New(s, kind, args, kwargs, coerce).1)
  {
    var r := New(s, kind, args, kwargs, coerce).1;
    if kind in s.classes {
      var c := s.classes[kind];
      var schema := s.classObjs[c].schema;
      assert SameSchemas(s, r);
      if New(s, kind, args, kwargs, coerce).0.Ok? {
        var attrs := BuildAttrs(schema, args, kwargs, coerce, s.ids).0.value;
        NewAttributes(schema, args, kwargs, coerce, s.ids);
        AppendKeepsDeclaredAttributes(s, r, c, attrs);
      } else {
        assert r.heap == s.heap;
      }
    }
  }

  /** Two stores with the same classes and the same declared attributes per class. */
  ghost predicate SameSchemas(s: Store, r: Store) {
    |r.classObjs| == |s.classObjs| && forall i :: 0 <= i < |s.classObjs| ==> r.classObjs[i].schema == s.classObjs[i].schema
  }

  /** Appending an instance that holds every declared attribute of its class keeps every
      declared attribute present. */
  lemma AppendKeepsDeclaredAttributes(s: Store, r: Store, c: nat, attrs: Dict)
    requires DeclaredAttributesPresent(s) && SameSchemas(s, r) && c < |s.classObjs|
    requires r.heap == s.heap + [Instance(c, attrs)]
    requires forall i :: 0 <= i < |s.classObjs[c].schema| ==> s.classObjs[c].schema[i].name in Keys(attrs)
    ensures DeclaredAttributesPresent(r)
  {
    forall h, i | 0 <= h < |r.heap| && r.heap[h].cls < |r.classObjs| && 0 <= i < |r.classObjs[r.heap[h].cls].schema|
      ensures r.classObjs[r.heap[h].cls].schema[i].name in Keys(r.heap[h].attrs)
    {
      if h < |s.heap| { assert r.heap[h] == s.heap[h]; }
    }
  }

  /** Attribute writes keep every declared attribute present: they never add or remove keys. */
  lemma SetAttrKeepsDeclaredAttributes(s: Store, h: Handle, name: string, v: Value)
    requires WellFormed(s) && DeclaredAttributesPresent(s) && h < |s.heap|
    ensures DeclaredAttributesPresent(SetAttr(s, h, name, v))
  {
    var r := SetAttr(s, h, name, v);
    assert forall i :: 0 <= i < |s.classObjs| ==> r.classObjs[i].schema == s.classObjs[i].schema;
    assert forall x :: 0 <= x < |s.heap| ==> r.heap[x].cls == s.heap[x].cls && Keys(r.heap[x].attrs) == Keys(s.heap[x].attrs);
  }

  // ---------------------------------------------------------------------------
  // associations

  /** `define_association(rel_id, source, target)` (also `define_relation`): the source's
      class can navigate to the target under (target kind, rel_id, target phrase), and the
      target's class back under (source kind, rel_id, source phrase). When both ends are
      the same class with the same phrase, the reverse direction overwrites the forward one.
      An undefined kind at either end raises `KeyError`. */
  function DefineAssociation(s: Store, relid: RelId, source: Link, target: Link): (r: Result<Store>)
    requires WellFormed(s)
    ensures r.Ok? <==> source.kind in s.classes && target.kind in s.classes
    ensures r.Err? ==> r.error == MissingKey
    ensures r.Ok? ==>
      var S := s.classes[source.kind];
      var T := s.classes[target.kind];
      var forward := AssocKey(target.kind, relid, target.phrase);
      var backward := AssocKey(source.kind, relid, source.phrase);
      && WellFormed(r.value)
      && r.value.classes == s.classes && r.value.instances == s.instances && r.value.heap == s.heap
      && r.value.ids == s.ids
      && |r.value.classObjs| == |s.classObjs|
      && backward in r.value.classObjs[T].assoc && r.value.classObjs[T].assoc[backward] == Endpoints(target, source)
      && forward in r.value.classObjs[S].assoc
      && (S != T || forward != backward ==> r.value.classObjs[S].assoc[forward] == Endpoints(source, target))
      && (forall i :: 0 <= i < |s.classObjs| ==>
            r.value.classObjs[i].kind == s.classObjs[i].kind && r.value.classObjs[i].schema == s.classObjs[i].schema &&
            r.value.classObjs[i].cache == s.classObjs[i].cache)
      && (forall i, key :: 0 <= i < |s.classObjs| && key in s.classObjs[i].assoc &&
            !(i == S && key == forward) && !(i == T && key == backward)
            ==> key in r.value.classObjs[i].assoc && r.value.classObjs[i].assoc[key] == s.classObjs[i].assoc[key])
      && (forall i :: 0 <= i < |s.classObjs| && i != S && i != T ==> r.value.classObjs[i] == s.classObjs[i])
  {
    if source.kind !in s.classes || target.kind !in s.classes then Err(MissingKey)
    else
      var S := s.classes[source.kind];
      var T := s.classes[target.kind];
      var objs1 := AddEndpoint(s.classObjs, S, AssocKey(target.kind, relid, target.phrase), Endpoints(source, target));
      var objs2 := AddEndpoint(objs1, T, AssocKey(source.kind, relid, source.phrase), Endpoints(target, source));
      AddTwoEndpoints(s.classObjs, S, AssocKey(target.kind, relid, target.phrase), Endpoints(source, target),
                      T, AssocKey(source.kind, relid, source.phrase), Endpoints(target, source));
      AssocUpdateKeepsWellFormed(s, objs2);
      Ok(s.(classObjs := objs2))
  }

  /** Filing two navigation functions changes only those two association table entries. */
  lemma AddTwoEndpoints(objs: seq<ClassObj>, S: nat, fwd: AssocKey, fe: Endpoints, T: nat, bwd: AssocKey, be: Endpoints)
    requires S < |objs| && T < |objs|
    ensures
      var r := AddEndpoint(AddEndpoint(objs, S, fwd, fe), T, bwd, be);
      && |r| == |objs|
      && bwd in r[T].assoc && r[T].assoc[bwd] == be
      && fwd in r[S].assoc && (S != T || fwd != bwd ==> r[S].assoc[fwd] == fe)
      && (forall i :: 0 <= i < |objs| ==> r[i].kind == objs[i].kind && r[i].schema == objs[i].schema && r[i].cache == objs[i].cache)
      && (forall i, key :: 0 <= i < |objs| && key in objs[i].assoc && !(i == S && key == fwd) && !(i == T && key == bwd)
            ==> key in r[i].assoc && r[i].assoc[key] == objs[i].assoc[key])
      && (forall i :: 0 <= i < |objs| && i != S && i != T ==> r[i] == objs[i])
  {
    var o1 := AddEndpoint(objs, S, fwd, fe);
    var r := AddEndpoint(o1, T, bwd, be);
    forall i, key | 0 <= i < |objs| && key in objs[i].assoc && !(i == S && key == fwd) && !(i == T && key == bwd)
      ensures key in r[i].assoc && r[i].assoc[key] == objs[i].assoc[key]
    {
      assert key in o1[i].assoc && o1[i].assoc[key] == objs[i].assoc[key];
    }
  }

  /** Changing only association tables keeps a store well formed. */
  lemma AssocUpdateKeepsWellFormed(s: Store, objs: seq<ClassObj>)
    requires WellFormed(s) && |objs| == |s.classObjs|
    requires forall i :: 0 <= i < |objs| ==> objs[i].kind == s.classObjs[i].kind && objs[i].cache == s.classObjs[i].cache
    ensures WellFormed(s.(classObjs := objs))
  {
  }

  /** Files a navigation function in the association table of class object `c`. */
  function AddEndpoint(objs: seq<ClassObj>, c: nat, key: AssocKey, ep: Endpoints): (r: seq<ClassObj>)
    requires c < |objs|
    ensures |r| == |objs|
    ensures r[c] == objs[c].(assoc := objs[c].assoc[key := ep])
    ensures forall i :: 0 <= i < |objs| && i != c ==> r[i] == objs[i]
  {
    objs[c := objs[c].(assoc := objs[c].assoc[key := ep])]
  }

  // ---------------------------------------------------------------------------
  // select_any / select_one / select_many

  /** Instances as values. */
  function Lift(hs: seq<Handle>): (r: seq<Value>)
    ensures |r| == |hs| && forall i :: 0 <= i < |hs| ==> r[i] == VInst(hs[i])
  {
    seq(|hs|, i requires 0 <= i < |hs| => VInst(hs[i]))
  }

  lemma LiftDistinct(hs: seq<Handle>)
    requires Distinct(hs)
    ensures Distinct(Lift(hs))
  {
  }

  /** `select_many(kind, where)`: the instances of `kind` the filter keeps, in creation order. */
  function SelectMany(s: Store, kind: string, where: Option<Value -> bool>): (r: OrderedSet<Value>)
    requires WellFormed(s)
    ensures r.Valid()
    ensures forall x :: x in r.items <==> exists h :: h in InstancesOf(s, kind) && x == VInst(h) && Keeps(where, x)
    ensures InFirstOccurrenceOrder(r.items, Lift(InstancesOf(s, kind)))
  {
    var hs := InstancesOf(s, kind);
    LiftDistinct(hs);
    OrderedSet(Filter(where, Lift(hs)))
  }

  /** `select_any(kind, where)` (and `select_one`): the first instance of `kind` the filter
      keeps, or `None`. */
  function SelectAny(s: Store, kind: string, where: Option<Value -> bool>): (r: Value)
    requires WellFormed(s)
    ensures r == VNone <==> forall h :: h in InstancesOf(s, kind) ==> !Keeps(where, VInst(h))
    ensures r != VNone ==> exists i :: (0 <= i < |InstancesOf(s, kind)| && r == VInst(InstancesOf(s, kind)[i]) &&
      Keeps(where, r) && forall j :: 0 <= j < i ==> !Keeps(where, VInst(InstancesOf(s, kind)[j])))
  {
    var hs := InstancesOf(s, kind);
    match FirstKept(where, Lift(hs))
    case Some(i) => VInst(hs[i])
    case None =>
      assert forall h :: h in hs ==> VInst(h) in Lift(hs);
      VNone
  }

  /** `select_any` is the first element of `select_many`. */
  lemma SelectAnyIsFirstOfMany(s: Store, kind: string, where: Option<Value -> bool>)
    requires WellFormed(s)
    ensures SelectAny(s, kind, where) == match First(SelectMany(s, kind, where)) { case Some(x) => x case None => VNone }
  {
  }
}
