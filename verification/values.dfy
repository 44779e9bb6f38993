/** Python values as the model store holds them, their types, truthiness and the
    `==` the source relies on when it compares attribute values. */
module Values {
  import opened Errors
  import opened Text
  import opened OrderedSets

  /** An instance is named by its index in the store's instance arena. */
  type Handle = nat

  /** A unique id drawn from the id source (a `uuid.UUID` in the source). */
  type Id = nat

  datatype Value =
    | VNone
    | VBool(b: bool)
    | VInt(i: int)
    | VReal(r: real)                          // a Python float, treated as an opaque number
    | VStr(s: string)
    | VId(id: Id)
    | VInst(h: Handle)                        // an instance of a class made by define_class
    | VFrag(fields: seq<(string, Value)>)     // a template Fragment and its attributes
    | VSet(elems: OrderedSet<Value>)          // a QuerySet

  /** The Python classes values belong to, as `type_name` and `isinstance` see them. */
  datatype PyType =
    | TBool | TInt | TFloat | TStr | TNoneType | TUuid
    | TBaseObject      // xtuml.model.BaseObject
    | TModelClass      // a class made by define_class (a BaseObject subclass)
    | TFragment        // the template Fragment class (a BaseObject subclass)
    | TQuerySet
    | TOther           // any class without a meta model name

  /** `issubclass(t, u)` over the classes above: bool is an int, and both instance
      classes and Fragment are BaseObjects. */
  predicate IsSubclass(t: PyType, u: PyType) {
    t == u || (t == TBool && u == TInt) || ((t == TModelClass || t == TFragment) && u == TBaseObject)
  }

  /** `type(v)`. */
  function TypeOf(v: Value): PyType {
    match v
    case VNone => TNoneType
    case VBool(_) => TBool
    case VInt(_) => TInt
    case VReal(_) => TFloat
    case VStr(_) => TStr
    case VId(_) => TUuid
    case VInst(_) => TModelClass
    case VFrag(_) => TFragment
    case VSet(_) => TQuerySet
  }

  /** `isinstance(v, t)`. */
  predicate IsInstanceOf(v: Value, t: PyType) {
    IsSubclass(TypeOf(v), t)
  }

  /** `bool(v)`: instances, fragments and ids have no `__bool__` or `__len__` and are true. */
  predicate Truthy(v: Value) {
    match v
    case VNone => false
    case VBool(b) => b
    case VInt(i) => i != 0
    case VReal(r) => r != 0.0
    case VStr(s) => |s| > 0
    case VId(_) => true
    case VInst(_) => true
    case VFrag(_) => true
    case VSet(q) => q.Len() > 0
  }

  /** The filter of `filter(where, xs)`: the predicate when given, truthiness for `None`. */
  predicate Keeps(where: Option<Value -> bool>, v: Value) {
    if where.Some? then where.value(v) else Truthy(v)
  }

  /** The position of the first element of `xs` the filter keeps. */
  function FirstKept(where: Option<Value -> bool>, xs: seq<Value>): (r: Option<nat>)
    ensures r.None? <==> forall j :: 0 <= j < |xs| ==> !Keeps(where, xs[j])
    ensures r.Some? ==> r.value < |xs| && Keeps(where, xs[r.value])
    ensures r.Some? ==> forall j :: 0 <= j < r.value ==> !Keeps(where, xs[j])
  {
    if |xs| == 0 then None
    else if Keeps(where, xs[0]) then Some(0)
    else match FirstKept(where, xs[1..])
      case None => None
      case Some(i) => Some(i + 1)
  }

  /** `list(filter(where, xs))`. */
  function Filter(where: Option<Value -> bool>, xs: seq<Value>): (r: seq<Value>)
    ensures forall x :: x in r <==> x in xs && Keeps(where, x)
    ensures |r| > 0 <==> FirstKept(where, xs).Some?
    ensures |r| > 0 ==> r[0] == xs[FirstKept(where, xs).value]
    ensures Distinct(xs) ==> Distinct(r) && InFirstOccurrenceOrder(r, xs)
  {
    if |xs| == 0 then []
    else
      var rest := Filter(where, xs[1..]);
      FilterOrder(where, xs, rest);
      if Keeps(where, xs[0]) then [xs[0]] + rest else rest
  }

  lemma FilterOrder(where: Option<Value -> bool>, xs: seq<Value>, rest: seq<Value>)
    requires |xs| > 0
    requires forall x :: x in rest <==> x in xs[1..] && Keeps(where, x)
    requires Distinct(xs[1..]) ==> Distinct(rest) && InFirstOccurrenceOrder(rest, xs[1..])
    ensures Distinct(xs) ==> Distinct([xs[0]] + rest) && InFirstOccurrenceOrder([xs[0]] + rest, xs)
    ensures Distinct(xs) ==> Distinct(rest) && InFirstOccurrenceOrder(rest, xs)
  {
    if Distinct(xs) {
      DistinctTail(xs);
      forall y | y in xs[1..] ensures IndexOf(xs, y) == 1 + IndexOf(xs[1..], y) {
        IndexOfTail(xs, y);
      }
      var r := [xs[0]] + rest;
      forall i, j | 0 <= i < j < |r| ensures r[i] in xs && r[j] in xs && IndexOf(xs, r[i]) < IndexOf(xs, r[j]) {
        if i == 0 {
          assert r[j] == rest[j - 1];
          assert IndexOf(xs, r[j]) == 1 + IndexOf(xs[1..], r[j]);
        } else {
          assert r[i] == rest[i - 1] && r[j] == rest[j - 1];
        }
      }
    }
  }

  /** `filter` works element by element, whatever the repeats: filtering a concatenation
      is concatenating the filtered parts, and one element is kept exactly when the
      condition accepts it. Together these fix the order and the multiplicity of the
      result for every input. */
  lemma FilterConcat(where: Option<Value -> bool>, xs: seq<Value>, ys: seq<Value>)
    ensures Filter(where, xs + ys) == Filter(where, xs) + Filter(where, ys)
    ensures |xs| == 1 ==> Filter(where, xs) == if Keeps(where, xs[0]) then xs else []
  {
    FilterIsKept(where, xs + ys);
    FilterIsKept(where, xs);
    FilterIsKept(where, ys);
    KeptConcat(where, xs, ys);
    if |xs| == 1 {
      assert xs[1..] == [];
    }
  }

  /** The element-by-element reading of `filter`, with nothing else said about it. */
  ghost function Kept(where: Option<Value -> bool>, xs: seq<Value>): seq<Value> {
    if |xs| == 0 then [] else (if Keeps(where, xs[0]) then [xs[0]] else []) + Kept(where, xs[1..])
  }

  lemma {:induction false} FilterIsKept(where: Option<Value -> bool>, xs: seq<Value>)
    ensures Filter(where, xs) == Kept(where, xs)
    decreases |xs|
  {
    if |xs| > 0 {
      FilterIsKept(where, xs[1..]);
    }
  }

  lemma {:induction false} KeptConcat(where: Option<Value -> bool>, xs: seq<Value>, ys: seq<Value>)
    ensures Kept(where, xs + ys) == Kept(where, xs) + Kept(where, ys)
    decreases |xs|
  {
    if |xs| > 0 {
      assert (xs + ys)[0] == xs[0] && (xs + ys)[1..] == xs[1..] + ys;
      KeptConcat(where, xs[1..], ys);
    } else {
      assert xs + ys == ys;
    }
  }

  /** The tail of a sequence without repeats has none, and lacks the head. */
  lemma DistinctTail<T>(xs: seq<T>)
    requires |xs| > 0 && Distinct(xs)
    ensures Distinct(xs[1..]) && xs[0] !in xs[1..]
  {
    forall i, j | 0 <= i < j < |xs| - 1 ensures xs[1..][i] != xs[1..][j] {
      assert xs[1..][i] == xs[i + 1] && xs[1..][j] == xs[j + 1];
    }
    forall i | 0 <= i < |xs| - 1 ensures xs[1..][i] != xs[0] { assert xs[1..][i] == xs[i + 1]; }
  }

  /** A QuerySet defines `__eq__` without `__hash__`, so it cannot be a dict or set key. */
  predicate Hashable(v: Value) { !v.VSet? }

  /** Canonical representative under Python's numeric equality: `True == 1 == 1.0`. */
  function Norm(v: Value): (r: Value)
    ensures !r.VBool?
    ensures r.VReal? ==> r == v && v.r != v.r.Floor as real
    ensures TypeOf(v) !in {TBool, TInt, TFloat} ==> r == v
  {
    match v
    case VBool(b) => VInt(if b then 1 else 0)
    case VReal(x) => if x == x.Floor as real then VInt(x.Floor) else v
    case _ => v
  }

  /** Canonical forms are their own canonical forms. */
  lemma NormIdempotent(v: Value)
    ensures Norm(Norm(v)) == Norm(v)
  {
  }

  /** The one-character strings iterating a string yields. */
  function CharValues(s: string): seq<Value> {
    seq(|s|, i requires 0 <= i < |s| => VStr([s[i]]))
  }

  /** `OrderedSet.__eq__(q, other)` when `other` is not an OrderedSet: `set(q) == set(other)`,
      which raises `TypeError` unless `other` is iterable (only strings are, among these values). */
  function SetEqualsOther(q: OrderedSet<Value>, other: Value): Result<bool> {
    if other.VStr? then Ok(q.Elements() == set c | c in CharValues(other.s)) else Err(NotIterable)
  }

  /** `list(p) == list(q)` for the keys of two QuerySets: equal lengths, and the keys at
      each position equal under Python's numeric `==`. Keys are hashable in the source, so
      comparing canonical forms is that `==`. */
  predicate ListEquals(xs: seq<Value>, ys: seq<Value>) {
    |xs| == |ys| && forall i :: 0 <= i < |xs| ==> Norm(xs[i]) == Norm(ys[i])
  }

  /** Python `a == b` on model values. Two QuerySets compare by iteration order; a QuerySet
      against anything else compares as a plain set; everything else compares numerically
      or by identity. */
  function PyEquals(a: Value, b: Value): (r: Result<bool>)
    ensures r.Err? <==> (a.VSet? && !b.VSet? && !b.VStr?) || (b.VSet? && !a.VSet? && !a.VStr?)
    ensures r.Err? ==> r.error == NotIterable
    ensures a.VSet? && b.VSet? ==> r == Ok(ListEquals(a.elems.items, b.elems.items))
    ensures a.VSet? && b.VStr? ==> r.Ok? && (r.value <==> forall x :: x in a.elems.Elements() <==> x in CharValues(b.s))
    ensures Hashable(a) && Hashable(b) ==> r == Ok(Norm(a) == Norm(b))
  {
    if a.VSet? && b.VSet? then Ok(ListEquals(a.elems.items, b.elems.items))
    else if a.VSet? then SetEqualsOther(a.elems, b)
    else if b.VSet? then SetEqualsOther(b.elems, a)
    else Ok(Norm(a) == Norm(b))
  }

  /** Two QuerySets of hashable keys are equal exactly when they have the same length and
      the keys at each position are equal under Python's `==` on the keys themselves. */
  lemma QuerySetEqualsElementwise(p: OrderedSet<Value>, q: OrderedSet<Value>)
    requires forall i :: 0 <= i < |p.items| ==> Hashable(p.items[i])
    requires forall i :: 0 <= i < |q.items| ==> Hashable(q.items[i])
    ensures PyEquals(VSet(p), VSet(q)).Ok?
    ensures PyEquals(VSet(p), VSet(q)).value <==>
      |p.items| == |q.items| && forall i :: 0 <= i < |p.items| ==> PyEquals(p.items[i], q.items[i]) == Ok(true)
  {
    if |p.items| == |q.items| {
      forall i | 0 <= i < |p.items|
        ensures PyEquals(p.items[i], q.items[i]) == Ok(Norm(p.items[i]) == Norm(q.items[i]))
      {
        PyEqualsHashable(p.items[i], q.items[i]);
      }
    }
  }

  /** QuerySets compare their keys numerically, position by position: `[1] == [1.0]` and
      `[True] == [1]`, while `[1, 2] != [2, 1]`. */
  lemma QuerySetsCompareNumerically()
    ensures PyEquals(VSet(OrderedSet([VInt(1)])), VSet(OrderedSet([VReal(1.0)]))) == Ok(true)
    ensures PyEquals(VSet(OrderedSet([VBool(true)])), VSet(OrderedSet([VInt(1)]))) == Ok(true)
    ensures PyEquals(VSet(OrderedSet([VInt(1), VInt(2)])), VSet(OrderedSet([VInt(2), VInt(1)]))) == Ok(false)
  {
    assert Norm(VReal(1.0)) == VInt(1);
    assert Norm(VBool(true)) == VInt(1);
    var xs := [VInt(1), VInt(2)];
    assert Norm(xs[0]) != Norm([VInt(2), VInt(1)][0]);
    assert !ListEquals(xs, [VInt(2), VInt(1)]);
  }

  /** Python equality is symmetric on these values. */
  lemma PyEqualsSymmetric(a: Value, b: Value)
    ensures PyEquals(a, b) == PyEquals(b, a)
  {
  }

  /** Every value equals itself under Python's `==`. */
  lemma PyEqualsReflexive(v: Value)
    ensures PyEquals(v, v) == Ok(true)
  {
  }

  /** Comparing against a hashable value depends only on its canonical form; this is what
      lets a dict key stand for every value equal to it. */
  lemma PyEqualsNorm(a: Value, b: Value)
    requires Hashable(b)
    ensures PyEquals(a, Norm(b)) == PyEquals(a, b)
  {
  }

  /** Between hashable values, `==` holds exactly when the canonical forms agree. */
  lemma PyEqualsHashable(a: Value, b: Value)
    requires Hashable(a) && Hashable(b)
    ensures PyEquals(a, b) == Ok(Norm(a) == Norm(b))
  {
  }

  /** Numeric equality crosses types: `True == 1` and `1 == 1.0`, while `1 != '1'`. */
  lemma NumericEquality()
    ensures PyEquals(VBool(true), VInt(1)) == Ok(true)
    ensures PyEquals(VInt(1), VReal(1.0)) == Ok(true)
    ensures PyEquals(VInt(1), VStr("1")) == Ok(false)
    ensures PyEquals(VReal(0.5), VInt(0)) == Ok(false)
  {
  }
}
