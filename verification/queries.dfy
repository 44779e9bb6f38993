/** The static helpers of `MetaModel` (xtuml/model.py:358-427) that the RSL runtime
    re-exports unchanged (xtuml/rsl/runtime.py:375-408): emptiness, cardinality, type
    tests and first/last tests against a query set. */
module Queries {
  import opened Errors
  import opened OrderedSets
  import opened Values

  /** `cardinality(arg)`: `None` counts 0, a query set its length, anything else 1. */
  function Cardinality(v: Value): (r: nat)
    ensures v.VSet? && v.elems.Valid() ==> r == |v.elems.Elements()|
    ensures !v.VSet? ==> (r == 0 <==> v == VNone) && r <= 1
  {
    if v.VSet? then
      LenCounts(v.elems);
      v.elems.Len()
    else if v.VNone? then 0
    else 1
  }

  lemma LenCounts(q: OrderedSet<Value>)
    ensures q.Valid() ==> q.Len() == |q.Elements()|
  {
    if q.Valid() {
      LenCountsElements(q);
    }
  }

  /** `empty(arg)`: `None` and the empty query set. */
  predicate IsEmpty(v: Value)
    ensures IsEmpty(v) <==> Cardinality(v) == 0
  {
    v.VNone? || (v.VSet? && v.elems.Len() == 0)
  }

  /** `not_empty(arg)`. */
  predicate NotEmpty(v: Value)
    ensures NotEmpty(v) <==> Cardinality(v) > 0
  {
    !IsEmpty(v)
  }

  /** `is_set(arg)`. */
  predicate IsSet(v: Value)
    ensures IsSet(v) <==> TypeOf(v) == TQuerySet
  {
    IsInstanceOf(v, TQuerySet)
  }

  /** `is_instance(arg)`: instances of model classes and template fragments. */
  predicate IsInstance(v: Value)
    ensures IsInstance(v) <==> v.VInst? || v.VFrag?
  {
    IsInstanceOf(v, TBaseObject)
  }

  /** `QuerySet.first`: the first element, `None` for an empty set. */
  function FirstOrNone(q: OrderedSet<Value>): (r: Value)
    ensures q.Len() > 0 ==> r == q.items[0]
    ensures q.Len() == 0 ==> r == VNone
  {
    match First(q) case Some(x) => x case None => VNone
  }

  /** `QuerySet.last`: the last element, `None` for an empty set. */
  function LastOrNone(q: OrderedSet<Value>): (r: Value)
    ensures q.Len() > 0 ==> r == q.items[q.Len() - 1]
    ensures q.Len() == 0 ==> r == VNone
  {
    match Last(q) case Some(x) => x case None => VNone
  }

  /** `first(inst, query_set)`: `AssertionError` unless the second argument is a query set;
      otherwise `inst == query_set.first`. */
  function IsFirst(inst: Value, qs: Value): (r: Result<bool>)
    ensures !qs.VSet? ==> r == Err(AssertionFailed)
    ensures qs.VSet? && qs.elems.Len() > 0 && Hashable(inst) && Hashable(qs.elems.items[0]) ==>
      r == Ok(Norm(inst) == Norm(qs.elems.items[0]))
    ensures qs.VSet? && qs.elems.Len() == 0 && !inst.VSet? ==> r == Ok(inst == VNone)
  {
    if !qs.VSet? then Err(AssertionFailed)
    else PyEquals(inst, FirstOrNone(qs.elems))
  }

  /** `not_first(inst, query_set)`: `inst != query_set.first`. */
  function IsNotFirst(inst: Value, qs: Value): (r: Result<bool>)
    ensures !qs.VSet? ==> r == Err(AssertionFailed)
    ensures qs.VSet? && qs.elems.Len() > 0 && Hashable(inst) && Hashable(qs.elems.items[0]) ==>
      r == Ok(Norm(inst) != Norm(qs.elems.items[0]))
    ensures qs.VSet? && qs.elems.Len() == 0 && !inst.VSet? ==> r == Ok(inst != VNone)
  {
    if !qs.VSet? then Err(AssertionFailed)
    else match PyEquals(inst, FirstOrNone(qs.elems))
      case Err(e) => Err(e)
      case Ok(b) => Ok(!b)
  }

  /** `last(inst, query_set)`: `inst == query_set.last`. */
  function IsLast(inst: Value, qs: Value): (r: Result<bool>)
    ensures !qs.VSet? ==> r == Err(AssertionFailed)
    ensures qs.VSet? && qs.elems.Len() > 0 && Hashable(inst) && Hashable(qs.elems.items[qs.elems.Len() - 1]) ==>
      r == Ok(Norm(inst) == Norm(qs.elems.items[qs.elems.Len() - 1]))
    ensures qs.VSet? && qs.elems.Len() == 0 && !inst.VSet? ==> r == Ok(inst == VNone)
  {
    if !qs.VSet? then Err(AssertionFailed)
    else PyEquals(inst, LastOrNone(qs.elems))
  }

  /** `not_last(inst, query_set)`: `inst != query_set.last`. */
  function IsNotLast(inst: Value, qs: Value): (r: Result<bool>)
    ensures !qs.VSet? ==> r == Err(AssertionFailed)
    ensures qs.VSet? && qs.elems.Len() > 0 && Hashable(inst) && Hashable(qs.elems.items[qs.elems.Len() - 1]) ==>
      r == Ok(Norm(inst) != Norm(qs.elems.items[qs.elems.Len() - 1]))
    ensures qs.VSet? && qs.elems.Len() == 0 && !inst.VSet? ==> r == Ok(inst != VNone)
  {
    if !qs.VSet? then Err(AssertionFailed)
    else match PyEquals(inst, LastOrNone(qs.elems))
      case Err(e) => Err(e)
      case Ok(b) => Ok(!b)
  }

  /** The negated tests fail exactly when the tests fail and otherwise answer the opposite. */
  lemma NotFirstNegatesFirst(inst: Value, qs: Value)
    ensures IsNotFirst(inst, qs).Ok? <==> IsFirst(inst, qs).Ok?
    ensures IsNotFirst(inst, qs).Ok? ==> IsNotFirst(inst, qs).value == !IsFirst(inst, qs).value
    ensures IsNotLast(inst, qs).Ok? <==> IsLast(inst, qs).Ok?
    ensures IsNotLast(inst, qs).Ok? ==> IsNotLast(inst, qs).value == !IsLast(inst, qs).value
  {
  }

  /** The first element of a non-empty query set passes `first`, its last element passes
      `last`. */
  lemma EndsOfOwnSet(q: OrderedSet<Value>)
    requires q.Valid() && q.Len() > 0
    ensures IsFirst(q.items[0], VSet(q)) == Ok(true)
    ensures IsLast(q.items[q.Len() - 1], VSet(q)) == Ok(true)
  {
    PyEqualsReflexive(q.items[0]);
    PyEqualsReflexive(q.items[q.Len() - 1]);
  }
}
