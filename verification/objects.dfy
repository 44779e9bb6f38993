/** `BaseObject` (xtuml/model.py:197-227): the attribute rules of model instances and the
    `+`/`-` operators that build query sets from them. The cache clearing that a write
    or a construction triggers is part of the store (module Store). */
module Objects {
  import opened Errors
  import opened Text
  import opened OrderedSets
  import opened Values
  import opened Dicts

  /** A stored attribute name answers to `name` when they agree ignoring case. */
  predicate Answers(stored: string, name: string) {
    SameIgnoringCase(stored, name)
  }

  /** The position of the first stored name that answers to `name`, in dictionary order. */
  function FirstAnswering(d: Dict, name: string): (r: Option<nat>)
    ensures r.Some? ==> r.value < |d| && Answers(d[r.value].0, name)
    ensures r.Some? ==> forall j :: 0 <= j < r.value ==> !Answers(d[j].0, name)
    ensures r.None? ==> forall j :: 0 <= j < |d| ==> !Answers(d[j].0, name)
  {
    if |d| == 0 then None
    else if Answers(d[0].0, name) then Some(0)
    else match FirstAnswering(d[1..], name)
      case None => None
      case Some(i) => Some(i + 1)
  }

  /** Reading `inst.name`: ordinary lookup finds an exact key first; `__getattr__` then takes
      the first key equal ignoring case; otherwise `AttributeError`. */
  function ReadAttr(d: Dict, name: string): (r: Result<Value>)
    ensures r.Ok? <==> exists i :: 0 <= i < |d| && Answers(d[i].0, name)
    ensures r.Err? ==> r.error == MissingAttribute(name)
    ensures name in Keys(d) ==> r.Ok? && Lookup(d, name) == Some(r.value)
    ensures name !in Keys(d) && r.Ok? ==>
      exists i :: 0 <= i < |d| && Answers(d[i].0, name) && d[i].1 == r.value &&
        forall j :: 0 <= j < i ==> !Answers(d[j].0, name)
  {
    match Lookup(d, name)
    case Some(v) =>
      KeyAnswers(d, name);
      Ok(v)
    case None =>
      match FirstAnswering(d, name)
      case Some(i) => Ok(d[i].1)
      case None => Err(MissingAttribute(name))
  }

  /** Writing `inst.name = v` (`__setattr__`): the first key equal to `name` ignoring case
      takes the value and keeps its spelling; a name no key answers to is dropped. `None`
      means nothing was written (and the cache is left alone). */
  function WriteAttr(d: Dict, name: string, v: Value): (r: Option<Dict>)
    ensures r.Some? <==> exists i :: 0 <= i < |d| && Answers(d[i].0, name)
    ensures r.Some? ==> exists i :: (0 <= i < |d| && Answers(d[i].0, name) &&
      (forall j :: 0 <= j < i ==> !Answers(d[j].0, name)) && r.value == d[i := (d[i].0, v)])
    ensures r.Some? ==> Keys(r.value) == Keys(d)
  {
    match FirstAnswering(d, name)
    case Some(i) =>
      KeysUpdate(d, i, v);
      Some(d[i := (d[i].0, v)])
    case None => None
  }

  lemma KeyAnswers(d: Dict, name: string)
    requires name in Keys(d)
    ensures exists i :: 0 <= i < |d| && Answers(d[i].0, name)
  {
    var i :| 0 <= i < |Keys(d)| && Keys(d)[i] == name;
    KeysAt(d, i);
  }

  lemma {:induction false} KeysUpdate(d: Dict, i: nat, v: Value)
    requires i < |d|
    ensures Keys(d[i := (d[i].0, v)]) == Keys(d)
    decreases i
  {
    var d' := d[i := (d[i].0, v)];
    if i == 0 {
      assert d'[1..] == d[1..];
    } else {
      assert d'[1..] == d[1..][i - 1 := (d[i].0, v)];
      KeysUpdate(d[1..], i - 1, v);
    }
  }

  /** No two stored names agree ignoring case, as when every attribute is declared once. */
  ghost predicate CaseDistinct(d: Dict) {
    forall i, j :: 0 <= i < j < |d| ==> !Answers(d[i].0, d[j].0)
  }

  /** With case-distinct keys, a write is read back under every spelling of the name. */
  lemma WriteThenRead(d: Dict, name: string, v: Value, spelling: string)
    requires CaseDistinct(d)
    requires WriteAttr(d, name, v).Some?
    requires SameIgnoringCase(spelling, name)
    ensures ReadAttr(WriteAttr(d, name, v).value, spelling) == Ok(v)
  {
    var d' := WriteAttr(d, name, v).value;
    var i :| 0 <= i < |d| && Answers(d[i].0, name) &&
      (forall j :: 0 <= j < i ==> !Answers(d[j].0, name)) && d' == d[i := (d[i].0, v)];
    assert Answers(d'[i].0, spelling);
    forall j | 0 <= j < |d'| && j != i ensures !Answers(d'[j].0, spelling) {
      if j < i { assert !Answers(d[j].0, d[i].0); } else { assert !Answers(d[i].0, d[j].0); }
    }
    var r := ReadAttr(d', spelling);
    if spelling in Keys(d') {
      var k :| 0 <= k < |Keys(d')| && Keys(d')[k] == spelling;
      KeysAt(d', k);
      assert k == i;
      assert d'[i].1 == v;
      ExactLookup(d', i);
    }
  }

  /** The exact lookup of an answering key that is the only answering key finds its slot. */
  lemma {:induction false} ExactLookup(d: Dict, i: nat)
    requires i < |d|
    requires forall j :: 0 <= j < |d| && j != i ==> !Answers(d[j].0, d[i].0)
    ensures Lookup(d, d[i].0) == Some(d[i].1)
    decreases i
  {
    if i > 0 {
      assert d[0].0 != d[i].0 by { assert !Answers(d[0].0, d[i].0); }
      ExactLookup(d[1..], i - 1);
    }
  }

  /** When two stored names differ only in case, a write lands in the first slot while an
      exact read finds the other: the value written is not the value read back. */
  lemma WriteShadowedByExactKey()
    ensures var d := [("Name", VInt(0)), ("name", VInt(1))];
      && WriteAttr(d, "name", VInt(5)) == Some([("Name", VInt(5)), ("name", VInt(1))])
      && ReadAttr(WriteAttr(d, "name", VInt(5)).value, "name") == Ok(VInt(1))
  {
    var d := [("Name", VInt(0)), ("name", VInt(1))];
    assert Lower("Name") == "name";
    assert Lower("name") == "name";
    assert FirstAnswering(d, "name") == Some(0);
    assert d[0 := ("Name", VInt(5))] == [("Name", VInt(5)), ("name", VInt(1))];
  }

  /** `a + b` for a model instance `a`: the query set of the two, in that order (one element
      if they are the same instance),
      `AssertionError` unless `b` is an instance too. */
  function Plus(a: Value, b: Value): (r: Result<OrderedSet<Value>>)
    requires IsInstanceOf(a, TBaseObject)
    ensures r.Ok? <==> IsInstanceOf(b, TBaseObject)
    ensures r.Err? ==> r.error == AssertionFailed
    ensures r.Ok? ==> r.value.Valid() && r.value.Elements() == {a, b} && First(r.value) == Some(a)
  {
    if !IsInstanceOf(b, TBaseObject) then Err(AssertionFailed)
    else if a == b then Ok(OrderedSet([a]))
    else Ok(OrderedSet([a, b]))
  }

  /** `a - b` for a model instance `a`: empty when `b` is `a`, otherwise just `a`. */
  function Minus(a: Value, b: Value): (r: Result<OrderedSet<Value>>)
    requires IsInstanceOf(a, TBaseObject)
    ensures r.Ok? <==> IsInstanceOf(b, TBaseObject)
    ensures r.Err? ==> r.error == AssertionFailed
    ensures r.Ok? ==> r.value.Valid() && r.value.Elements() == {a} - {b}
  {
    if !IsInstanceOf(b, TBaseObject) then Err(AssertionFailed)
    else if a == b then Ok(Empty())
    else Ok(OrderedSet([a]))
  }

  /** `a - b` is `a + b` with `b` discarded. */
  lemma MinusIsPlusDiscard(a: Value, b: Value)
    requires IsInstanceOf(a, TBaseObject) && IsInstanceOf(b, TBaseObject)
    ensures Minus(a, b).value == Discard(Plus(a, b).value, b)
  {
    var p := Plus(a, b).value;
    if a == b {
      assert p.items == [a];
    } else {
      assert p.items == [a, b];
      assert Discard(p, b).items == [a] by {
        assert p.items == [a] + [b] + [];
        EraseOnly([a], b, []);
      }
    }
  }
}
