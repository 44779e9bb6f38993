/** Navigation chains (xtuml/model.py:23-82): `navigate_many(inst).Kind[relid, phrase](where)`.

    A chain starts from nothing, one instance or a query set. Each hop `.Kind[relid, phrase]`
    replaces the current set by the union, in order, of what every element reaches through
    the association its class registered under `(Kind, relid, phrase)`; every such step is an
    endpoint join, answered from the target class's cache when it can be. The final call
    filters the set and returns it whole (`navigate_many`) or its first element
    (`navigate_one`, `navigate_any`). */
module Navigation {
  import opened Errors
  import opened OrderedSets
  import opened Values
  import opened Dicts
  import opened Associations
  import opened Store
  import opened Join

  /** One hop of a chain: `.kind[relid, phrase]`. */
  datatype Hop = Hop(kind: string, relid: RelId, phrase: string)

  /** A chain in progress: the current set and whether the chain returns a set at the end. */
  datatype NavChain = NavChain(handle: OrderedSet<Value>, many: bool)

  /** Every instance among `xs` exists. */
  ghost predicate Live(s: Store, xs: seq<Value>) {
    forall i :: 0 <= i < |xs| && xs[i].VInst? ==> xs[i].h < |s.heap|
  }

  /** A value a chain may start from names only instances that exist. */
  ghost predicate LiveStart(s: Store, v: Value) {
    (v.VInst? ==> v.h < |s.heap|) && (v.VSet? ==> Live(s, v.elems.items))
  }

  /** `NavChain(handle, is_many)`: `None` starts from the empty set, an instance (or any
      other BaseObject) from the set holding it, a query set from itself; anything else
      cannot be navigated. */
  function Start(v: Value, many: bool): (r: Result<NavChain>)
    ensures r.Ok? <==> v.VNone? || v.VSet? || IsInstanceOf(v, TBaseObject)
    ensures r.Err? ==> r.error == CannotNavigate
    ensures r.Ok? ==> r.value.many == many
    ensures r.Ok? ==> forall x :: x in r.value.handle.items <==>
      (v.VSet? && x in v.elems.items) || (IsInstanceOf(v, TBaseObject) && x == v)
    ensures r.Ok? && !v.VSet? ==> r.value.handle.Valid()
  {
    if v.VNone? then Ok(NavChain(Empty(), many))
    else if v.VSet? then Ok(NavChain(v.elems, many))
    else if IsInstanceOf(v, TBaseObject) then Ok(NavChain(OrderedSet([v]), many))
    else Err(CannotNavigate)
  }

  /** The association table entry a hop from instance `h` looks up: `type(h).__q__[kind]
      [relid][phrase]`, with an integer relid spelled `'R<n>'`. */
  function Route(s: Store, h: Handle, hop: Hop): Option<Endpoints>
    requires WellFormed(s) && h < |s.heap|
  {
    var key := AssocKey(hop.kind, HopRelId(hop.relid), hop.phrase);
    var table := s.classObjs[s.heap[h].cls].assoc;
    if key in table then Some(table[key]) else None
  }

  /** A hop from `h` has an association to follow and a join key it can compute. */
  ghost predicate Defined(s: Store, h: Handle, hop: Hop)
    requires WellFormed(s)
  {
    && h < |s.heap|
    && Route(s, h, hop).Some?
    && var e := Route(s, h, hop).value;
       e.target.kind in s.instances ==> JoinKeyOf(s, h, e.source, e.target, []).Ok?
  }

  /** Reference answer of a hop: every instance of the target kind that matches the join. */
  ghost function Reach(s: Store, h: Handle, hop: Hop): seq<Handle>
    requires WellFormed(s) && Defined(s, h, hop)
  {
    var e := Route(s, h, hop).value;
    if e.target.kind !in s.instances then [] else Full(s, e.target.kind, JoinKeyOf(s, h, e.source, e.target, []).value)
  }

  /** The hop's join has been answered before, so the cache holds its key. */
  ghost predicate Cached(s: Store, h: Handle, hop: Hop)
    requires WellFormed(s) && Defined(s, h, hop)
  {
    var e := Route(s, h, hop).value;
    && e.target.kind in s.instances
    && JoinKeyOf(s, h, e.source, e.target, []).value in s.classObjs[s.classes[e.target.kind]].cache
  }

  /** `child.__q__[kind][relid][phrase](child)`: one element's share of a hop. A Fragment's
      table is `None`, any other non-instance has none at all, and a missing table entry
      is a `KeyError`. */
  function Step(s: Store, child: Value, hop: Hop): (r: (Result<seq<Handle>>, Store))
    requires WellFormed(s) && (child.VInst? ==> child.h < |s.heap|)
    ensures WellFormed(r.1) && OnlyCachesDiffer(s, r.1)
    ensures Coherent(s) ==> Coherent(r.1)
    ensures r.0.Err? ==> r.1 == s
    ensures child.VFrag? ==> r.0 == Err(NoAssociationTable)
    ensures !child.VInst? && !child.VFrag? ==> r.0 == Err(MissingAttribute("__q__"))
    ensures child.VInst? && Route(s, child.h, hop).None? ==> r.0 == Err(MissingKey)
    ensures r.0.Ok? ==> child.VInst? && Defined(s, child.h, hop)
    ensures r.0.Ok? ==> forall i :: 0 <= i < |r.0.value| ==> r.0.value[i] < |s.heap|
    ensures Coherent(s) && r.0.Ok? ==>
      && Distinct(r.0.value)
      && (r.0.value == Reach(s, child.h, hop) || r.0.value == Cut(Reach(s, child.h, hop)))
      && (!Cached(s, child.h, hop) ==> r.0.value == Shape(Reach(s, child.h, hop), IsMany(Route(s, child.h, hop).value.target)))
  {
    match child
    case VInst(h) =>
      (match Route(s, h, hop)
       case None => (Err(MissingKey), s)
       case Some(e) =>
         var (found, s1) := SelectEndpoint(s, h, e.source, e.target, []);
         match found
         case Err(err) => (Err(err), s1)
         case Ok(q) =>
           (Ok(q.items), s1))
    case VFrag(_) => (Err(NoAssociationTable), s)
    case _ => (Err(MissingAttribute("__q__")), s)
  }

  /** Answering a hop a second time gives the same instances and changes nothing: the
      first answer was cached under the same key. */
  lemma StepIsMemoised(s: Store, child: Value, hop: Hop)
    requires WellFormed(s) && (child.VInst? ==> child.h < |s.heap|)
    requires Step(s, child, hop).0.Ok?
    ensures Step(Step(s, child, hop).1, child, hop) == Step(s, child, hop)
  {
    var h := child.h;
    var e := Route(s, h, hop).value;
    var s1 := Step(s, child, hop).1;
    assert Route(s1, h, hop) == Some(e);
    SelectEndpointMemoised(s, h, e.source, e.target, []);
  }

  /** Every element of `children` is an instance with a hop to take. */
  ghost predicate AllDefined(s: Store, children: seq<Value>, hop: Hop)
    requires WellFormed(s)
  {
    forall i :: 0 <= i < |children| ==> children[i].VInst? && Defined(s, children[i].h, hop)
  }

  /** The instances `hs` names, as a set of values. */
  ghost function Lifted(hs: seq<Handle>): set<Value> {
    set y | y in hs :: VInst(y)
  }

  /** A child's share of a hop lies between its first match and all its matches. */
  lemma StepBounds(s: Store, child: Value, hop: Hop, hs: seq<Handle>)
    requires WellFormed(s) && (child.VInst? ==> child.h < |s.heap|)
    requires Step(s, child, hop).0 == Ok(hs)
    ensures Coherent(s) ==>
      Lifted(Cut(Reach(s, child.h, hop))) <= (set x | x in Lift(hs)) <= Lifted(Reach(s, child.h, hop))
  {
    if Coherent(s) {
      LiftBounds(Reach(s, child.h, hop), hs);
    }
  }

  lemma LiftBounds(reach: seq<Handle>, hs: seq<Handle>)
    requires hs == reach || hs == Cut(reach)
    ensures Lifted(Cut(reach)) <= (set x | x in Lift(hs)) <= Lifted(reach)
  {
    forall x | x in Lift(hs) ensures x in Lifted(reach) {
      var k :| 0 <= k < |hs| && Lift(hs)[k] == x;
      assert hs[k] in reach;
    }
    forall x | x in Lifted(Cut(reach)) ensures x in Lift(hs) {
      var y :| y in Cut(reach) && x == VInst(y);
      var k :| 0 <= k < |hs| && hs[k] == y;
      assert Lift(hs)[k] == x;
    }
  }

  /** Reference answer of a whole hop: the union of every child's full match list. */
  ghost function Targets(s: Store, children: seq<Value>, hop: Hop): set<Value>
    requires WellFormed(s) && AllDefined(s, children, hop)
    decreases |children|
  {
    if |children| == 0 then {}
    else Lifted(Reach(s, children[0].h, hop)) + Targets(s, children[1..], hop)
  }

  /** What a hop returns at least: the first match of every child. */
  ghost function Firsts(s: Store, children: seq<Value>, hop: Hop): set<Value>
    requires WellFormed(s) && AllDefined(s, children, hop)
    decreases |children|
  {
    if |children| == 0 then {}
    else Lifted(Cut(Reach(s, children[0].h, hop))) + Firsts(s, children[1..], hop)
  }

  /** A hop from one instance looks at what a cache fill leaves alone. */
  lemma ChildIgnoresCaches(s: Store, t: Store, h: Handle, hop: Hop)
    requires WellFormed(s) && WellFormed(t) && OnlyCachesDiffer(s, t) && h < |s.heap|
    ensures Route(s, h, hop) == Route(t, h, hop)
    ensures Defined(s, h, hop) <==> Defined(t, h, hop)
    ensures Defined(s, h, hop) ==> Reach(s, h, hop) == Reach(t, h, hop)
  {
    assert s.classObjs[s.heap[h].cls].assoc == t.classObjs[t.heap[h].cls].assoc;
  }

  /** Hops look at what a cache fill leaves alone. */
  lemma {:induction false} HopsIgnoreCaches(s: Store, t: Store, children: seq<Value>, hop: Hop)
    requires WellFormed(s) && WellFormed(t) && OnlyCachesDiffer(s, t)
    requires Live(s, children)
    ensures AllDefined(s, children, hop) <==> AllDefined(t, children, hop)
    ensures AllDefined(s, children, hop) ==>
      Targets(s, children, hop) == Targets(t, children, hop) && Firsts(s, children, hop) == Firsts(t, children, hop)
    decreases |children|
  {
    forall i | 0 <= i < |children| && children[i].VInst?
      ensures Defined(s, children[i].h, hop) <==> Defined(t, children[i].h, hop)
    {
      ChildIgnoresCaches(s, t, children[i].h, hop);
    }
    if |children| > 0 {
      assert Live(s, children[1..]) by {
        forall i | 0 <= i < |children| - 1 ensures children[1..][i] == children[i + 1] { }
      }
      HopsIgnoreCaches(s, t, children[1..], hop);
      if AllDefined(s, children, hop) {
        assert AllDefined(s, children[1..], hop) by {
          forall i | 0 <= i < |children| - 1 ensures children[1..][i] == children[i + 1] { }
        }
        ChildIgnoresCaches(s, t, children[0].h, hop);
      }
    }
  }

  /** `result |= child.__q__[...](child)` for every child in turn, starting from `acc`. The
      first failing child ends the hop; what earlier children cached stays cached. */
  function HopAll(s: Store, children: seq<Value>, acc: OrderedSet<Value>, hop: Hop): (r: (Result<OrderedSet<Value>>, Store))
    requires WellFormed(s) && Live(s, children) && acc.Valid() && Live(s, acc.items)
    ensures WellFormed(r.1) && OnlyCachesDiffer(s, r.1)
    ensures Coherent(s) ==> Coherent(r.1)
    ensures r.0.Ok? ==> r.0.value.Valid() && acc.items <= r.0.value.items && Live(s, r.0.value.items)
    ensures r.0.Ok? ==> AllDefined(s, children, hop)
    decreases |children|
  {
    if |children| == 0 then (Ok(acc), s)
    else
      var (found, s1) := Step(s, children[0], hop);
      match found
      case Err(e) => (Err(e), s1)
      case Ok(hs) =>
        var acc' := AddAll(acc, Lift(hs));
        LiveAddAll(s1, acc, hs);
        LiveTail(s1, children);
        var (res, s2) := HopAll(s1, children[1..], acc', hop);
        HopsIgnoreCaches(s, s1, children[1..], hop);
        assert res.Ok? ==> AllDefined(s, children, hop) by {
          if res.Ok? {
            forall i | 0 <= i < |children| ensures children[i].VInst? && Defined(s, children[i].h, hop) {
              if i > 0 { assert children[i] == children[1..][i - 1]; }
            }
          }
        }
        (res, s2)
  }

  lemma LiveAddAll(s: Store, acc: OrderedSet<Value>, hs: seq<Handle>)
    requires acc.Valid() && Live(s, acc.items) && forall i :: 0 <= i < |hs| ==> hs[i] < |s.heap|
    ensures Live(s, AddAll(acc, Lift(hs)).items)
  {
    var acc' := AddAll(acc, Lift(hs));
    LiveMembers(s, acc.items);
    forall x | x in Lift(hs) ensures x.VInst? && x.h < |s.heap| {
      var k :| 0 <= k < |Lift(hs)| && Lift(hs)[k] == x;
    }
    forall x | x in acc'.items ensures x.VInst? ==> x.h < |s.heap| {
      assert x in acc'.Elements();
    }
    MembersLive(s, acc'.items);
  }

  /** `Live` in terms of membership, one way ... */
  lemma LiveMembers(s: Store, xs: seq<Value>)
    requires Live(s, xs)
    ensures forall x :: x in xs && x.VInst? ==> x.h < |s.heap|
  {
    forall x | x in xs && x.VInst? ensures x.h < |s.heap| {
      var k :| 0 <= k < |xs| && xs[k] == x;
    }
  }

  /** ... and the other. */
  lemma MembersLive(s: Store, xs: seq<Value>)
    requires forall x :: x in xs && x.VInst? ==> x.h < |s.heap|
    ensures Live(s, xs)
  {
    forall i | 0 <= i < |xs| && xs[i].VInst? ensures xs[i].h < |s.heap| {
      assert xs[i] in xs;
    }
  }

  lemma LiveTail(s: Store, xs: seq<Value>)
    requires |xs| > 0 && Live(s, xs)
    ensures Live(s, xs[1..])
  {
    forall i | 0 <= i < |xs| - 1 ensures xs[1..][i] == xs[i + 1] { }
  }

  /** In a coherent store a hop returns at least the first match of every child and
      nothing but matches of the children: between `Firsts` and `Targets`. */
  lemma {:induction false} HopAllBounds(s: Store, children: seq<Value>, acc: OrderedSet<Value>, hop: Hop)
    requires Coherent(s) && Live(s, children) && acc.Valid() && Live(s, acc.items)
    requires HopAll(s, children, acc, hop).0.Ok?
    ensures AllDefined(s, children, hop)
    ensures Firsts(s, children, hop) <= HopAll(s, children, acc, hop).0.value.Elements()
    ensures HopAll(s, children, acc, hop).0.value.Elements() <= acc.Elements() + Targets(s, children, hop)
    decreases |children|
  {
    if |children| > 0 {
      var (found, s1) := Step(s, children[0], hop);
      var hs := found.value;
      var acc' := AddAll(acc, Lift(hs));
      LiveAddAll(s1, acc, hs);
      LiveTail(s1, children);
      HopAllBounds(s1, children[1..], acc', hop);
      HopsIgnoreCaches(s, s1, children[1..], hop);
      StepBounds(s, children[0], hop, hs);
      HopAllStep(s, children, hop, hs, acc, acc', HopAll(s1, children[1..], acc', hop).0);
    }
  }

  /** The bookkeeping of one child in `HopAll`. */
  lemma HopAllStep(s: Store, children: seq<Value>, hop: Hop, hs: seq<Handle>,
                   acc: OrderedSet<Value>, acc': OrderedSet<Value>, res: Result<OrderedSet<Value>>)
    requires WellFormed(s) && |children| > 0 && Live(s, children)
    requires children[0].VInst? && Defined(s, children[0].h, hop)
    requires acc.items <= acc'.items && acc'.Elements() == acc.Elements() + (set x | x in Lift(hs))
    requires Coherent(s) ==>
      Lifted(Cut(Reach(s, children[0].h, hop))) <= (set x | x in Lift(hs)) <= Lifted(Reach(s, children[0].h, hop))
    requires res.Ok? ==> acc'.items <= res.value.items && AllDefined(s, children[1..], hop)
    requires Coherent(s) && res.Ok? ==>
      && Firsts(s, children[1..], hop) <= res.value.Elements()
      && res.value.Elements() <= acc'.Elements() + Targets(s, children[1..], hop)
    ensures res.Ok? ==> acc.items <= res.value.items && AllDefined(s, children, hop)
    ensures Coherent(s) && res.Ok? ==>
      && Firsts(s, children, hop) <= res.value.Elements()
      && res.value.Elements() <= acc.Elements() + Targets(s, children, hop)
  {
    if res.Ok? {
      assert AllDefined(s, children, hop) by {
        forall i | 0 <= i < |children| ensures children[i].VInst? && Defined(s, children[i].h, hop) {
          if i > 0 { assert children[i] == children[1..][i - 1]; }
        }
      }
      if Coherent(s) {
        assert acc'.Elements() <= res.value.Elements() by {
          forall x | x in acc'.Elements() ensures x in res.value.Elements() {
            var k :| 0 <= k < |acc'.items| && acc'.items[k] == x;
            assert res.value.items[k] == x;
          }
        }
      }
    }
  }

  /** Reference content of a hop: every child's full match list, lifted to values and
      concatenated in the children's order. */
  ghost function Fanout(s: Store, children: seq<Value>, hop: Hop): seq<Value>
    requires WellFormed(s) && AllDefined(s, children, hop)
    decreases |children|
  {
    if |children| == 0 then []
    else Lift(Reach(s, children[0].h, hop)) + Fanout(s, children[1..], hop)
  }

  /** Every association a child's hop follows ends at a `many` target. */
  ghost predicate ManyTargets(s: Store, children: seq<Value>, hop: Hop)
    requires WellFormed(s)
  {
    forall i :: 0 <= i < |children| && children[i].VInst? && children[i].h < |s.heap| && Route(s, children[i].h, hop).Some?
      ==> IsMany(Route(s, children[i].h, hop).value.target)
  }

  /** Towards a `many` end, from a coherent store whose caches hold full lists, one child's
      share of a hop is its full match list, and the caches stay full. */
  lemma StepFull(s: Store, child: Value, hop: Hop)
    requires Coherent(s) && CachesFull(s) && child.VInst? && child.h < |s.heap|
    requires Route(s, child.h, hop).Some? && IsMany(Route(s, child.h, hop).value.target)
    requires Step(s, child, hop).0.Ok?
    ensures CachesFull(Step(s, child, hop).1)
    ensures Step(s, child, hop).0.value == Reach(s, child.h, hop)
  {
    var e := Route(s, child.h, hop).value;
    if e.target.kind in s.instances {
      SelectEndpointFull(s, child.h, e.source, e.target, []);
    }
  }

  /** The reference content of a hop looks at what a cache fill leaves alone. */
  lemma {:induction false} FanoutIgnoresCaches(s: Store, t: Store, children: seq<Value>, hop: Hop)
    requires WellFormed(s) && WellFormed(t) && OnlyCachesDiffer(s, t)
    requires Live(s, children) && AllDefined(s, children, hop)
    ensures AllDefined(t, children, hop) && Fanout(s, children, hop) == Fanout(t, children, hop)
    ensures ManyTargets(s, children, hop) ==> ManyTargets(t, children, hop)
    decreases |children|
  {
    HopsIgnoreCaches(s, t, children, hop);
    forall i | 0 <= i < |children| && children[i].VInst? && children[i].h < |s.heap|
      ensures Route(s, children[i].h, hop) == Route(t, children[i].h, hop)
    {
      ChildIgnoresCaches(s, t, children[i].h, hop);
    }
    if |children| > 0 {
      LiveTail(s, children);
      assert AllDefined(s, children[1..], hop) by {
        forall i | 0 <= i < |children| - 1 ensures children[1..][i] == children[i + 1] { }
      }
      FanoutIgnoresCaches(s, t, children[1..], hop);
      ChildIgnoresCaches(s, t, children[0].h, hop);
    }
  }

  /** What is true of a hop's children is true of all but the first. */
  lemma ManyTargetsTail(s: Store, children: seq<Value>, hop: Hop)
    requires WellFormed(s) && |children| > 0 && ManyTargets(s, children, hop)
    ensures ManyTargets(s, children[1..], hop)
  {
    forall i | 0 <= i < |children| - 1 ensures children[1..][i] == children[i + 1] { }
  }

  /** When every association the hop follows ends at a `many` target and the caches hold
      full match lists (as they do before any join is cached), a hop returns exactly the
      reference content: `acc` followed by every child's matches, each instance once, in
      order of first occurrence. */
  lemma {:induction false} HopAllExact(s: Store, children: seq<Value>, acc: OrderedSet<Value>, hop: Hop)
    requires Coherent(s) && CachesFull(s) && Live(s, children) && acc.Valid() && Live(s, acc.items)
    requires ManyTargets(s, children, hop)
    requires HopAll(s, children, acc, hop).0.Ok?
    ensures AllDefined(s, children, hop)
    ensures HopAll(s, children, acc, hop).0.value == AddAll(acc, Fanout(s, children, hop))
    decreases |children|
  {
    if |children| > 0 {
      var (found, s1) := Step(s, children[0], hop);
      var hs := found.value;
      StepFull(s, children[0], hop);
      var acc' := AddAll(acc, Lift(hs));
      LiveAddAll(s1, acc, hs);
      LiveTail(s1, children);
      LiveTail(s, children);
      ManyTargetsTail(s, children, hop);
      assert AllDefined(s, children[1..], hop) by {
        forall i | 0 <= i < |children| - 1 ensures children[1..][i] == children[i + 1] { }
      }
      FanoutIgnoresCaches(s, s1, children[1..], hop);
      HopAllExact(s1, children[1..], acc', hop);
      AddAllConcat(acc, Lift(hs), Fanout(s, children[1..], hop));
    }
  }

  /** Every hop of the chain in order, each over the set the previous one produced. */
  function Walk(s: Store, chain: NavChain, hops: seq<Hop>): (r: (Result<NavChain>, Store))
    requires WellFormed(s) && Live(s, chain.handle.items)
    ensures WellFormed(r.1) && OnlyCachesDiffer(s, r.1)
    ensures Coherent(s) ==> Coherent(r.1)
    ensures |hops| == 0 ==> r == (Ok(chain), s)
    ensures r.0.Ok? ==> r.0.value.many == chain.many && Live(s, r.0.value.handle.items)
    ensures r.0.Ok? && |hops| > 0 ==> r.0.value.handle.Valid()
    decreases |hops|
  {
    if |hops| == 0 then (Ok(chain), s)
    else
      var (found, s1) := HopAll(s, chain.handle.items, Empty(), hops[0]);
      match found
      case Err(e) => (Err(e), s1)
      case Ok(q) => Walk(s1, NavChain(q, chain.many), hops[1..])
  }

  /** `chain(where)`: the elements the filter keeps, as a query set for a `navigate_many`
      chain and as the first of them (or `None`) otherwise. */
  function Finish(chain: NavChain, where: Option<Value -> bool>): (r: Value)
    ensures chain.many ==> r.VSet? && r.elems.Valid()
    ensures chain.many ==> forall x :: x in r.elems.items <==> x in chain.handle.items && Keeps(where, x)
    ensures chain.many && chain.handle.Valid() ==> r.elems.items == Filter(where, chain.handle.items)
    ensures !chain.many && (forall x :: x in chain.handle.items ==> !Keeps(where, x)) ==> r == VNone
    ensures !chain.many && (exists x :: x in chain.handle.items && Keeps(where, x)) ==>
      exists i :: 0 <= i < |chain.handle.items| && r == chain.handle.items[i] && Keeps(where, r) &&
        forall j :: 0 <= j < i ==> !Keeps(where, chain.handle.items[j])
  {
    var xs := chain.handle.items;
    if chain.many then
      var kept := Filter(where, xs);
      FromSeqDistinct(kept);
      var q := FromSeq(kept);
      assert forall x :: x in q.items <==> x in q.Elements();
      VSet(q)
    else
      match FirstKept(where, xs)
      case Some(i) => xs[i]
      case None => VNone
  }

  /** `next(filter(where, s), None)` is the first element of `QuerySet(filter(where, s))`. */
  lemma FinishOneIsFirstOfMany(handle: OrderedSet<Value>, where: Option<Value -> bool>)
    ensures Finish(NavChain(handle, false), where) ==
      match First(Finish(NavChain(handle, true), where).elems) { case Some(x) => x case None => VNone }
  {
    var kept := Filter(where, handle.items);
    if |kept| > 0 {
      FromSeqFirst(kept);
    }
  }

  /** A whole navigation: start, hops, final call. */
  function Navigate(s: Store, v: Value, hops: seq<Hop>, many: bool, where: Option<Value -> bool>): (r: (Result<Value>, Store))
    requires WellFormed(s) && LiveStart(s, v)
    ensures WellFormed(r.1) && OnlyCachesDiffer(s, r.1)
    ensures Coherent(s) ==> Coherent(r.1)
    ensures Start(v, many).Err? ==> r == (Err(CannotNavigate), s)
    ensures r.0.Ok? && many ==> r.0.value.VSet? && r.0.value.elems.Valid()
    ensures r.0.Ok? && !many ==> r.0.value == VNone || Keeps(where, r.0.value)
  {
    match Start(v, many)
    case Err(e) => (Err(e), s)
    case Ok(chain) =>
      assert Live(s, chain.handle.items) by {
        forall i | 0 <= i < |chain.handle.items| && chain.handle.items[i].VInst?
          ensures chain.handle.items[i].h < |s.heap|
        {
          var x := chain.handle.items[i];
          if v.VSet? {
            var k :| 0 <= k < |v.elems.items| && v.elems.items[k] == x;
          }
        }
      }
      var (walked, s1) := Walk(s, chain, hops);
      match walked
      case Err(e) => (Err(e), s1)
      case Ok(end) => (Ok(Finish(end, where)), s1)
  }

  /** `navigate_many(inst)...(where)`: a query set; with no hops, the starting set
      filtered by `where`. */
  function NavigateMany(s: Store, v: Value, hops: seq<Hop>, where: Option<Value -> bool>): (r: (Result<Value>, Store))
    requires WellFormed(s) && LiveStart(s, v)
    ensures Start(v, true).Err? ==> r == (Err(CannotNavigate), s)
    ensures r.0.Ok? ==> r.0.value.VSet? && r.0.value.elems.Valid()
    ensures |hops| == 0 && v.VSet? && v.elems.Valid() ==> r == (Ok(VSet(OrderedSet(Filter(where, v.elems.items)))), s)
    ensures |hops| == 0 && v.VNone? ==> r == (Ok(VSet(Empty())), s)
  {
    Navigate(s, v, hops, true, where)
  }

  /** `navigate_any(inst)...(where)`; `navigate_one` is the same function. With no hops it
      answers the first element of the starting set `where` keeps, or `None`. */
  function NavigateAny(s: Store, v: Value, hops: seq<Hop>, where: Option<Value -> bool>): (r: (Result<Value>, Store))
    requires WellFormed(s) && LiveStart(s, v)
    ensures Start(v, false).Err? ==> r == (Err(CannotNavigate), s)
    ensures r.0.Ok? ==> r.0.value == VNone || Keeps(where, r.0.value)
    ensures |hops| == 0 && v.VSet? ==> r.1 == s && r.0 == Ok(match FirstKept(where, v.elems.items)
                                                              case Some(i) => v.elems.items[i]
                                                              case None => VNone)
    ensures |hops| == 0 && v.VNone? ==> r == (Ok(VNone), s)
  {
    Navigate(s, v, hops, false, where)
  }

  /** The hops do not look at whether the chain ends in a set. */
  lemma {:induction false} WalkIgnoresMany(s: Store, handle: OrderedSet<Value>, hops: seq<Hop>)
    requires WellFormed(s) && Live(s, handle.items)
    ensures Walk(s, NavChain(handle, false), hops).1 == Walk(s, NavChain(handle, true), hops).1
    ensures Walk(s, NavChain(handle, false), hops).0.Ok? <==> Walk(s, NavChain(handle, true), hops).0.Ok?
    ensures Walk(s, NavChain(handle, false), hops).0.Ok? ==>
      Walk(s, NavChain(handle, false), hops).0.value.handle == Walk(s, NavChain(handle, true), hops).0.value.handle
    ensures Walk(s, NavChain(handle, false), hops).0.Err? ==>
      Walk(s, NavChain(handle, false), hops).0 == Walk(s, NavChain(handle, true), hops).0
    decreases |hops|
  {
    if |hops| > 0 {
      var (found, s1) := HopAll(s, handle.items, Empty(), hops[0]);
      if found.Ok? {
        WalkIgnoresMany(s1, found.value, hops[1..]);
      }
    }
  }

  /** `navigate_any` answers with the first element of what `navigate_many` answers, from
      the same store, and leaves the store as `navigate_many` would. */
  lemma NavigateAnyIsFirstOfMany(s: Store, v: Value, hops: seq<Hop>, where: Option<Value -> bool>)
    requires WellFormed(s) && LiveStart(s, v)
    ensures NavigateAny(s, v, hops, where).1 == NavigateMany(s, v, hops, where).1
    ensures NavigateAny(s, v, hops, where).0.Ok? <==> NavigateMany(s, v, hops, where).0.Ok?
    ensures NavigateAny(s, v, hops, where).0.Ok? ==>
      NavigateAny(s, v, hops, where).0.value ==
        match First(NavigateMany(s, v, hops, where).0.value.elems) { case Some(x) => x case None => VNone }
  {
    if Start(v, false).Ok? {
      var handle := Start(v, false).value.handle;
      assert Start(v, true).value.handle == handle;
      StartLive(s, v, false);
      WalkIgnoresMany(s, handle, hops);
      var w := Walk(s, NavChain(handle, false), hops);
      if w.0.Ok? {
        FinishOneIsFirstOfMany(w.0.value.handle, where);
      }
    }
  }

  /** A chain starts from instances that exist. */
  lemma StartLive(s: Store, v: Value, many: bool)
    requires WellFormed(s) && LiveStart(s, v) && Start(v, many).Ok?
    ensures Live(s, Start(v, many).value.handle.items)
  {
    var handle := Start(v, many).value.handle;
    forall i | 0 <= i < |handle.items| && handle.items[i].VInst? ensures handle.items[i].h < |s.heap| {
      if v.VSet? {
        var k :| 0 <= k < |v.elems.items| && v.elems.items[k] == handle.items[i];
      }
    }
  }

  /** A one-hop `navigate_many` from a coherent store returns, among what `where` keeps, at
      least the first match of every starting instance and nothing but their matches. */
  lemma NavigateOneHop(s: Store, v: Value, hop: Hop, where: Option<Value -> bool>)
    requires Coherent(s) && LiveStart(s, v)
    requires NavigateMany(s, v, [hop], where).0.Ok?
    ensures Start(v, true).Ok?
    ensures var start := Start(v, true).value.handle.items;
      && AllDefined(s, start, hop)
      && var r := NavigateMany(s, v, [hop], where).0.value;
      && r.VSet?
      && (forall x :: x in r.elems.items ==> x in Targets(s, start, hop) && Keeps(where, x))
      && (forall x :: x in Firsts(s, start, hop) && Keeps(where, x) ==> x in r.elems.items)
  {
    var chain := Start(v, true).value;
    StartLive(s, v, true);
    var start := chain.handle.items;
    var (found, s1) := HopAll(s, start, Empty(), hop);
    HopAllBounds(s, start, Empty(), hop);
    var q := found.value;
    assert Walk(s, chain, [hop]) == Walk(s1, NavChain(q, true), []);
    var r := Finish(NavChain(q, true), where);
    assert NavigateMany(s, v, [hop], where).0.value == r;
    assert Empty<Value>().Elements() == {};
    forall x | x in r.elems.items ensures x in Targets(s, start, hop) && Keeps(where, x) {
      assert x in q.Elements();
    }
    forall x | x in Firsts(s, start, hop) && Keeps(where, x) ensures x in r.elems.items {
      assert x in q.Elements();
    }
  }

  /** When the hop ends at `many` targets and the caches hold full match lists, a one-hop
      `navigate_many` returns exactly the reference content, filtered by `where`: the
      starting instances' matches, each once, in order of first occurrence. */
  lemma NavigateOneHopExact(s: Store, v: Value, hop: Hop, where: Option<Value -> bool>)
    requires Coherent(s) && CachesFull(s) && LiveStart(s, v)
    requires Start(v, true).Ok? && ManyTargets(s, Start(v, true).value.handle.items, hop)
    requires NavigateMany(s, v, [hop], where).0.Ok?
    ensures var start := Start(v, true).value.handle.items;
      && AllDefined(s, start, hop)
      && var r := NavigateMany(s, v, [hop], where).0.value;
      && r.VSet?
      && r.elems.items == Filter(where, FromSeq(Fanout(s, start, hop)).items)
  {
    var chain := Start(v, true).value;
    StartLive(s, v, true);
    var (found, s1) := HopAll(s, chain.handle.items, Empty(), hop);
    HopAllExact(s, chain.handle.items, Empty(), hop);
    assert Walk(s, chain, [hop]) == Walk(s1, NavChain(found.value, true), []);
  }
}
