/** The endpoint join behind every navigation (xtuml/model.py:429-453): a linear scan of
    the target class's instances, memoised in the target class's cache under the frozenset
    of the join's (attribute, value) pairs.

    The cache is coherent when every entry equals what a scan of the current instances
    gives: all instances that match the key, or the first of them. The key leaves out
    whether the target end is "many", so an entry made for a single end is only the first
    match; both shapes are allowed. */
module Join {
  import opened Errors
  import opened OrderedSets
  import opened Values
  import opened Dicts
  import opened Objects
  import opened Associations
  import opened Store

  /** The values of `d`, in order. */
  function Vals(d: Dict): (r: seq<Value>)
    ensures |r| == |d| && forall i :: 0 <= i < |d| ==> r[i] == d[i].1
  {
    seq(|d|, i requires 0 <= i < |d| => d[i].1)
  }

  /** `[getattr(inst, name) for name in names]`: the first unreadable name raises. */
  function ReadAll(attrs: Dict, names: seq<string>): (r: Result<seq<Value>>)
    ensures r.Ok? <==> forall i :: 0 <= i < |names| ==> ReadAttr(attrs, names[i]).Ok?
    ensures r.Ok? ==> |r.value| == |names| && forall i :: 0 <= i < |names| ==> ReadAttr(attrs, names[i]) == Ok(r.value[i])
    ensures r.Err? ==> exists i :: 0 <= i < |names| && ReadAttr(attrs, names[i]) == Err(r.error)
  {
    if |names| == 0 then Ok([])
    else match ReadAttr(attrs, names[0])
      case Err(e) => Err(e)
      case Ok(v) =>
        match ReadAll(attrs, names[1..])
        case Err(e) => Err(e)
        case Ok(rest) => Ok([v] + rest)
  }

  /** The filter `_select_endpoint` builds: `dict(zip(target.ids + kwargs keys,
      source values + kwargs values))`. */
  function JoinPairs(attrs: Dict, source: Link, target: Link, kwargs: Dict): (r: Result<Dict>)
    ensures r.Ok? <==> forall i :: 0 <= i < |source.ids| ==> ReadAttr(attrs, source.ids[i]).Ok?
    ensures r.Ok? ==> IsDict(r.value)
    ensures r.Ok? ==> forall k :: k in Keys(r.value) ==> k in target.ids || k in Keys(kwargs)
  {
    match ReadAll(attrs, source.ids)
    case Err(e) => Err(e)
    case Ok(vals) =>
      var pairs := Zip(target.ids + Keys(kwargs), vals + Vals(kwargs));
      var d := FromPairs(pairs);
      assert forall k :: k in Keys(d) ==> k in Keys(pairs);
      assert forall k :: k in Keys(pairs) ==> k in target.ids + Keys(kwargs) by {
        forall k | k in Keys(pairs) ensures k in target.ids + Keys(kwargs) {
          var i :| 0 <= i < |Keys(pairs)| && Keys(pairs)[i] == k;
          KeysAt(pairs, i);
        }
      }
      Ok(d)
  }

  /** Every value of the filter can be hashed. */
  predicate AllHashable(pairs: Dict) {
    forall i :: 0 <= i < |pairs| ==> Hashable(pairs[i].1)
  }

  /** The pairs of a filter as a set, values in canonical form. */
  function PairsKey(pairs: Dict): (r: JoinKey)
    ensures forall n, v :: (n, v) in r <==> exists i :: 0 <= i < |pairs| && pairs[i].0 == n && Norm(pairs[i].1) == v
  {
    set i | 0 <= i < |pairs| :: (pairs[i].0, Norm(pairs[i].1))
  }

  /** `frozenset(kwargs.items())`: `TypeError` when a value is a query set. */
  function JoinKeyOfPairs(pairs: Dict): (r: Result<JoinKey>)
    ensures r.Ok? <==> AllHashable(pairs)
    ensures r.Ok? ==> r.value == PairsKey(pairs)
    ensures r.Err? ==> r.error == Unhashable
  {
    if AllHashable(pairs) then Ok(PairsKey(pairs)) else Err(Unhashable)
  }

  /** The cache key of a navigation from instance `h`. */
  function JoinKeyOf(s: Store, h: Handle, source: Link, target: Link, kwargs: Dict): Result<JoinKey>
    requires h < |s.heap|
  {
    match JoinPairs(s.heap[h].attrs, source, target, kwargs)
    case Err(e) => Err(e)
    case Ok(pairs) => JoinKeyOfPairs(pairs)
  }

  /** An instance matches a join key: every named attribute can be read and equals its value. */
  ghost predicate AllMatch(attrs: Dict, key: JoinKey) {
    forall p :: p in key ==> ReadAttr(attrs, p.0).Ok? && PyEquals(ReadAttr(attrs, p.0).value, p.1) == Ok(true)
  }

  /** The inner loop of `_query`: compares the pairs in order and stops at the first
      difference; a missing attribute or an incomparable value raises. */
  function MatchAll(attrs: Dict, pairs: Dict): (r: Result<bool>)
  {
    if |pairs| == 0 then Ok(true)
    else match ReadAttr(attrs, pairs[0].0)
      case Err(e) => Err(e)
      case Ok(a) =>
        match PyEquals(a, pairs[0].1)
        case Err(e) => Err(e)
        case Ok(same) => if !same then Ok(false) else MatchAll(attrs, pairs[1..])
  }

  /** When the comparison loop finishes it has decided whether the instance matches the
      set of pairs, whatever order they came in. */
  lemma {:induction false} MatchAllMeaning(attrs: Dict, pairs: Dict)
    ensures AllHashable(pairs) && MatchAll(attrs, pairs).Ok? ==>
      MatchAll(attrs, pairs).value == AllMatch(attrs, PairsKey(pairs))
  {
    if |pairs| > 0 && AllHashable(pairs) && MatchAll(attrs, pairs).Ok? {
      var p := pairs[0];
      var rest := pairs[1..];
      PairsKeyCons(pairs);
      PyEqualsNorm(ReadAttr(attrs, p.0).value, p.1);
      if PyEquals(ReadAttr(attrs, p.0).value, p.1) == Ok(true) {
        AllHashableTail(pairs);
        MatchAllMeaning(attrs, rest);
      }
    }
  }

  /** The key of a non-empty list of pairs: its first pair, normalised, and the key of the rest. */
  lemma PairsKeyCons(pairs: Dict)
    requires |pairs| > 0
    ensures PairsKey(pairs) == {(pairs[0].0, Norm(pairs[0].1))} + PairsKey(pairs[1..])
  {
    var p := pairs[0];
    var rest := pairs[1..];
    forall q | q in PairsKey(pairs) ensures q in {(p.0, Norm(p.1))} + PairsKey(rest) {
      var i :| 0 <= i < |pairs| && pairs[i].0 == q.0 && Norm(pairs[i].1) == q.1;
      if i > 0 { assert rest[i - 1] == pairs[i]; }
    }
    forall q | q in PairsKey(rest) ensures q in PairsKey(pairs) {
      var i :| 0 <= i < |rest| && rest[i].0 == q.0 && Norm(rest[i].1) == q.1;
      assert pairs[i + 1] == rest[i];
    }
  }

  lemma AllHashableTail(pairs: Dict)
    requires |pairs| > 0 && AllHashable(pairs)
    ensures AllHashable(pairs[1..])
  {
    forall i | 0 <= i < |pairs| - 1 ensures Hashable(pairs[1..][i].1) { assert pairs[1..][i] == pairs[i + 1]; }
  }

  /** The handles of `hs`, in order, whose instances match `key`. */
  ghost function Matching(heap: seq<Instance>, hs: seq<Handle>, key: JoinKey): (r: seq<Handle>)
    requires forall i :: 0 <= i < |hs| ==> hs[i] < |heap|
    ensures forall x :: x in r <==> x in hs && AllMatch(heap[x].attrs, key)
    ensures Distinct(hs) ==> Distinct(r)
  {
    if |hs| == 0 then []
    else
      var rest := Matching(heap, hs[1..], key);
      assert Distinct(hs) ==> Distinct(hs[1..]) && hs[0] !in hs[1..];
      (if AllMatch(heap[hs[0]].attrs, key) then [hs[0]] else []) + rest
  }

  /** The first element of a sequence, or nothing. */
  function Cut<T>(xs: seq<T>): (r: seq<T>)
    ensures r <= xs && |r| == if |xs| == 0 then 0 else 1
  {
    if |xs| == 0 then [] else [xs[0]]
  }

  /** What a scan yields for a target end: every match, or only the first one. */
  function Shape<T>(xs: seq<T>, many: bool): seq<T> {
    if many then xs else Cut(xs)
  }

  /** `_query(kind, many, **pairs)` over the handles `hs`: every instance whose attributes
      equal all pairs, in order; stops after the first match unless `many`. */
  function Scan(s: Store, hs: seq<Handle>, pairs: Dict, many: bool): (r: Result<seq<Handle>>)
    requires forall i :: 0 <= i < |hs| ==> hs[i] < |s.heap|
    ensures r.Ok? && AllHashable(pairs) ==> r.value == Shape(Matching(s.heap, hs, PairsKey(pairs)), many)
  {
    if |hs| == 0 then Ok([])
    else match MatchAll(s.heap[hs[0]].attrs, pairs)
      case Err(e) => Err(e)
      case Ok(b) =>
        MatchAllMeaning(s.heap[hs[0]].attrs, pairs);
        if b && !many then Ok([hs[0]])
        else match Scan(s, hs[1..], pairs, many)
          case Err(e) => Err(e)
          case Ok(rest) => Ok(if b then [hs[0]] + rest else rest)
  }

  /** All instances of `kind` that match `key`, in creation order: what a fresh scan for a
      "many" end gives. */
  ghost function Full(s: Store, kind: string, key: JoinKey): seq<Handle>
    requires WellFormed(s)
  {
    Matching(s.heap, InstancesOf(s, kind), key)
  }

  /** The store invariant of the join cache: every kind's instances carry its current class
      object, and every cache entry is the full match list for its key or its first element. */
  ghost predicate Coherent(s: Store) {
    WellFormed(s) && InstancesTyped(s) && CacheCoherent(s)
  }

  /** Every kind's instances carry its current class object. */
  ghost predicate InstancesTyped(s: Store)
    requires WellFormed(s)
  {
    forall k, i :: k in s.instances && 0 <= i < |s.instances[k]| ==> s.heap[s.instances[k][i]].cls == s.classes[k]
  }

  /** The cache entry of kind `k` under `key` is what a fresh scan gives. */
  ghost predicate EntryOk(s: Store, k: string, key: JoinKey, entry: seq<Handle>)
    requires WellFormed(s)
  {
    entry == Full(s, k, key) || entry == Cut(Full(s, k, key))
  }

  /** Every cache entry of every current class object is what a fresh scan gives. */
  ghost predicate CacheCoherent(s: Store)
    requires WellFormed(s)
  {
    forall k, key :: k in s.classes && key in s.classObjs[s.classes[k]].cache ==>
      EntryOk(s, k, key, s.classObjs[s.classes[k]].cache[key])
  }

  /** Every cache entry holds the full match list for its key, never only its first
      element: the state of caches that have answered `many` target ends only. */
  ghost predicate CachesFull(s: Store)
    requires WellFormed(s)
  {
    forall k, key :: k in s.classes && key in s.classObjs[s.classes[k]].cache ==>
      s.classObjs[s.classes[k]].cache[key] == Full(s, k, key)
  }

  /** `t` differs from `s` in the contents of class caches at most. */
  ghost predicate OnlyCachesDiffer(s: Store, t: Store) {
    && t.classes == s.classes && t.instances == s.instances && t.heap == s.heap && t.ids == s.ids
    && t.ignoreUndefinedClasses == s.ignoreUndefinedClasses
    && |t.classObjs| == |s.classObjs|
    && forall i :: 0 <= i < |s.classObjs| ==>
         t.classObjs[i].kind == s.classObjs[i].kind && t.classObjs[i].schema == s.classObjs[i].schema &&
         t.classObjs[i].assoc == s.classObjs[i].assoc
  }

  /** `_select_endpoint(inst, source, target, kwargs)` from instance `h`. A target kind
      without instances gives an empty set and caches nothing. Otherwise a cached entry for
      the join key is returned as is; a missing one is computed by a scan and stored. */
  function SelectEndpoint(s: Store, h: Handle, source: Link, target: Link, kwargs: Dict)
    : (r: (Result<OrderedSet<Handle>>, Store))
    requires WellFormed(s) && h < |s.heap|
    ensures WellFormed(r.1) && OnlyCachesDiffer(s, r.1)
    ensures target.kind !in s.instances ==> r == (Ok(Empty()), s)
    ensures r.0.Err? ==> r.1 == s
    ensures r.0.Ok? ==> forall i :: 0 <= i < |r.0.value.items| ==> r.0.value.items[i] < |s.heap|
    ensures r.0.Ok? && target.kind in s.instances ==>
      var c := s.classes[target.kind];
      && JoinKeyOf(s, h, source, target, kwargs).Ok?
      && var key := JoinKeyOf(s, h, source, target, kwargs).value;
      && key in r.1.classObjs[c].cache && r.0.value.items == r.1.classObjs[c].cache[key]
      && (key in s.classObjs[c].cache ==> r.1 == s)
      && (forall i :: 0 <= i < |s.classObjs| && i != c ==> r.1.classObjs[i] == s.classObjs[i])
      && (forall k :: k in s.classObjs[c].cache && k != key ==>
            k in r.1.classObjs[c].cache && r.1.classObjs[c].cache[k] == s.classObjs[c].cache[k])
    ensures Coherent(s) ==> Coherent(r.1)
    ensures Coherent(s) && r.0.Ok? ==> r.0.value.Valid()
    ensures Coherent(s) && r.0.Ok? && target.kind in s.instances ==>
      var c := s.classes[target.kind];
      var key := JoinKeyOf(s, h, source, target, kwargs).value;
      var full := Full(s, target.kind, key);
      && (r.0.value.items == full || r.0.value.items == Cut(full))
      && (key !in s.classObjs[c].cache ==> r.0.value.items == Shape(full, IsMany(target)))
  {
    if target.kind !in s.instances then (Ok(Empty()), s)
    else match JoinPairs(s.heap[h].attrs, source, target, kwargs)
      case Err(e) => (Err(e), s)
      case Ok(pairs) =>
        match JoinKeyOfPairs(pairs)
        case Err(e) => (Err(e), s)
        case Ok(key) =>
          var (found, r) := CachedScan(s, target.kind, pairs, IsMany(target));
          match found
          case Err(e) => (Err(e), r)
          case Ok(hs) =>
            assert JoinKeyOf(s, h, source, target, kwargs) == Ok(key);
            assert forall i :: 0 <= i < |hs| ==> hs[i] < |s.heap| by {
              CacheEntryLive(r, s.classes[target.kind], key);
            }
            (Ok(OrderedSet(hs)), r)
  }

  /** The memoised `_query`: the cached entry under the pairs' key, or a scan whose result
      is then cached. */
  function CachedScan(s: Store, kind: string, pairs: Dict, many: bool): (r: (Result<seq<Handle>>, Store))
    requires WellFormed(s) && kind in s.instances && AllHashable(pairs)
    ensures WellFormed(r.1) && OnlyCachesDiffer(s, r.1)
    ensures r.0.Err? ==> r.1 == s
    ensures r.0.Ok? ==>
      var c := s.classes[kind];
      var key := PairsKey(pairs);
      && key in r.1.classObjs[c].cache && r.0.value == r.1.classObjs[c].cache[key]
      && (key in s.classObjs[c].cache ==> r.1 == s)
      && (forall i :: 0 <= i < |s.classObjs| && i != c ==> r.1.classObjs[i] == s.classObjs[i])
      && (forall k :: k in s.classObjs[c].cache && k != key ==>
            k in r.1.classObjs[c].cache && r.1.classObjs[c].cache[k] == s.classObjs[c].cache[k])
    ensures Coherent(s) ==> Coherent(r.1)
    ensures Coherent(s) && r.0.Ok? ==>
      && EntryOk(s, kind, PairsKey(pairs), r.0.value) && Distinct(r.0.value)
      && (PairsKey(pairs) !in s.classObjs[s.classes[kind]].cache ==> r.0.value == Shape(Full(s, kind, PairsKey(pairs)), many))
  {
    var c := s.classes[kind];
    var key := PairsKey(pairs);
    if key in s.classObjs[c].cache then
      assert Coherent(s) ==> EntryOk(s, kind, key, s.classObjs[c].cache[key]);
      EntryDistinct(s, kind, key, s.classObjs[c].cache[key]);
      (Ok(s.classObjs[c].cache[key]), s)
    else match Scan(s, s.instances[kind], pairs, many)
      case Err(e) => (Err(e), s)
      case Ok(found) =>
        StoreEntryKeepsCoherent(s, kind, key, found);
        StoreEntryFrame(s, c, key, found);
        (Ok(found), s.(classObjs := s.classObjs[c := s.classObjs[c].(cache := s.classObjs[c].cache[key := found])]))
  }

  /** Storing an entry in class `c`'s cache changes that entry only. */
  lemma StoreEntryFrame(s: Store, c: nat, key: JoinKey, found: seq<Handle>)
    requires c < |s.classObjs|
    ensures var r := s.(classObjs := s.classObjs[c := s.classObjs[c].(cache := s.classObjs[c].cache[key := found])]);
      && OnlyCachesDiffer(s, r)
      && key in r.classObjs[c].cache && r.classObjs[c].cache[key] == found
      && (forall i :: 0 <= i < |s.classObjs| && i != c ==> r.classObjs[i] == s.classObjs[i])
      && (forall k :: k in s.classObjs[c].cache && k != key ==>
            k in r.classObjs[c].cache && r.classObjs[c].cache[k] == s.classObjs[c].cache[k])
  {
  }

  /** A navigation answered once is answered again from the cache, identically and without
      changing the store. */
  lemma SelectEndpointMemoised(s: Store, h: Handle, source: Link, target: Link, kwargs: Dict)
    requires WellFormed(s) && h < |s.heap|
    requires SelectEndpoint(s, h, source, target, kwargs).0.Ok?
    ensures SelectEndpoint(SelectEndpoint(s, h, source, target, kwargs).1, h, source, target, kwargs)
         == SelectEndpoint(s, h, source, target, kwargs)
  {
    var (found, s1) := SelectEndpoint(s, h, source, target, kwargs);
    if target.kind in s.instances {
      var c := s.classes[target.kind];
      var pairs := JoinPairs(s.heap[h].attrs, source, target, kwargs).value;
      assert s1.heap == s.heap && s1.instances == s.instances && s1.classes == s.classes;
      var key := JoinKeyOf(s, h, source, target, kwargs).value;
      assert key == PairsKey(pairs) && key in s1.classObjs[c].cache;
      assert CachedScan(s1, target.kind, pairs, IsMany(target)) == (Ok(s1.classObjs[c].cache[key]), s1);
    }
  }

  /** A cache entry that agrees with a scan holds no handle twice. */
  lemma EntryDistinct(s: Store, kind: string, key: JoinKey, entry: seq<Handle>)
    requires WellFormed(s)
    ensures EntryOk(s, kind, key, entry) ==> Distinct(entry)
  {
  }

  /** Storing a scan's result keeps the cache coherent. */
  lemma StoreEntryKeepsCoherent(s: Store, kind: string, key: JoinKey, found: seq<Handle>)
    requires WellFormed(s) && kind in s.instances
    requires EntryOk(s, kind, key, found)
    ensures var c := s.classes[kind];
      var r := s.(classObjs := s.classObjs[c := s.classObjs[c].(cache := s.classObjs[c].cache[key := found])]);
      && WellFormed(r)
      && (Coherent(s) ==> Coherent(r))
      && Distinct(found)
  {
    var c := s.classes[kind];
    var r := s.(classObjs := s.classObjs[c := s.classObjs[c].(cache := s.classObjs[c].cache[key := found])]);
    assert forall i :: 0 <= i < |found| ==> found[i] < |s.heap| by {
      var full := Full(s, kind, key);
      forall i | 0 <= i < |found| ensures found[i] < |s.heap| {
        assert found[i] in full by { assert found[i] in Cut(full) ==> found[i] in full; }
      }
    }
    StoreEntryKeepsWellFormed(s, kind, key, found);
    if Coherent(s) {
      forall k, key' | k in r.classes && key' in r.classObjs[r.classes[k]].cache
        ensures EntryOk(r, k, key', r.classObjs[r.classes[k]].cache[key'])
      {
        assert Full(r, k, key') == Full(s, k, key');
        if r.classes[k] == c {
          assert k == kind by { assert s.classObjs[s.classes[k]].kind == k; }
        }
      }
    }
  }

  /** Storing a list of live handles in a cache keeps the store well formed. */
  lemma StoreEntryKeepsWellFormed(s: Store, kind: string, key: JoinKey, found: seq<Handle>)
    requires WellFormed(s) && kind in s.instances
    requires forall i :: 0 <= i < |found| ==> found[i] < |s.heap|
    ensures var c := s.classes[kind];
      var r := s.(classObjs := s.classObjs[c := s.classObjs[c].(cache := s.classObjs[c].cache[key := found])]);
      WellFormed(r)
  {
    var c := s.classes[kind];
    var r := s.(classObjs := s.classObjs[c := s.classObjs[c].(cache := s.classObjs[c].cache[key := found])]);
    assert forall k :: k in s.classes ==> r.classObjs[r.classes[k]].kind == s.classObjs[s.classes[k]].kind;
  }

  /** Towards a `many` target end, a store whose caches hold full match lists answers a
      join with the full match list and keeps its caches full. */
  lemma SelectEndpointFull(s: Store, h: Handle, source: Link, target: Link, kwargs: Dict)
    requires Coherent(s) && CachesFull(s) && h < |s.heap| && IsMany(target)
    requires SelectEndpoint(s, h, source, target, kwargs).0.Ok? && target.kind in s.instances
    ensures CachesFull(SelectEndpoint(s, h, source, target, kwargs).1)
    ensures SelectEndpoint(s, h, source, target, kwargs).0.value.items ==
      Full(s, target.kind, JoinKeyOf(s, h, source, target, kwargs).value)
  {
    var pairs := JoinPairs(s.heap[h].attrs, source, target, kwargs).value;
    CachedScanFull(s, target.kind, pairs);
  }

  /** The memoised scan of a `many` end, from a store whose caches hold full lists. */
  lemma CachedScanFull(s: Store, kind: string, pairs: Dict)
    requires Coherent(s) && CachesFull(s) && kind in s.instances && AllHashable(pairs)
    requires CachedScan(s, kind, pairs, true).0.Ok?
    ensures CachesFull(CachedScan(s, kind, pairs, true).1)
    ensures CachedScan(s, kind, pairs, true).0.value == Full(s, kind, PairsKey(pairs))
  {
    var c := s.classes[kind];
    var key := PairsKey(pairs);
    if key !in s.classObjs[c].cache {
      var found := Scan(s, s.instances[kind], pairs, true).value;
      StoreFullEntry(s, kind, key, found);
    }
  }

  /** Storing the full match list keeps every cache entry full. */
  lemma StoreFullEntry(s: Store, kind: string, key: JoinKey, found: seq<Handle>)
    requires WellFormed(s) && CachesFull(s) && kind in s.instances && found == Full(s, kind, key)
    ensures var c := s.classes[kind];
      var r := s.(classObjs := s.classObjs[c := s.classObjs[c].(cache := s.classObjs[c].cache[key := found])]);
      WellFormed(r) && CachesFull(r)
  {
    var c := s.classes[kind];
    var r := s.(classObjs := s.classObjs[c := s.classObjs[c].(cache := s.classObjs[c].cache[key := found])]);
    StoreEntryKeepsCoherent(s, kind, key, found);
    forall k, key' | k in r.classes && key' in r.classObjs[r.classes[k]].cache
      ensures r.classObjs[r.classes[k]].cache[key'] == Full(r, k, key')
    {
      assert Full(r, k, key') == Full(s, k, key');
      if r.classes[k] == c {
        assert k == kind by { assert s.classObjs[s.classes[k]].kind == k; }
      }
    }
  }
}
