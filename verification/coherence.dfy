/** The join cache stays coherent: every operation of the store either leaves the
    instances and their attributes alone or clears the caches a change could make stale
    (xtuml/model.py:201-227, 270-276, 323-356, 464-485). Together with `SelectEndpoint`,
    which only stores what a scan gives, this makes every cached answer a fresh answer. */
module Coherence {
  import opened Errors
  import opened OrderedSets
  import opened Values
  import opened Ids
  import opened Dicts
  import opened Objects
  import opened Associations
  import opened Store
  import opened Join

  /** A scan depends only on the attributes of the instances it visits. */
  lemma {:induction false} MatchingAgrees(heap: seq<Instance>, heap': seq<Instance>, hs: seq<Handle>, key: JoinKey)
    requires forall i :: 0 <= i < |hs| ==> hs[i] < |heap| && hs[i] < |heap'| && heap[hs[i]].attrs == heap'[hs[i]].attrs
    ensures Matching(heap, hs, key) == Matching(heap', hs, key)
  {
    if |hs| > 0 {
      MatchingAgrees(heap, heap', hs[1..], key);
    }
  }

  /** The empty store is coherent. */
  lemma InitCoherent(source: nat -> Id, ignoreUndefinedClasses: bool)
    ensures Coherent(Init(source, ignoreUndefinedClasses))
  {
  }

  /** Defining a kind that has no instances yet keeps the cache coherent. Redefining a kind
      whose instances exist leaves them with the old class object, whose cache their writes
      then clear instead of the current one; coherence is not claimed for that case. */
  lemma DefineClassKeepsCoherent(s: Store, kind: string, attributes: seq<Attribute>)
    requires Coherent(s) && kind !in s.instances
    ensures Coherent(DefineClass(s, kind, attributes))
  {
    var r := DefineClass(s, kind, attributes);
    forall k, key | k in r.classes && key in r.classObjs[r.classes[k]].cache
      ensures EntryOk(r, k, key, r.classObjs[r.classes[k]].cache[key])
    {
      assert k != kind;
      assert r.classObjs[r.classes[k]] == s.classObjs[s.classes[k]];
    }
  }

  /** Clearing a class's cache, and drawing ids, keep the cache coherent. */
  lemma ClearCacheKeepsCoherent(s: Store, c: nat, g: IdGen)
    requires Coherent(s) && c < |s.classObjs|
    ensures Coherent(ClearCache(s, c).(ids := g))
  {
    var r := ClearCache(s, c).(ids := g);
    forall k, key | k in r.classes && key in r.classObjs[r.classes[k]].cache
      ensures EntryOk(r, k, key, r.classObjs[r.classes[k]].cache[key])
    {
      assert r.classObjs[r.classes[k]] == s.classObjs[s.classes[k]];
    }
  }

  /** Adding an instance keeps the cache coherent once its kind's cache is empty: the
      instance lists of the other kinds, and the instances on them, stay as they were. */
  lemma AddInstanceKeepsCoherent(s: Store, kind: string, attrs: Dict)
    requires Coherent(s) && kind in s.classes && s.classObjs[s.classes[kind]].cache == map[]
    ensures Coherent(AddInstance(s, kind, attrs))
  {
    var r := AddInstance(s, kind, attrs);
    assert forall x :: 0 <= x < |s.heap| ==> r.heap[x] == s.heap[x];
    forall k, i | k in r.instances && 0 <= i < |r.instances[k]|
      ensures r.heap[r.instances[k][i]].cls == r.classes[k]
    {
      if k != kind || i < |InstancesOf(s, kind)| {
        assert r.instances[k][i] == s.instances[k][i];
      }
    }
    forall k, key | k in r.classes && key in r.classObjs[r.classes[k]].cache
      ensures EntryOk(r, k, key, r.classObjs[r.classes[k]].cache[key])
    {
      assert InstancesOf(r, k) == InstancesOf(s, k);
      MatchingAgrees(s.heap, r.heap, InstancesOf(s, k), key);
    }
  }

  /** `new` keeps the cache coherent: the only class whose scans can change is the kind's
      own, and `new` clears its cache first. This holds whether or not `new` succeeds. */
  lemma NewKeepsCoherent(s: Store, kind: string, args: seq<Value>, kwargs: Dict, coerce: Coercion)
    requires Coherent(s)
    ensures Coherent(New(s, kind, args, kwargs, coerce).1)
  {
    if kind in s.classes {
      var c := s.classes[kind];
      var (attrs, g) := BuildAttrs(s.classObjs[c].schema, args, kwargs, coerce, s.ids);
      var s2 := ClearCache(s, c).(ids := g);
      ClearCacheKeepsCoherent(s, c, g);
      if attrs.Ok? {
        AddInstanceKeepsCoherent(s2, kind, attrs.value);
      }
    }
  }

  /** An attribute write keeps the cache coherent: the written instance belongs to exactly
      one kind, and the write clears that kind's cache. */
  lemma SetAttrKeepsCoherent(s: Store, h: Handle, name: string, v: Value)
    requires Coherent(s) && h < |s.heap|
    ensures Coherent(SetAttr(s, h, name, v))
  {
    var r := SetAttr(s, h, name, v);
    if WriteAttr(s.heap[h].attrs, name, v).Some? {
      var c := s.heap[h].cls;
      forall k, key | k in r.classes && key in r.classObjs[r.classes[k]].cache
        ensures EntryOk(r, k, key, r.classObjs[r.classes[k]].cache[key])
      {
        assert s.classes[k] != c;
        var hs := InstancesOf(s, k);
        forall i | 0 <= i < |hs| ensures hs[i] != h {
          assert s.heap[hs[i]].cls == s.classes[k];
        }
        MatchingAgrees(s.heap, r.heap, hs, key);
      }
    }
  }

  /** Defining an association touches association tables only. */
  lemma DefineAssociationKeepsCoherent(s: Store, relid: RelId, source: Link, target: Link)
    requires Coherent(s)
    ensures DefineAssociation(s, relid, source, target).Ok? ==> Coherent(DefineAssociation(s, relid, source, target).value)
  {
    if DefineAssociation(s, relid, source, target).Ok? {
      var r := DefineAssociation(s, relid, source, target).value;
      forall k, key | k in r.classes && key in r.classObjs[r.classes[k]].cache
        ensures EntryOk(r, k, key, r.classObjs[r.classes[k]].cache[key])
      {
        assert r.classObjs[r.classes[k]].cache == s.classObjs[s.classes[k]].cache;
      }
    }
  }

  /** An instance whose attributes `ids` read as `own` matches the key built from `ids`
      and `vals` exactly when the two lists agree position by position, as Python's `==`
      sees hashable values. */
  lemma AllMatchZip(attrs: Dict, ids: seq<string>, vals: seq<Value>, own: seq<Value>)
    requires |ids| == |vals| == |own|
    requires forall i :: 0 <= i < |ids| ==> ReadAttr(attrs, ids[i]) == Ok(own[i]) && Hashable(own[i]) && Hashable(vals[i])
    ensures AllMatch(attrs, PairsKey(Zip(ids, vals))) <==> forall i :: 0 <= i < |ids| ==> Norm(own[i]) == Norm(vals[i])
  {
    var z := Zip(ids, vals);
    var key := PairsKey(z);
    forall i | 0 <= i < |ids|
      ensures PyEquals(own[i], Norm(vals[i])) == Ok(Norm(own[i]) == Norm(vals[i]))
    {
      NormIdempotent(vals[i]);
      PyEqualsHashable(own[i], Norm(vals[i]));
    }
    if AllMatch(attrs, key) {
      forall i | 0 <= i < |ids| ensures Norm(own[i]) == Norm(vals[i]) {
        assert z[i] == (ids[i], vals[i]);
        assert (ids[i], Norm(vals[i])) in key;
      }
    }
    if forall i :: 0 <= i < |ids| ==> Norm(own[i]) == Norm(vals[i]) {
      forall p | p in key
        ensures ReadAttr(attrs, p.0).Ok? && PyEquals(ReadAttr(attrs, p.0).value, p.1) == Ok(true)
      {
        var i :| 0 <= i < |z| && z[i].0 == p.0 && Norm(z[i].1) == p.1;
      }
    }
  }

  /** The join is symmetric: with distinct identifying attributes on both ends, instance `b`
      is among the instances `a` navigates to exactly when `a` is among those `b` navigates
      back to. This is what makes a `define_association` navigable both ways. */
  lemma JoinIsSymmetric(s: Store, a: Handle, b: Handle, source: Link, target: Link)
    requires a < |s.heap| && b < |s.heap|
    requires |source.ids| == |target.ids| && Distinct(source.ids) && Distinct(target.ids)
    requires JoinKeyOf(s, a, source, target, []).Ok? && JoinKeyOf(s, b, target, source, []).Ok?
    ensures AllMatch(s.heap[b].attrs, JoinKeyOf(s, a, source, target, []).value)
        <==> AllMatch(s.heap[a].attrs, JoinKeyOf(s, b, target, source, []).value)
  {
    var va := PlainKey(s, a, source, target);
    var vb := PlainKey(s, b, target, source);
    var ka := JoinKeyOf(s, a, source, target, []).value;
    var kb := JoinKeyOf(s, b, target, source, []).value;
    assert AllMatch(s.heap[b].attrs, ka) <==> forall i :: 0 <= i < |va| ==> Norm(vb[i]) == Norm(va[i]) by {
      AllMatchZip(s.heap[b].attrs, target.ids, va, vb);
    }
    assert AllMatch(s.heap[a].attrs, kb) <==> forall i :: 0 <= i < |va| ==> Norm(va[i]) == Norm(vb[i]) by {
      AllMatchZip(s.heap[a].attrs, source.ids, vb, va);
    }
  }

  /** Without extra filters the key of a navigation from `h` pairs `target.ids[i]` with the
      value `h` reads for `source.ids[i]`; those values are returned. */
  lemma PlainKey(s: Store, h: Handle, source: Link, target: Link) returns (vals: seq<Value>)
    requires h < |s.heap|
    requires |source.ids| == |target.ids| && Distinct(target.ids)
    requires JoinKeyOf(s, h, source, target, []).Ok?
    ensures |vals| == |source.ids|
    ensures forall i :: 0 <= i < |vals| ==> ReadAttr(s.heap[h].attrs, source.ids[i]) == Ok(vals[i]) && Hashable(vals[i])
    ensures JoinKeyOf(s, h, source, target, []).value == PairsKey(Zip(target.ids, vals))
  {
    JoinPairsPlain(s.heap[h].attrs, source, target);
    vals := ReadAll(s.heap[h].attrs, source.ids).value;
    var pairs := Zip(target.ids, vals);
    assert JoinPairs(s.heap[h].attrs, source, target, []) == Ok(pairs);
    assert AllHashable(pairs);
    forall i | 0 <= i < |vals| ensures Hashable(vals[i]) {
      assert pairs[i].1 == vals[i];
    }
  }

  /** Without extra filters and with distinct ids, the join pairs `target.ids[i]` with the
      source's value of `source.ids[i]`, one pair each. */
  lemma JoinPairsPlain(attrs: Dict, source: Link, target: Link)
    requires |source.ids| == |target.ids| && Distinct(target.ids)
    requires JoinPairs(attrs, source, target, []).Ok?
    ensures ReadAll(attrs, source.ids).Ok?
    ensures JoinPairs(attrs, source, target, []).value == Zip(target.ids, ReadAll(attrs, source.ids).value)
  {
    var vals := ReadAll(attrs, source.ids).value;
    assert target.ids + Keys([]) == target.ids;
    assert vals + Vals([]) == vals;
    var pairs := Zip(target.ids, vals);
    assert Keys(pairs) == target.ids by {
      forall i | 0 <= i < |pairs| ensures Keys(pairs)[i] == target.ids[i] { KeysAt(pairs, i); }
    }
    FromPairsDistinct(pairs);
  }
}
