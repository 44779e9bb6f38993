/** Python dictionaries as the store uses them: insertion-ordered, a later assignment to an
    existing key keeping the key's place. Instance `__dict__`s, keyword arguments and the
    join's `dict(zip(keys, values))` are all of this shape. */
module Dicts {
  import opened Errors
  import opened OrderedSets
  import opened Values

  type Dict = seq<(string, Value)>

  /** The keys in iteration order. */
  function Keys(d: Dict): (r: seq<string>)
    ensures |r| == |d|
  {
    if |d| == 0 then [] else [d[0].0] + Keys(d[1..])
  }

  lemma {:induction false} KeysAt(d: Dict, i: nat)
    requires i < |d|
    ensures Keys(d)[i] == d[i].0
    decreases i
  {
    if i > 0 {
      KeysAt(d[1..], i - 1);
    }
  }

  /** The representation invariant of a dictionary: no key twice. */
  ghost predicate IsDict(d: Dict) { Distinct(Keys(d)) }

  lemma {:induction false} KeysConcat(a: Dict, b: Dict)
    ensures Keys(a + b) == Keys(a) + Keys(b)
  {
    if |a| == 0 {
      assert a + b == b;
    } else {
      assert (a + b)[1..] == a[1..] + b;
      KeysConcat(a[1..], b);
      assert Keys(a + b) == [a[0].0] + Keys(a[1..] + b);
    }
  }

  /** The keys of all pairs but the last, then the last key. */
  lemma KeysSnoc(d: Dict)
    requires |d| > 0
    ensures Keys(d) == Keys(d[..|d| - 1]) + [d[|d| - 1].0]
  {
    var init, last := d[..|d| - 1], [d[|d| - 1]];
    assert d == init + last;
    KeysConcat(init, last);
    assert Keys(last) == [last[0].0] + Keys(last[1..]);
  }

  /** `d.get(k)`. */
  function Lookup(d: Dict, k: string): (r: Option<Value>)
    ensures r.Some? <==> k in Keys(d)
  {
    if |d| == 0 then None
    else if d[0].0 == k then Some(d[0].1)
    else Lookup(d[1..], k)
  }

  /** `d[k] = v`: overwrite in place when `k` is present, append otherwise. */
  function Put(d: Dict, k: string, v: Value): (r: Dict)
    ensures Lookup(r, k) == Some(v)
    ensures forall k' :: k' != k ==> Lookup(r, k') == Lookup(d, k')
    ensures k in Keys(d) ==> Keys(r) == Keys(d)
    ensures k !in Keys(d) ==> Keys(r) == Keys(d) + [k]
  {
    if |d| == 0 then [(k, v)]
    else if d[0].0 == k then
      assert ([(k, v)] + d[1..])[1..] == d[1..];
      [(k, v)] + d[1..]
    else
      var rest := Put(d[1..], k, v);
      assert ([d[0]] + rest)[1..] == rest;
      [d[0]] + rest
  }

  /** Assignment keeps a dictionary free of duplicate keys. */
  lemma PutKeepsDict(d: Dict, k: string, v: Value)
    ensures IsDict(d) ==> IsDict(Put(d, k, v))
  {
    if IsDict(d) && k !in Keys(d) {
      var ks := Keys(Put(d, k, v));
      assert ks == Keys(d) + [k];
      forall i, j | 0 <= i < j < |ks| ensures ks[i] != ks[j] {
        assert ks[i] == Keys(d)[i];
        if j < |ks| - 1 {
          assert ks[j] == Keys(d)[j];
        }
      }
    }
  }

  /** The value the last pair for `k` carries: what a dictionary built from `pairs` holds. */
  function LastValue(pairs: Dict, k: string): (r: Option<Value>)
    ensures r.Some? <==> k in Keys(pairs)
  {
    if |pairs| == 0 then None
    else
      KeysSnoc(pairs);
      if pairs[|pairs| - 1].0 == k then Some(pairs[|pairs| - 1].1)
      else LastValue(pairs[..|pairs| - 1], k)
  }

  /** When every pair with key `k` carries `v`, the last of them does too. */
  lemma {:induction false} LastValueOnly(pairs: Dict, k: string, v: Value)
    requires k in Keys(pairs)
    requires forall i :: 0 <= i < |pairs| && pairs[i].0 == k ==> pairs[i].1 == v
    ensures LastValue(pairs, k) == Some(v)
    decreases |pairs|
  {
    var n := |pairs| - 1;
    KeysSnoc(pairs);
    if pairs[n].0 != k {
      LastValueOnly(pairs[..n], k, v);
    }
  }

  /** `d.update(pairs)`: assigns the pairs in turn, so the last pair for a key wins. */
  function Update(d: Dict, pairs: Dict): (r: Dict)
    ensures forall k :: Lookup(r, k) == if k in Keys(pairs) then LastValue(pairs, k) else Lookup(d, k)
    ensures Keys(d) <= Keys(r)
    ensures forall k :: k in Keys(r) <==> k in Keys(d) || k in Keys(pairs)
    ensures IsDict(d) ==> IsDict(r)
    decreases |pairs|
  {
    if |pairs| == 0 then d
    else
      var n := |pairs| - 1;
      KeysSnoc(pairs);
      var u := Update(d, pairs[..n]);
      PutKeepsDict(u, pairs[n].0, pairs[n].1);
      Put(u, pairs[n].0, pairs[n].1)
  }

  /** `dict(pairs)`. */
  function FromPairs(pairs: Dict): (r: Dict)
    ensures IsDict(r)
    ensures forall k :: Lookup(r, k) == LastValue(pairs, k)
  {
    Update([], pairs)
  }

  /** Assigning a new key appends it. */
  lemma {:induction false} PutAbsent(d: Dict, k: string, v: Value)
    requires k !in Keys(d)
    ensures Put(d, k, v) == d + [(k, v)]
  {
    if |d| > 0 {
      assert k !in Keys(d[1..]) && d[0].0 != k by { assert Keys(d) == [d[0].0] + Keys(d[1..]); }
      PutAbsent(d[1..], k, v);
      assert d == [d[0]] + d[1..];
    }
  }

  /** Building a dictionary from pairs with distinct keys keeps the pairs as they are. */
  lemma {:induction false} FromPairsDistinct(pairs: Dict)
    requires Distinct(Keys(pairs))
    ensures FromPairs(pairs) == pairs
    decreases |pairs|
  {
    if |pairs| > 0 {
      var n := |pairs| - 1;
      DistinctInit(pairs);
      FromPairsDistinct(pairs[..n]);
      assert FromPairs(pairs) == Put(FromPairs(pairs[..n]), pairs[n].0, pairs[n].1);
      PutAbsent(pairs[..n], pairs[n].0, pairs[n].1);
      assert pairs == pairs[..n] + [pairs[n]];
    }
  }

  /** Without its last pair, a dictionary with distinct keys still has distinct keys, none
      of them the last pair's. */
  lemma {:induction false} DistinctInit(pairs: Dict)
    requires |pairs| > 0 && Distinct(Keys(pairs))
    ensures Distinct(Keys(pairs[..|pairs| - 1]))
    ensures pairs[|pairs| - 1].0 !in Keys(pairs[..|pairs| - 1])
  {
    var n := |pairs| - 1;
    var all := Keys(pairs);
    var ks := Keys(pairs[..n]);
    assert all == ks + [pairs[n].0] by { KeysSnoc(pairs); }
    assert Distinct(ks) by {
      forall i, j | 0 <= i < j < |ks| ensures ks[i] != ks[j] {
        assert ks[i] == all[i] && ks[j] == all[j];
      }
    }
    assert pairs[n].0 !in ks by {
      forall i | 0 <= i < |ks| ensures ks[i] != pairs[n].0 {
        assert ks[i] == all[i] && pairs[n].0 == all[n];
      }
    }
  }

  /** `zip(xs, ys)`: pairs up to the shorter length. */
  function Zip(xs: seq<string>, ys: seq<Value>): (r: Dict)
    ensures |r| == if |xs| <= |ys| then |xs| else |ys|
    ensures forall i :: 0 <= i < |r| ==> r[i] == (xs[i], ys[i])
  {
    var n := if |xs| <= |ys| then |xs| else |ys|;
    seq(n, i requires 0 <= i < n => (xs[i], ys[i]))
  }

  /** In a dictionary the entry found by `Lookup` is the only one with its key. */
  lemma {:induction false} LookupUnique(d: Dict, i: nat)
    requires IsDict(d) && i < |d|
    ensures Lookup(d, d[i].0) == Some(d[i].1)
    decreases i
  {
    KeysAt(d, i);
    if i > 0 {
      KeysAt(d, 0);
      assert Keys(d) == [d[0].0] + Keys(d[1..]);
      assert Distinct(Keys(d[1..])) by {
        forall a, b | 0 <= a < b < |d| - 1 ensures Keys(d[1..])[a] != Keys(d[1..])[b] {
          assert Keys(d[1..])[a] == Keys(d)[a + 1] && Keys(d[1..])[b] == Keys(d)[b + 1];
        }
      }
      LookupUnique(d[1..], i - 1);
    }
  }
}
