/** The insertion-ordered set behind every query result (`OrderedSet` and its
    subclass `QuerySet` in xtuml/model.py).

    The source keeps a dictionary from key to a node of a doubly linked list;
    this model keeps only what the list means: the keys in link order, with no
    key twice. */
module OrderedSets {
  import opened Errors

  /** No element occurs twice. */
  ghost predicate Distinct<T>(xs: seq<T>) {
    forall i, j | 0 <= i < j < |xs| :: xs[i] != xs[j]
  }

  datatype OrderedSet<T(==)> = OrderedSet(items: seq<T>) {
    /** The representation invariant: the linked list holds each key once. */
    ghost predicate Valid() { Distinct(items) }

    /** `len(s)`: the size of the key dictionary. */
    function Len(): nat { |items| }

    /** `x in s`. */
    predicate Contains(x: T) { x in items }

    function Elements(): set<T> { set x | x in items }
  }

  function Empty<T(==)>(): (r: OrderedSet<T>)
    ensures r.Valid() && r.Elements() == {}
  {
    OrderedSet([])
  }

  /** Position of `x` in a sequence that holds it. */
  function IndexOf<T(==)>(xs: seq<T>, x: T): (i: nat)
    requires x in xs
    ensures i < |xs| && xs[i] == x
    ensures forall j :: 0 <= j < i ==> xs[j] != x
  {
    if xs[0] == x then 0 else 1 + IndexOf(xs[1..], x)
  }

  /** Every element of `ys` occurs in `xs`, and `ys` lists them in the order of their first
      occurrence in `xs`. */
  ghost predicate InFirstOccurrenceOrder<T>(ys: seq<T>, xs: seq<T>) {
    && (forall i | 0 <= i < |ys| :: ys[i] in xs)
    && (forall i, j | 0 <= i < j < |ys| :: ys[i] in xs && ys[j] in xs && IndexOf(xs, ys[i]) < IndexOf(xs, ys[j]))
  }

  /** Reference definition of removal: `xs` with every occurrence of `x` filtered out. */
  ghost function Erase<T>(xs: seq<T>, x: T): seq<T> {
    if |xs| == 0 then [] else (if xs[0] == x then [] else [xs[0]]) + Erase(xs[1..], x)
  }

  /** Reference definition of reversed iteration. */
  function Reverse<T>(xs: seq<T>): (r: seq<T>)
    ensures |r| == |xs|
    ensures forall i :: 0 <= i < |xs| ==> r[i] == xs[|xs| - 1 - i]
  {
    if |xs| == 0 then [] else Reverse(xs[1..]) + [xs[0]]
  }

  /** `add`: a key already present is left where it is; a new key goes to the tail. */
  function Add<T(==)>(s: OrderedSet<T>, x: T): (r: OrderedSet<T>)
    requires s.Valid()
    ensures r.Valid()
    ensures r.Elements() == s.Elements() + {x}
    ensures s.items <= r.items
    ensures r.Len() == if s.Contains(x) then s.Len() else s.Len() + 1
  {
    if x in s.items then s else OrderedSet(s.items + [x])
  }

  /** `discard` as evidently intended: removes `x` if present, keeping the order of the
      rest. The source's line 145 unlinks only forwards and then raises; that behaviour
      is `LinkedOrderedSet.DiscardAsWritten`, and `LinkedOrderedSet.DiscardIntendedCoherent`
      ties the corrected two-way unlink to this function. */
  function Discard<T(==)>(s: OrderedSet<T>, x: T): (r: OrderedSet<T>)
    requires s.Valid()
    ensures r.Valid()
    ensures r.items == Erase(s.items, x)
    ensures r.Elements() == s.Elements() - {x}
    ensures !s.Contains(x) ==> r == s
  {
    if x in s.items then
      var i := IndexOf(s.items, x);
      EraseSplice(s.items, i);
      OrderedSet(s.items[..i] + s.items[i + 1..])
    else
      EraseAbsent(s.items, x);
      s
  }

  /** `pop(last)` over the corrected `discard`: removes and returns the last (or first)
      key; `KeyError` when empty. As written, `pop` on a non-empty set reaches the broken
      `discard` and raises (`LinkedOrderedSet.PopAsWrittenAlwaysRaises`). */
  function Pop<T(==)>(s: OrderedSet<T>, last: bool): (r: Result<(T, OrderedSet<T>)>)
    requires s.Valid()
    ensures r.Ok? <==> s.Len() > 0
    ensures r.Err? ==> r.error == EmptySet
    ensures r.Ok? && last ==> r.value.0 == s.items[|s.items| - 1] && r.value.1.items == s.items[..|s.items| - 1]
    ensures r.Ok? && !last ==> r.value.0 == s.items[0] && r.value.1.items == s.items[1..]
    ensures r.Ok? ==> r.value.1.Valid()
  {
    if |s.items| == 0 then Err(EmptySet)
    else
      var key := if last then s.items[|s.items| - 1] else s.items[0];
      assert s.items == s.items[..IndexOf(s.items, key)] + [key] + s.items[IndexOf(s.items, key) + 1..];
      Ok((key, Discard(s, key)))
  }

  /** `QuerySet.first`: the first key, or nothing for an empty set. */
  function First<T(==)>(s: OrderedSet<T>): Option<T> {
    if |s.items| > 0 then Some(s.items[0]) else None
  }

  /** `QuerySet.last`: taken, as in the source, from reversed iteration. */
  function Last<T(==)>(s: OrderedSet<T>): Option<T> {
    var rev := Reverse(s.items);
    if |rev| > 0 then Some(rev[0]) else None
  }

  /** `s |= xs` (and `OrderedSet(xs)` when `s` is empty): adds the keys of `xs` in turn. */
  function AddAll<T(==)>(s: OrderedSet<T>, xs: seq<T>): (r: OrderedSet<T>)
    requires s.Valid()
    ensures r.Valid()
    ensures r.Elements() == s.Elements() + (set x | x in xs)
    ensures s.items <= r.items
    ensures InFirstOccurrenceOrder(r.items[|s.items|..], xs)
    decreases |xs|
  {
    if |xs| == 0 then s
    else
      var s' := Add(s, xs[0]);
      var r := AddAll(s', xs[1..]);
      AddAllOrder(s, xs, s', r);
      r
  }

  /** `OrderedSet(xs)`: the keys of `xs`, each once, in order of first occurrence. */
  function FromSeq<T(==)>(xs: seq<T>): (r: OrderedSet<T>)
    ensures r.Valid()
    ensures r.Elements() == set x | x in xs
    ensures InFirstOccurrenceOrder(r.items, xs)
  {
    var r := AddAll(Empty(), xs);
    assert r.items[0..] == r.items;
    r
  }

  /** `s | t`: the keys of `s` in their order, then the keys of `t` not in `s`, in `t`'s order. */
  function Union<T(==)>(s: OrderedSet<T>, t: OrderedSet<T>): (r: OrderedSet<T>)
    requires s.Valid() && t.Valid()
    ensures r.Valid()
    ensures r.Elements() == s.Elements() + t.Elements()
    ensures s.items <= r.items
    ensures InFirstOccurrenceOrder(r.items[|s.items|..], t.items)
  {
    AddAll(s, t.items)
  }

  /** `__eq__` against another OrderedSet: equal lengths and equal iteration order. */
  predicate EqualOrdered<T(==)>(s: OrderedSet<T>, t: OrderedSet<T>) {
    s.Len() == t.Len() && s.items == t.items
  }

  /** `__eq__` against any other iterable: plain set equality. */
  ghost predicate EqualUnordered<T>(s: OrderedSet<T>, other: set<T>) {
    s.Elements() == other
  }

  // ---------------------------------------------------------------------------
  // Lemmas about sequences used by the operations above

  lemma {:induction false} EraseAbsent<T>(xs: seq<T>, x: T)
    requires x !in xs
    ensures Erase(xs, x) == xs
  {
    if |xs| > 0 {
      EraseAbsent(xs[1..], x);
    }
  }

  lemma {:induction false} EraseAppend<T>(xs: seq<T>, ys: seq<T>, x: T)
    ensures Erase(xs + ys, x) == Erase(xs, x) + Erase(ys, x)
  {
    if |xs| > 0 {
      assert (xs + ys)[1..] == xs[1..] + ys;
      EraseAppend(xs[1..], ys, x);
    } else {
      assert xs + ys == ys;
    }
  }

  lemma EraseSplice<T>(xs: seq<T>, i: nat)
    requires i < |xs| && Distinct(xs)
    ensures Erase(xs, xs[i]) == xs[..i] + xs[i + 1..]
  {
    var x := xs[i];
    var before, after := xs[..i], xs[i + 1..];
    assert x !in before by {
      forall k | 0 <= k < i ensures before[k] != x { assert before[k] == xs[k]; }
    }
    assert x !in after by {
      forall k | 0 <= k < |after| ensures after[k] != x { assert after[k] == xs[i + 1 + k]; }
    }
    assert xs == before + [x] + after;
    EraseOnly(before, x, after);
  }

  lemma EraseOnly<T>(before: seq<T>, x: T, after: seq<T>)
    requires x !in before && x !in after
    ensures Erase(before + [x] + after, x) == before + after
  {
    var t := [x] + after;
    assert before + [x] + after == before + t;
    assert t[0] == x && t[1..] == after;
    assert Erase(t, x) == Erase(after, x);
    EraseAppend(before, t, x);
    EraseAbsent(before, x);
    EraseAbsent(after, x);
  }

  lemma {:induction false} EraseSubset<T>(xs: seq<T>, x: T, y: T)
    ensures y in Erase(xs, x) <==> y in xs && y != x
  {
    if |xs| > 0 {
      EraseSubset(xs[1..], x, y);
      assert xs == [xs[0]] + xs[1..];
    }
  }

  /** The ordering step of `AddAll`: one `Add` followed by the rest. */
  lemma {:induction false} AddAllOrder<T>(s: OrderedSet<T>, xs: seq<T>, s': OrderedSet<T>, r: OrderedSet<T>)
    requires s.Valid() && |xs| > 0 && s' == Add(s, xs[0])
    requires r.Valid() && s'.items <= r.items
    requires InFirstOccurrenceOrder(r.items[|s'.items|..], xs[1..])
    ensures InFirstOccurrenceOrder(r.items[|s.items|..], xs)
  {
    var tail := r.items[|s.items|..];
    var tail' := r.items[|s'.items|..];
    var k := |s'.items| - |s.items|;
    AddAllOrderShape(s, xs[0], s', r);
    assert k <= 1 && |tail| == |tail'| + k;
    assert forall m :: k <= m < |tail| ==> tail[m] == tail'[m - k] && tail[m] != xs[0];
    assert k == 1 ==> tail[0] == xs[0];
    assert InFirstOccurrenceOrder(tail', xs[1..]);
    AddAllOrderTail(xs, tail, tail', k);
  }

  /** The ordering step on the tails alone: `tail` is `tail'` with `xs[0]` in front when
      `k` is 1, and `tail'` follows the first-occurrence order of `xs[1..]`. */
  lemma {:induction false} AddAllOrderTail<T>(xs: seq<T>, tail: seq<T>, tail': seq<T>, k: nat)
    requires |xs| > 0 && k <= 1 && |tail| == |tail'| + k
    requires forall m :: k <= m < |tail| ==> tail[m] == tail'[m - k] && tail[m] != xs[0]
    requires k == 1 ==> tail[0] == xs[0]
    requires InFirstOccurrenceOrder(tail', xs[1..])
    ensures InFirstOccurrenceOrder(tail, xs)
  {
    forall i | 0 <= i < |tail| ensures tail[i] in xs {
      if i >= k {
        assert tail[i] == tail'[i - k] && tail[i] in xs[1..];
      }
    }
    forall i, j | 0 <= i < j < |tail|
      ensures tail[i] in xs && tail[j] in xs && IndexOf(xs, tail[i]) < IndexOf(xs, tail[j])
    {
      AddAllOrderPair(xs, tail, tail', k, i, j);
    }
  }

  /** How the tail of `AddAll` after `s` relates to the tail after `Add(s, x)`: the same
      keys, with `x` in front when `Add` appended it, and `x` nowhere else. */
  lemma AddAllOrderShape<T>(s: OrderedSet<T>, x: T, s': OrderedSet<T>, r: OrderedSet<T>)
    requires s.Valid() && s' == Add(s, x)
    requires r.Valid() && s'.items <= r.items
    ensures var k := |s'.items| - |s.items|;
      && k <= 1 && |r.items[|s.items|..]| == |r.items[|s'.items|..]| + k
      && (forall m :: k <= m < |r.items[|s.items|..]| ==>
            r.items[|s.items|..][m] == r.items[|s'.items|..][m - k] && r.items[|s.items|..][m] != x)
      && (k == 1 ==> r.items[|s.items|..][0] == x)
  {
    var tail := r.items[|s.items|..];
    var tail' := r.items[|s'.items|..];
    var k := |s'.items| - |s.items|;
    assert forall m :: k <= m < |tail| ==> tail[m] == tail'[m - k];
    forall m | k <= m < |tail| ensures tail[m] != x {
      if k == 0 {
        assert x in s.items;
        var n := IndexOf(s.items, x);
        assert r.items[n] == x && tail[m] == r.items[|s.items| + m];
      } else {
        assert tail[0] == r.items[|s.items|] && tail[m] == r.items[|s.items| + m];
      }
    }
  }

  /** One pair of positions in the tail of `AddAll`: the tail is `tail'` with `xs[0]`
      in front when `k` is 1. */
  lemma AddAllOrderPair<T>(xs: seq<T>, tail: seq<T>, tail': seq<T>, k: nat, i: nat, j: nat)
    requires |xs| > 0 && k <= 1 && |tail| == |tail'| + k && i < j < |tail|
    requires forall m :: k <= m < |tail| ==> tail[m] == tail'[m - k] && tail[m] != xs[0]
    requires k == 1 ==> tail[0] == xs[0]
    requires InFirstOccurrenceOrder(tail', xs[1..])
    ensures tail[i] in xs && tail[j] in xs && IndexOf(xs, tail[i]) < IndexOf(xs, tail[j])
  {
    assert tail[j] == tail'[j - k] && tail[j] != xs[0];
    assert tail[j] in xs[1..];
    IndexOfTail(xs, tail[j]);
    if i >= k {
      assert tail[i] == tail'[i - k] && tail[i] != xs[0];
      assert tail[i] in xs[1..];
      IndexOfTail(xs, tail[i]);
    }
  }

  lemma IndexOfTail<T>(xs: seq<T>, y: T)
    requires |xs| > 0 && y in xs[1..] && y != xs[0]
    ensures y in xs && IndexOf(xs, y) == 1 + IndexOf(xs[1..], y)
  {
  }

  // ---------------------------------------------------------------------------
  // Properties of the container

  /** Adding a key twice is the same as adding it once. */
  lemma AddIdempotent<T>(s: OrderedSet<T>, x: T)
    requires s.Valid()
    ensures Add(Add(s, x), x) == Add(s, x)
  {
  }

  /** Adding keys that are all new, and distinct, appends them in order. */
  lemma {:induction false} AddAllFresh<T>(s: OrderedSet<T>, xs: seq<T>)
    requires s.Valid() && Distinct(s.items + xs)
    ensures AddAll(s, xs).items == s.items + xs
    decreases |xs|
  {
    if |xs| > 0 {
      var all := s.items + xs;
      assert xs[0] !in s.items by {
        forall m | 0 <= m < |s.items| ensures s.items[m] != xs[0] {
          assert s.items[m] == all[m] && xs[0] == all[|s.items|];
        }
      }
      var s' := Add(s, xs[0]);
      assert s'.items + xs[1..] == all;
      AddAllFresh(s', xs[1..]);
    } else {
      assert s.items + xs == s.items;
    }
  }

  /** Adding one sequence of keys and then another is adding their concatenation. */
  lemma {:induction false} AddAllConcat<T>(s: OrderedSet<T>, xs: seq<T>, ys: seq<T>)
    requires s.Valid()
    ensures AddAll(AddAll(s, xs), ys) == AddAll(s, xs + ys)
    decreases |xs|
  {
    if |xs| == 0 {
      assert xs + ys == ys;
    } else {
      assert (xs + ys)[0] == xs[0] && (xs + ys)[1..] == xs[1..] + ys;
      AddAllConcat(Add(s, xs[0]), xs[1..], ys);
    }
  }

  /** `OrderedSet(xs)` of a sequence without repeats keeps it as it is. */
  lemma FromSeqDistinct<T>(xs: seq<T>)
    ensures Distinct(xs) ==> FromSeq(xs).items == xs
  {
    if Distinct(xs) {
      assert Empty<T>().items + xs == xs;
      AddAllFresh(Empty(), xs);
    }
  }

  /** `OrderedSet(xs)` starts with the first element of `xs`. */
  lemma FromSeqFirst<T>(xs: seq<T>)
    requires |xs| > 0
    ensures First(FromSeq(xs)) == Some(xs[0])
  {
    var s' := Add(Empty(), xs[0]);
    assert s'.items == [xs[0]];
    assert AddAll(Empty(), xs) == AddAll(s', xs[1..]);
  }

  /** `len` counts distinct elements. */
  lemma {:induction false} LenCountsElements<T>(s: OrderedSet<T>)
    requires s.Valid()
    ensures s.Len() == |s.Elements()|
    decreases |s.items|
  {
    if |s.items| > 0 {
      var t := OrderedSet(s.items[..|s.items| - 1]);
      var x := s.items[|s.items| - 1];
      LenCountsElements(t);
      assert s.items == t.items + [x];
      assert s.Elements() == t.Elements() + {x};
      assert x !in t.Elements();
    }
  }

  /** Reversed iteration is iteration backwards, and reversing twice restores the order. */
  lemma ReverseInvolution<T>(xs: seq<T>)
    ensures Reverse(Reverse(xs)) == xs
  {
  }

  /** `first` and `last` are the keys `pop(False)` and `pop(True)` would remove; both are
      absent exactly when `pop` raises. */
  lemma FirstLastArePopped<T>(s: OrderedSet<T>)
    requires s.Valid()
    ensures First(s).None? <==> Pop(s, false).Err?
    ensures Last(s).None? <==> Pop(s, true).Err?
    ensures First(s).Some? ==> First(s).value == Pop(s, false).value.0
    ensures Last(s).Some? ==> Last(s).value == Pop(s, true).value.0
  {
  }

  /** On a two-element set, `pop(True)` then `pop(False)` returns both keys and empties it. */
  lemma PopBothEnds<T>(s: OrderedSet<T>)
    requires s.Valid() && s.Len() == 2
    ensures Pop(s, true).Ok?
    ensures Pop(Pop(s, true).value.1, false).Ok?
    ensures Pop(Pop(s, true).value.1, false).value.1.Len() == 0
    ensures {Pop(s, true).value.0, Pop(Pop(s, true).value.1, false).value.0} == s.Elements()
  {
    assert s.items == [s.items[0], s.items[1]];
  }

  /** Order-sensitive equality implies set equality; the converse fails: [a, b] and [b, a]
      hold the same keys but are unequal as ordered sets. */
  lemma OrderedEqualityIsStronger<T>(s: OrderedSet<T>, t: OrderedSet<T>, a: T, b: T)
    requires a != b
    ensures EqualOrdered(s, t) ==> EqualUnordered(s, t.Elements())
    ensures EqualUnordered(OrderedSet([a, b]), OrderedSet([b, a]).Elements())
    ensures !EqualOrdered(OrderedSet([a, b]), OrderedSet([b, a]))
  {
    assert OrderedSet([a, b]).Elements() == {a, b};
    assert OrderedSet([b, a]).Elements() == {a, b};
    assert [a, b][0] != [b, a][0];
  }

  // ---------------------------------------------------------------------------
  // Iteration order after any interleaving of adds and discards

  /** One mutating call on a set. */
  datatype Op<T> = AddOp(key: T) | DiscardOp(key: T)

  function Apply<T(==)>(s: OrderedSet<T>, op: Op<T>): (r: OrderedSet<T>)
    requires s.Valid()
    ensures r.Valid()
  {
    match op
    case AddOp(x) => Add(s, x)
    case DiscardOp(x) => Discard(s, x)
  }

  /** The set obtained by applying `ops` in turn to an empty set. */
  function Replay<T(==)>(ops: seq<Op<T>>): (r: OrderedSet<T>)
    ensures r.Valid()
  {
    if |ops| == 0 then Empty() else Apply(Replay(ops[..|ops| - 1]), ops[|ops| - 1])
  }

  /** Reference: `x` is present when the last operation naming it was an add. */
  ghost predicate Present<T>(ops: seq<Op<T>>, x: T) {
    if |ops| == 0 then false
    else if ops[|ops| - 1].key == x then ops[|ops| - 1].AddOp?
    else Present(ops[..|ops| - 1], x)
  }

  /** Reference: the position of the add that (re-)inserted a present `x`, i.e. the first
      add of `x` after its last discard. */
  ghost function InsertedAt<T>(ops: seq<Op<T>>, x: T): (r: nat)
    requires Present(ops, x)
    ensures r < |ops|
  {
    var prefix := ops[..|ops| - 1];
    if ops[|ops| - 1].key == x && !Present(prefix, x) then |ops| - 1
    else InsertedAt(prefix, x)
  }

  /** `r` holds exactly the keys present after `ops`, ordered by when each was (re-)inserted. */
  ghost predicate ReflectsHistory<T(!new)>(ops: seq<Op<T>>, r: seq<T>) {
    && (forall x :: x in r <==> Present(ops, x))
    && (forall i, j | 0 <= i < j < |r| :: Present(ops, r[i]) && Present(ops, r[j]) && InsertedAt(ops, r[i]) < InsertedAt(ops, r[j]))
  }

  /** Iteration yields exactly the present keys, ordered by when each was (re-)inserted:
      the insertion order of the currently present elements. */
  lemma {:induction false} ReplayOrder<T(!new)>(ops: seq<Op<T>>)
    ensures ReflectsHistory(ops, Replay(ops).items)
  {
    if |ops| > 0 {
      var prefix := ops[..|ops| - 1];
      ReplayOrder(prefix);
      match ops[|ops| - 1]
      case AddOp(y) => ReplayAddStep(ops, Replay(prefix));
      case DiscardOp(y) => ReplayDiscardStep(ops, Replay(prefix));
    }
  }

  lemma HistoryFrame<T>(ops: seq<Op<T>>, x: T)
    requires |ops| > 0 && x != ops[|ops| - 1].key
    ensures Present(ops, x) == Present(ops[..|ops| - 1], x)
    ensures Present(ops, x) ==> InsertedAt(ops, x) == InsertedAt(ops[..|ops| - 1], x)
  {
  }

  lemma ReplayAddStep<T(!new)>(ops: seq<Op<T>>, r0: OrderedSet<T>)
    requires |ops| > 0 && ops[|ops| - 1].AddOp? && r0.Valid()
    requires ReflectsHistory(ops[..|ops| - 1], r0.items)
    ensures ReflectsHistory(ops, Add(r0, ops[|ops| - 1].key).items)
  {
    var prefix := ops[..|ops| - 1];
    var y := ops[|ops| - 1].key;
    var r := Add(r0, y);
    forall x | x != y ensures Present(ops, x) == Present(prefix, x) && (Present(ops, x) ==> InsertedAt(ops, x) == InsertedAt(prefix, x)) {
      HistoryFrame(ops, x);
    }
    assert Present(ops, y);
    if y in r0.items {
      assert InsertedAt(ops, y) == InsertedAt(prefix, y);
    } else {
      assert r.items == r0.items + [y];
      assert InsertedAt(ops, y) == |ops| - 1;
      forall i | 0 <= i < |r0.items| ensures InsertedAt(ops, r.items[i]) < |ops| - 1 {
        assert r.items[i] == r0.items[i] && r0.items[i] != y;
      }
    }
  }

  lemma ReplayDiscardStep<T(!new)>(ops: seq<Op<T>>, r0: OrderedSet<T>)
    requires |ops| > 0 && ops[|ops| - 1].DiscardOp? && r0.Valid()
    requires ReflectsHistory(ops[..|ops| - 1], r0.items)
    ensures ReflectsHistory(ops, Discard(r0, ops[|ops| - 1].key).items)
  {
    var y := ops[|ops| - 1].key;
    var r := Discard(r0, y);
    ReplayDiscardMembers(ops, r0);
    if y in r0.items {
      var k := IndexOf(r0.items, y);
      EraseSplice(r0.items, k);
      forall i, j | 0 <= i < j < |r.items|
        ensures Present(ops, r.items[i]) && Present(ops, r.items[j]) && InsertedAt(ops, r.items[i]) < InsertedAt(ops, r.items[j])
      {
        SpliceIndex(r0.items, k, i, j);
        HistoryFrame(ops, r.items[i]);
        HistoryFrame(ops, r.items[j]);
      }
    }
  }

  /** After a discard, the keys present are the earlier ones but the discarded key. */
  lemma ReplayDiscardMembers<T(!new)>(ops: seq<Op<T>>, r0: OrderedSet<T>)
    requires |ops| > 0 && ops[|ops| - 1].DiscardOp? && r0.Valid()
    requires ReflectsHistory(ops[..|ops| - 1], r0.items)
    ensures forall x :: x in Discard(r0, ops[|ops| - 1].key).items <==> Present(ops, x)
  {
    var y := ops[|ops| - 1].key;
    var r := Discard(r0, y);
    assert !Present(ops, y);
    forall x ensures x in r.items <==> Present(ops, x) {
      assert x in r.Elements() <==> x in r0.Elements() && x != y;
      if x != y {
        HistoryFrame(ops, x);
      }
    }
  }

  /** Positions in `xs` with slot `k` cut out map back to increasing positions in `xs`. */
  lemma SpliceIndex<T>(xs: seq<T>, k: nat, i: nat, j: nat)
    requires k < |xs| && i < j < |xs| - 1
    ensures var ys := xs[..k] + xs[k + 1..];
            var i', j' := (if i < k then i else i + 1), (if j < k then j else j + 1);
            i' < j' < |xs| && ys[i] == xs[i'] && ys[j] == xs[j'] && i' != k && j' != k
  {
  }
}
