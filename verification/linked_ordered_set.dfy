/** The doubly linked list inside `OrderedSet` (xtuml/model.py:118-171), seen through
    the three things a caller can observe: the key dictionary (`len`, `in`), the keys
    met walking the forward links (`iter`) and the keys met walking the backward
    links (`reversed`, `last`, `pop()`).

    `discard` in the source ends with `next[1] = prev`, which indexes the builtin
    function `next` instead of the local `next_`. Python raises `TypeError` there,
    after the key has left the dictionary and the forward link of its predecessor
    has been redirected, but before the backward link of its successor is. This
    module models that code as written and the evidently intended version. */
module LinkedOrderedSet {
  import opened Errors
  import opened OrderedSets

  datatype Links<T> = Links(keys: set<T>, forward: seq<T>, backward: seq<T>)

  /** A well-formed list: each key linked once, and the backward walk mirrors the forward one. */
  ghost predicate Coherent<T>(l: Links<T>) {
    && Distinct(l.forward)
    && l.keys == (set x | x in l.forward)
    && l.backward == Reverse(l.forward)
  }

  /** The list behind an ordered set. */
  ghost function View<T>(s: OrderedSet<T>): Links<T> {
    Links(s.Elements(), s.items, Reverse(s.items))
  }

  /** `discard` as written: `map.pop(key)` and `prev[2] = next_` take effect, then
      `next[1] = prev` raises, leaving the successor's backward link on the removed node. */
  ghost function DiscardAsWritten<T>(l: Links<T>, key: T): (Result<()>, Links<T>) {
    if key in l.keys then
      (Err(BuiltinNotSubscriptable), Links(l.keys - {key}, Erase(l.forward, key), l.backward))
    else
      (Ok(()), l)
  }

  /** `pop` as written: picks the end key as the source does, then calls the broken `discard`. */
  ghost function PopAsWritten<T>(l: Links<T>, last: bool): (Result<T>, Links<T>) {
    if |l.keys| == 0 then (Err(EmptySet), l)
    else if last && |l.backward| > 0 then
      var (outcome, l') := DiscardAsWritten(l, l.backward[0]);
      (if outcome.Ok? then Ok(l.backward[0]) else Err(outcome.error), l')
    else if !last && |l.forward| > 0 then
      var (outcome, l') := DiscardAsWritten(l, l.forward[0]);
      (if outcome.Ok? then Ok(l.forward[0]) else Err(outcome.error), l')
    else (Err(MissingKey), l)
  }

  /** `discard` as intended: the key leaves the dictionary and both walks. */
  ghost function DiscardIntended<T>(l: Links<T>, key: T): Links<T> {
    if key in l.keys then Links(l.keys - {key}, Erase(l.forward, key), Erase(l.backward, key)) else l
  }

  /** Counterexample: discarding any present key raises, and afterwards the reversed
      iteration still yields the key that `len` and `in` no longer count. */
  lemma DiscardAsWrittenCorrupts<T>(s: OrderedSet<T>, key: T)
    requires s.Valid() && key in s.items
    ensures DiscardAsWritten(View(s), key).0 == Err(BuiltinNotSubscriptable)
    ensures key !in DiscardAsWritten(View(s), key).1.keys
    ensures key in DiscardAsWritten(View(s), key).1.backward
    ensures !Coherent(DiscardAsWritten(View(s), key).1)
  {
    var l' := DiscardAsWritten(View(s), key).1;
    var i := IndexOf(s.items, key);
    assert Reverse(s.items)[|s.items| - 1 - i] == key;
    EraseSubset(s.items, key, key);
  }

  /** Counterexample: on a non-empty set `pop` never returns a key. */
  lemma PopAsWrittenAlwaysRaises<T>(s: OrderedSet<T>, last: bool)
    requires s.Valid() && s.Len() > 0
    ensures PopAsWritten(View(s), last).0 == Err(BuiltinNotSubscriptable)
  {
    assert s.items[0] in s.Elements();
    assert Reverse(s.items)[0] in s.Elements();
  }

  /** The intended `discard` keeps the list well formed, and is exactly the linked view of
      `OrderedSets.Discard`, which the rest of the model uses. */
  lemma DiscardIntendedCoherent<T>(s: OrderedSet<T>, key: T)
    requires s.Valid()
    ensures DiscardIntended(View(s), key) == View(Discard(s, key))
    ensures Coherent(View(Discard(s, key)))
  {
    EraseReverse(s.items, key);
    var r := Discard(s, key);
    assert View(r).keys == r.Elements();
  }

  lemma {:induction false} ReverseAppend<T>(xs: seq<T>, ys: seq<T>)
    ensures Reverse(xs + ys) == Reverse(ys) + Reverse(xs)
  {
    if |xs| > 0 {
      assert (xs + ys)[1..] == xs[1..] + ys;
      ReverseAppend(xs[1..], ys);
    } else {
      assert xs + ys == ys;
    }
  }

  /** Filtering a key out commutes with reversal. */
  lemma {:induction false} EraseReverse<T>(xs: seq<T>, x: T)
    ensures Reverse(Erase(xs, x)) == Erase(Reverse(xs), x)
  {
    if |xs| > 0 {
      var head := if xs[0] == x then [] else [xs[0]];
      EraseReverse(xs[1..], x);
      ReverseAppend(head, Erase(xs[1..], x));
      EraseAppend(Reverse(xs[1..]), [xs[0]], x);
      assert Erase([xs[0]], x) == head;
      assert Reverse(head) == head;
    }
  }
}
