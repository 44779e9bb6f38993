/** `IdGenerator` (xtuml/model.py:233-251) over an injected source. The source's
    `readfunc` (by default `uuid.uuid4`) becomes an infinite sequence `source`;
    the generator has read `source(0)` at construction and `taken` values since. */
module Ids {
  import opened Values

  datatype IdGen = IdGen(source: nat -> Id, taken: nat)

  /** A fresh generator, which reads its first value at construction. */
  function NewIdGen(source: nat -> Id): IdGen {
    IdGen(source, 0)
  }

  /** `peek()`: the value `next()` will return. */
  function Peek(g: IdGen): (r: Id)
    ensures Unrepeating(g.source) ==> r !in Issued(g)
  {
    PeekNotIssued(g);
    g.source(g.taken)
  }

  lemma PeekNotIssued(g: IdGen)
    ensures Unrepeating(g.source) ==> g.source(g.taken) !in Issued(g)
  {
    if Unrepeating(g.source) {
      forall i | 0 <= i < g.taken ensures g.source(i) != g.source(g.taken) {}
    }
  }

  /** `next()`: returns the value `peek()` showed and reads the following one. */
  function Next(g: IdGen): (r: (Id, IdGen))
    ensures r.0 == Peek(g)
    ensures r.1.source == g.source && r.1.taken == g.taken + 1
  {
    (g.source(g.taken), IdGen(g.source, g.taken + 1))
  }

  /** The generator after `n` calls of `next()`. */
  function Advance(g: IdGen, n: nat): (r: IdGen)
    ensures r.source == g.source && r.taken == g.taken + n
  {
    IdGen(g.source, g.taken + n)
  }

  /** The values `next()` has returned so far. */
  ghost function Issued(g: IdGen): set<Id> {
    set i | 0 <= i < g.taken :: g.source(i)
  }

  /** A source that never repeats itself, as a 128-bit random source practically is. */
  ghost predicate Unrepeating(source: nat -> Id) {
    forall i, j :: 0 <= i < j ==> source(i) != source(j)
  }

  /** `next()` never returns a value it returned before, and the value it returns is
      no longer what `peek()` shows afterwards. */
  lemma NextIsFresh(g: IdGen)
    requires Unrepeating(g.source)
    ensures Next(g).0 !in Issued(g)
    ensures Issued(Next(g).1) == Issued(g) + {Next(g).0}
    ensures Peek(Next(g).1) != Next(g).0
  {
    var g' := Next(g).1;
    assert Issued(g') == Issued(g) + {g.source(g.taken)} by {
      forall x ensures x in Issued(g') <==> x in Issued(g) + {g.source(g.taken)} {
        if x in Issued(g') {
          var i :| 0 <= i < g'.taken && g.source(i) == x;
        }
      }
    }
  }
}
