/** `AssociationLink` and its two specialisations (xtuml/model.py:85-115), and the keys
    under which `define_association` files the navigation functions. */
module Associations {
  import opened Errors
  import opened Text

  /** One end of an association: the class at that end, its cardinality text, the
      attributes that take part in the join and the end's phrase. */
  datatype Link = Link(kind: string, cardinality: string, ids: seq<string>, phrase: string)

  /** `is_many`: the upper-cased cardinality is `M` or `MC`. */
  predicate IsMany(l: Link)
    ensures IsMany(l) <==> l.cardinality in ["M", "m", "MC", "Mc", "mC", "mc"]
  {
    UpperIsMany(l.cardinality);
    Upper(l.cardinality) in ["M", "MC"]
  }

  /** `is_conditional`: the upper-cased cardinality contains `C`. */
  predicate IsConditional(l: Link)
    ensures IsConditional(l) <==> 'C' in l.cardinality || 'c' in l.cardinality
  {
    UpperHasC(l.cardinality);
    'C' in Upper(l.cardinality)
  }

  lemma UpperIsMany(c: string)
    ensures Upper(c) in ["M", "MC"] <==> c in ["M", "m", "MC", "Mc", "mC", "mc"]
  {
    if |c| == 1 {
      assert Upper(c) == [UpperChar(c[0])] && c == [c[0]];
    } else if |c| == 2 {
      assert Upper(c) == [UpperChar(c[0]), UpperChar(c[1])] && c == [c[0], c[1]];
    }
  }

  lemma UpperHasC(c: string)
    ensures 'C' in Upper(c) <==> 'C' in c || 'c' in c
  {
    if 'C' in Upper(c) {
      var i :| 0 <= i < |c| && Upper(c)[i] == 'C';
      assert c[i] == 'C' || c[i] == 'c';
    }
    if 'C' in c {
      var i :| 0 <= i < |c| && c[i] == 'C';
      assert Upper(c)[i] == 'C';
    } else if 'c' in c {
      var i :| 0 <= i < |c| && c[i] == 'c';
      assert Upper(c)[i] == 'C';
    }
  }

  /** `SingleAssociationLink`: cardinality `1`, or `1C` when conditional. */
  function SingleLink(kind: string, conditional: bool, ids: seq<string>, phrase: string): (r: Link)
    ensures !IsMany(r) && IsConditional(r) == conditional
    ensures r.kind == kind && r.ids == ids && r.phrase == phrase
  {
    var r := Link(kind, if conditional then "1C" else "1", ids, phrase);
    assert conditional ==> Upper(r.cardinality) == "1C";
    assert !conditional ==> Upper(r.cardinality) == "1";
    assert Upper(r.cardinality) != "M" && Upper(r.cardinality) != "MC";
    r
  }

  /** `ManyAssociationLink`: cardinality `M`, or `MC` when conditional. */
  function ManyLink(kind: string, conditional: bool, ids: seq<string>, phrase: string): (r: Link)
    ensures IsMany(r) && IsConditional(r) == conditional
    ensures r.kind == kind && r.ids == ids && r.phrase == phrase
  {
    var r := Link(kind, if conditional then "MC" else "M", ids, phrase);
    assert conditional ==> Upper(r.cardinality) == "MC";
    assert !conditional ==> Upper(r.cardinality) == "M";
    r
  }

  /** Cardinality text is read case-insensitively. */
  lemma CardinalityIgnoresCase(l: Link)
    ensures IsMany(l) <==> IsMany(l.(cardinality := Lower(l.cardinality)))
    ensures IsConditional(l) <==> IsConditional(l.(cardinality := Lower(l.cardinality)))
  {
    var c := l.cardinality;
    assert Upper(Lower(c)) == Upper(c) by {
      forall i | 0 <= i < |c| ensures Upper(Lower(c))[i] == Upper(c)[i] {}
    }
  }

  /** A relationship id as given: an integer or a name such as `'R12'`. */
  datatype RelId = RelNum(n: int) | RelName(name: string)

  /** The relationship id a navigation hop looks up: an integer `n` becomes `'R' + str(n)`. */
  function HopRelId(relid: RelId): (r: RelId)
    ensures r.RelName?
    ensures relid.RelName? ==> r == relid
  {
    match relid
    case RelNum(n) => RelName("R" + IntToDecimal(n))
    case RelName(_) => relid
  }

  /** The `'R'` prefix of an integer hop is the only text added: the number reads back. */
  lemma HopRelIdRoundTrip(n: int)
    ensures |HopRelId(RelNum(n)).name| > 1 && HopRelId(RelNum(n)).name[0] == 'R'
    ensures ParseInt(HopRelId(RelNum(n)).name[1..]) == Some(n)
  {
    var s := "R" + IntToDecimal(n);
    assert s[1..] == IntToDecimal(n);
    IntToDecimalRoundTrip(n);
  }

  /** The key of a navigation function in a class's association table: `__q__[kind][rel_id][phrase]`. */
  datatype AssocKey = AssocKey(peer: string, relid: RelId, phrase: string)

  /** A navigation function: from an instance at the `source` end to the `target` end. */
  datatype Endpoints = Endpoints(source: Link, target: Link)
}
