/** The RSL template runtime (xtuml/rsl/runtime.py): the output buffer, user-defined
    template functions, the `select ... in` / `select ... from` queries, the string
    builtins `format_string` and `parse_keyword`, and the runtime's view of types, which
    adds `frag_ref` for template fragments. */
module Runtime {
  import opened Errors
  import opened Text
  import opened OrderedSets
  import opened Values
  import opened MetaTypes
  import opened Dicts
  import opened Store
  import opened Queries

  /** A template function as the runtime calls it: from its arguments to the text it
      emits into the buffer and the dictionary it returns. */
  type RslFunction = seq<Value> -> (string, Dict)

  /** The part of a `Runtime` object these operations touch. */
  datatype RuntimeState = RuntimeState(buffer: string, functions: map<string, RslFunction>)

  // ---------------------------------------------------------------------------
  // The output buffer (runtime.py:251-265, 327-330)

  /** How many backslashes `s` ends with, counting up to three. */
  function TrailingBackslashes(s: string): (r: nat)
    ensures r <= 3 && r <= |s|
    ensures r >= 1 ==> s[|s| - 1] == '\\'
    ensures r >= 2 ==> s[|s| - 2] == '\\'
    ensures r >= 3 ==> s[|s| - 3] == '\\'
    ensures forall k :: |s| - r <= k < |s| ==> s[k] == '\\'
    ensures r < 3 && r < |s| ==> s[|s| - r - 1] != '\\'
  {
    if |s| >= 1 && s[|s| - 1] == '\\' then
      if |s| >= 2 && s[|s| - 2] == '\\' then
        if |s| >= 3 && s[|s| - 3] == '\\' then 3 else 2
      else 1
    else 0
  }

  /** `s.endswith(suffix)` compares the last characters one by one. */
  lemma EndsWithAt(s: string, suffix: string)
    ensures EndsWith(s, suffix) <==> |suffix| <= |s| && forall k :: 0 <= k < |suffix| ==> s[|s| - |suffix| + k] == suffix[k]
  {
    if |suffix| <= |s| && forall k :: 0 <= k < |suffix| ==> s[|s| - |suffix| + k] == suffix[k] {
      assert s[|s| - |suffix|..] == suffix;
    }
  }

  /** The `endswith` tests `buffer_literal` makes, in terms of `TrailingBackslashes`. */
  lemma EndsWithBackslashes(s: string)
    ensures EndsWith(s, "\\\\\\") <==> TrailingBackslashes(s) == 3
    ensures EndsWith(s, "\\\\") <==> TrailingBackslashes(s) >= 2
    ensures EndsWith(s, "\\") <==> TrailingBackslashes(s) >= 1
    ensures EndsWith(s, "\n") <==> |s| > 0 && s[|s| - 1] == '\n'
  {
    EndsWithAt(s, "\\\\\\");
    EndsWithAt(s, "\\\\");
    EndsWithAt(s, "\\");
    EndsWithAt(s, "\n");
    var suffix3: string := "\\\\\\";
    if |s| >= 3 {
      assert (forall k :: 0 <= k < 3 ==> s[|s| - 3 + k] == suffix3[k]) <==> s[|s| - 3] == '\\' && s[|s| - 2] == '\\' && s[|s| - 1] == '\\';
    }
    var suffix2: string := "\\\\";
    if |s| >= 2 {
      assert (forall k :: 0 <= k < 2 ==> s[|s| - 2 + k] == suffix2[k]) <==> s[|s| - 2] == '\\' && s[|s| - 1] == '\\';
    }
  }

  /** The text `buffer_literal` appends for one template line. A single trailing backslash
      continues the line: it is dropped and no newline follows. A doubled backslash is an
      escaped backslash at the end of a line: one backslash, then the newline. Three
      backslashes are an escaped backslash followed by a continuation. Any other line
      gets a newline unless it already ends with one. */
  function Emitted(literal: string): (r: string)
    ensures TrailingBackslashes(literal) == 1 ==> r == literal[..|literal| - 1]
    ensures TrailingBackslashes(literal) == 2 ==> r == literal[..|literal| - 1] + "\n"
    ensures TrailingBackslashes(literal) == 3 ==> r == literal[..|literal| - 2]
    ensures TrailingBackslashes(literal) == 0 ==> r == if |literal| > 0 && literal[|literal| - 1] == '\n' then literal else literal + "\n"
  {
    EndsWithBackslashes(literal);
    if EndsWith(literal, "\\\\\\") then literal[..|literal| - 2]
    else if EndsWith(literal, "\\\\") then literal[..|literal| - 1] + "\n"
    else if EndsWith(literal, "\\") then literal[..|literal| - 1]
    else if EndsWith(literal, "\n") then literal
    else literal + "\n"
  }

  /** A line with an even number of trailing backslashes (none, or an escaped one) ends
      its text with a newline. */
  lemma EmittedEndsLine(literal: string)
    requires TrailingBackslashes(literal) % 2 == 0
    ensures |Emitted(literal)| > 0 && Emitted(literal)[|Emitted(literal)| - 1] == '\n'
  {
    var t := TrailingBackslashes(literal);
    if t == 2 {
      var e := literal[..|literal| - 1] + "\n";
      assert Emitted(literal) == e;
      assert e[|e| - 1] == '\n';
    } else {
      assert t == 0;
      if |literal| > 0 && literal[|literal| - 1] == '\n' {
        assert Emitted(literal) == literal;
      } else {
        var e := literal + "\n";
        assert Emitted(literal) == e;
        assert e[|e| - 1] == '\n';
      }
    }
  }

  /** `buffer_literal(literal)`: appends the line's text and changes nothing else. */
  function BufferLiteral(rt: RuntimeState, literal: string): (r: RuntimeState)
    ensures r.functions == rt.functions
    ensures rt.buffer <= r.buffer
    ensures r.buffer[|rt.buffer|..] == Emitted(literal)
  {
    rt.(buffer := rt.buffer + Emitted(literal))
  }

  /** `clear_buffer()`: hands out the buffered text and empties the buffer. */
  function ClearBuffer(rt: RuntimeState): (r: (string, RuntimeState))
    ensures r.0 == rt.buffer && r.1.buffer == "" && r.1.functions == rt.functions
  {
    (rt.buffer, rt.(buffer := ""))
  }

  /** Putting text in front of a line that is not all backslashes does not change how many
      backslashes it ends with, nor whether it ends with a newline. */
  lemma PrefixKeepsEnding(p: string, b: string, i: nat)
    requires i < |b| && b[i] != '\\'
    ensures TrailingBackslashes(p + b) == TrailingBackslashes(b)
    ensures (p + b)[|p + b| - 1] == b[|b| - 1]
  {
    var ab := p + b;
    var t := TrailingBackslashes(b);
    assert t < |b|;
    assert ab[|ab| - 1] == b[|b| - 1];
    if |b| >= 2 { assert ab[|ab| - 2] == b[|b| - 2]; }
    if |b| >= 3 { assert ab[|ab| - 3] == b[|b| - 3]; }
    if t < 3 { assert ab[|ab| - t - 1] == b[|b| - t - 1]; }
  }

  /** A line ending in a single backslash joins the next line: buffering the two lines
      gives the same text as buffering their concatenation without the backslash, as long
      as the next line is not made of backslashes only. */
  lemma ContinuationJoins(a: string, b: string, i: nat)
    requires TrailingBackslashes(a) == 1
    requires i < |b| && b[i] != '\\'
    ensures Emitted(a) + Emitted(b) == Emitted(a[..|a| - 1] + b)
  {
    var a' := a[..|a| - 1];
    assert Emitted(a) == a';
    PrefixKeepsEnding(a', b, i);
    CutAfterPrefix(a', b, TrailingBackslashes(b));
  }

  /** How `Emitted` treats a line that starts with a fixed prefix and whose ending is
      known. */
  lemma CutAfterPrefix(p: string, b: string, t: nat)
    requires 0 < |b| && t == TrailingBackslashes(b) == TrailingBackslashes(p + b)
    requires (p + b)[|p + b| - 1] == b[|b| - 1]
    ensures Emitted(p + b) == p + Emitted(b)
  {
    if t == 0 {
      CutAfterPrefixPlain(p, b);
    } else {
      CutAfterPrefixBackslashes(p, b, t);
    }
  }

  lemma CutAfterPrefixPlain(p: string, b: string)
    requires 0 < |b| && TrailingBackslashes(b) == TrailingBackslashes(p + b) == 0
    requires (p + b)[|p + b| - 1] == b[|b| - 1]
    ensures Emitted(p + b) == p + Emitted(b)
  {
    var ab := p + b;
    var last := b[|b| - 1];
    assert ab[|ab| - 1] == last && |ab| > 0;
    if last == '\n' {
      assert Emitted(b) == b;
      assert Emitted(ab) == ab;
    } else {
      assert Emitted(b) == b + "\n";
      assert Emitted(ab) == ab + "\n";
      assert ab + "\n" == p + (b + "\n");
    }
  }

  lemma CutAfterPrefixBackslashes(p: string, b: string, t: nat)
    requires 0 < |b| && t == TrailingBackslashes(b) == TrailingBackslashes(p + b) && t > 0
    ensures Emitted(p + b) == p + Emitted(b)
  {
    var ab := p + b;
    if t == 3 {
      assert ab[..|ab| - 2] == p + b[..|b| - 2];
    } else if t == 2 {
      assert ab[..|ab| - 1] == p + b[..|b| - 1];
      assert ab[..|ab| - 1] + "\n" == p + (b[..|b| - 1] + "\n");
    } else {
      assert ab[..|ab| - 1] == p + b[..|b| - 1];
    }
  }

  /** Buffering one line into an empty buffer and clearing it hands out exactly that
      line's text. */
  lemma BufferThenClear(rt: RuntimeState, literal: string)
    ensures ClearBuffer(BufferLiteral(ClearBuffer(rt).1, literal)).0 == Emitted(literal)
  {
  }

  // ---------------------------------------------------------------------------
  // Template functions (runtime.py:198-219)

  /** `define_function(name, fn)`. */
  function DefineFunction(rt: RuntimeState, name: string, fn: RslFunction): (r: RuntimeState)
    ensures r.buffer == rt.buffer
    ensures name in r.functions && forall n :: n in rt.functions && n != name ==> n in r.functions && r.functions[n] == rt.functions[n]
  {
    rt.(functions := rt.functions[name := fn])
  }

  /** `key.split("attr_")[1]` for a key starting with `attr_`: the text after that prefix,
      up to the next `attr_` if there is one. */
  function AttrName(key: string): (r: string)
    requires StartsWith(key, "attr_")
    ensures |r| <= |key| - 5 && r == key[5..5 + |r|]
    ensures Find(key[5..], "attr_").None? ==> r == key[5..]
  {
    var rest := key[5..];
    match Find(rest, "attr_")
    case Some(j) => rest[..j]
    case None => rest
  }

  /** Naming an attribute `attr_<n>` returns it under `<n>` when `<n>` itself does not
      contain `attr_`. */
  lemma AttrNameRoundTrip(n: string)
    requires Find(n, "attr_").None?
    ensures StartsWith("attr_" + n, "attr_") && AttrName("attr_" + n) == n
  {
    assert ("attr_" + n)[5..] == n;
  }

  /** The returned dictionary's `attr_` entries, renamed, in order; other entries are dropped. */
  function ReturnPairs(d: Dict): (r: Dict)
    ensures |r| <= |d|
  {
    if |d| == 0 then []
    else if StartsWith(d[0].0, "attr_") then [(AttrName(d[0].0), d[0].1)] + ReturnPairs(d[1..])
    else ReturnPairs(d[1..])
  }

  /** Every returned pair is a renamed `attr_` entry of the function's dictionary. */
  lemma {:induction false} ReturnPairsFrom(d: Dict, j: nat)
    requires j < |ReturnPairs(d)|
    ensures exists i :: 0 <= i < |d| && StartsWith(d[i].0, "attr_") && ReturnPairs(d)[j] == (AttrName(d[i].0), d[i].1)
    decreases |d|
  {
    if StartsWith(d[0].0, "attr_") && j == 0 {
      assert ReturnPairs(d)[0] == (AttrName(d[0].0), d[0].1);
    } else {
      var j' := if StartsWith(d[0].0, "attr_") then j - 1 else j;
      assert ReturnPairs(d)[j] == ReturnPairs(d[1..])[j'];
      ReturnPairsFrom(d[1..], j');
      var i :| 0 <= i < |d[1..]| && StartsWith(d[1..][i].0, "attr_") && ReturnPairs(d[1..])[j'] == (AttrName(d[1..][i].0), d[1..][i].1);
      assert d[1..][i] == d[i + 1];
    }
  }

  /** Every `attr_` entry of the function's dictionary is returned under its new name. */
  lemma {:induction false} ReturnPairsHas(d: Dict, i: nat)
    requires i < |d| && StartsWith(d[i].0, "attr_")
    ensures AttrName(d[i].0) in Keys(ReturnPairs(d))
    decreases |d|
  {
    if i == 0 {
      KeysConcat([(AttrName(d[0].0), d[0].1)], ReturnPairs(d[1..]));
    } else {
      assert d[1..][i - 1] == d[i];
      ReturnPairsHas(d[1..], i - 1);
      if StartsWith(d[0].0, "attr_") {
        KeysConcat([(AttrName(d[0].0), d[0].1)], ReturnPairs(d[1..]));
      }
    }
  }

  /** `invoke_function(name, args)`: calls the function with an empty buffer, restores the
      buffer, and returns a Fragment whose `body` is the text the function emitted and
      whose other attributes are the function's `attr_` results. `Fragment.__init__`
      takes `self` as its own parameter, so a result renamed to `self` makes the
      constructor raise `TypeError`, after the buffer has been restored. */
  function InvokeFunction(rt: RuntimeState, name: string, args: seq<Value>): (r: (Result<Value>, RuntimeState))
    ensures r.1 == rt
    ensures r.0.Ok? <==> name in rt.functions && "self" !in Keys(ReturnPairs(rt.functions[name](args).1))
    ensures name !in rt.functions ==> r.0 == Err(UndefinedFunction(name))
    ensures name in rt.functions && "self" in Keys(ReturnPairs(rt.functions[name](args).1)) ==> r.0 == Err(SelfKeyword)
    ensures r.0.Ok? ==>
      var (text, d) := rt.functions[name](args);
      var pairs := ReturnPairs(d);
      && r.0.value.VFrag? && IsDict(r.0.value.fields)
      && (forall k :: k in Keys(r.0.value.fields) <==> k == "body" || k in Keys(pairs))
      && ("body" !in Keys(pairs) ==> Lookup(r.0.value.fields, "body") == Some(VStr(text)))
      && (forall k :: k in Keys(pairs) ==> Lookup(r.0.value.fields, k) == LastValue(pairs, k))
  {
    if name !in rt.functions then (Err(UndefinedFunction(name)), rt)
    else
      var (saved, cleared) := ClearBuffer(rt);
      var (text, d) := rt.functions[name](args);
      var (body, _) := ClearBuffer(cleared.(buffer := cleared.buffer + text));
      assert body == text;
      var pairs := ReturnPairs(d);
      if "self" in Keys(pairs) then (Err(SelfKeyword), cleared.(buffer := saved))
      else
        var fields := Update([("body", VStr(body))], pairs);
        assert Keys([("body", VStr(body))]) == ["body"];
        assert Lookup([("body", VStr(body))], "body") == Some(VStr(text));
        (Ok(VFrag(fields)), cleared.(buffer := saved))
  }

  /** A function's `attr_<n>` result comes back as the fragment's attribute `<n>`, when no
      other key of its dictionary is renamed to `<n>` and no result is renamed to `self`;
      an `attr_self` result makes the call raise. */
  lemma InvokeReturnsAttribute(rt: RuntimeState, name: string, args: seq<Value>, n: string)
    requires name in rt.functions
    requires var d := rt.functions[name](args).1;
      && IsDict(d) && "attr_" + n in Keys(d) && Find(n, "attr_").None?
      && forall k :: k in Keys(d) && StartsWith(k, "attr_") && AttrName(k) == n ==> k == "attr_" + n
    ensures n == "self" ==> InvokeFunction(rt, name, args).0 == Err(SelfKeyword)
    ensures InvokeFunction(rt, name, args).0.Ok? <==> "self" !in Keys(ReturnPairs(rt.functions[name](args).1))
    ensures InvokeFunction(rt, name, args).0.Ok? ==>
      Lookup(InvokeFunction(rt, name, args).0.value.fields, n) == Lookup(rt.functions[name](args).1, "attr_" + n)
  {
    var d := rt.functions[name](args).1;
    var pairs := ReturnPairs(d);
    AttrNameRoundTrip(n);
    var i :| 0 <= i < |d| && Keys(d)[i] == "attr_" + n;
    KeysAt(d, i);
    LookupUnique(d, i);
    ReturnPairsHas(d, i);
    if "self" !in Keys(pairs) {
      forall j | 0 <= j < |pairs| && pairs[j].0 == n ensures pairs[j].1 == d[i].1 {
        ReturnPairsFrom(d, j);
        var m :| 0 <= m < |d| && StartsWith(d[m].0, "attr_") && pairs[j] == (AttrName(d[m].0), d[m].1);
        KeysAt(d, m);
        LookupUnique(d, m);
      }
      LastValueOnly(pairs, n, d[i].1);
    }
  }

  /** A function just defined is the one invoked: its text and renamed results make up the
      fragment, unless a result is renamed to `self`, which raises. */
  lemma InvokeAfterDefine(rt: RuntimeState, name: string, fn: RslFunction, args: seq<Value>)
    ensures "self" in Keys(ReturnPairs(fn(args).1)) ==>
      InvokeFunction(DefineFunction(rt, name, fn), name, args).0 == Err(SelfKeyword)
    ensures "self" !in Keys(ReturnPairs(fn(args).1)) ==>
      InvokeFunction(DefineFunction(rt, name, fn), name, args).0 ==
      Ok(VFrag(Update([("body", VStr(fn(args).0))], ReturnPairs(fn(args).1))))
  {
    var rt' := DefineFunction(rt, name, fn);
    assert rt'.functions[name] == fn;
    assert "" + fn(args).0 == fn(args).0;
  }

  /** A template function returning `attr_self` makes `invoke_function` raise `TypeError`,
      while the buffer is still restored. */
  lemma InvokeSelfRaises(rt: RuntimeState, name: string, fn: RslFunction, args: seq<Value>)
    requires fn(args).1 == [("attr_self", VInt(1))]
    ensures InvokeFunction(DefineFunction(rt, name, fn), name, args) == (Err(SelfKeyword), DefineFunction(rt, name, fn))
  {
    var d := fn(args).1;
    assert d[0].0 == "attr_self" && StartsWith(d[0].0, "attr_");
    assert AttrName("attr_self") == "self" by { AttrNameRoundTrip("self"); }
    ReturnPairsHas(d, 0);
    InvokeAfterDefine(rt, name, fn, args);
  }

  // ---------------------------------------------------------------------------
  // Selects over a set and over a class (runtime.py:228-233, 338-373)

  /** `iter(v)`: a query set yields its elements, a string its one-character strings;
      anything else is not iterable. */
  function Iterate(v: Value): (r: Result<seq<Value>>)
    ensures r.Ok? <==> v.VSet? || v.VStr?
    ensures r.Err? ==> r.error == NotIterable
    ensures v.VSet? ==> r == Ok(v.elems.items)
    ensures v.VStr? ==> |r.value| == |v.s| && forall i :: 0 <= i < |v.s| ==> r.value[i] == VStr([v.s[i]])
  {
    match v
    case VSet(q) => Ok(q.items)
    case VStr(str) => Ok(CharValues(str))
    case _ => Err(NotIterable)
  }

  /** `select_many_in(inst_set, where)`: a new query set of the iterated elements the
      condition keeps, in iteration order. */
  function SelectManyIn(v: Value, where: Value -> bool): (r: Result<OrderedSet<Value>>)
    ensures r.Ok? <==> Iterate(v).Ok?
    ensures r.Err? ==> r.error == NotIterable
    ensures r.Ok? ==> r.value.Valid()
    ensures r.Ok? ==> forall x :: x in r.value.items <==> x in Iterate(v).value && where(x)
    ensures r.Ok? ==> InFirstOccurrenceOrder(r.value.items, Filter(Some(where), Iterate(v).value))
    ensures r.Ok? && Distinct(Iterate(v).value) ==> InFirstOccurrenceOrder(r.value.items, Iterate(v).value)
  {
    match Iterate(v)
    case Err(e) => Err(e)
    case Ok(xs) =>
      var kept := Filter(Some(where), xs);
      var q := FromSeq(kept);
      assert forall x :: x in q.items <==> x in q.Elements();
      FromSeqDistinct(kept);
      Ok(q)
  }

  /** `select_any_in(inst_set, where)`: the first iterated element the condition keeps,
      `None` when there is none. */
  function SelectAnyIn(v: Value, where: Value -> bool): (r: Result<Value>)
    ensures r.Ok? <==> Iterate(v).Ok?
    ensures r.Err? ==> r.error == NotIterable
    ensures r.Ok? ==> match FirstKept(Some(where), Iterate(v).value)
      case Some(i) => r.value == Iterate(v).value[i]
      case None => r.value == VNone
  {
    match Iterate(v)
    case Err(e) => Err(e)
    case Ok(xs) =>
      match FirstKept(Some(where), xs)
      case Some(i) => Ok(xs[i])
      case None => Ok(VNone)
  }

  /** `select_one_in(inst_set, where)`: refuses a set of more than one element, then
      behaves like `select_any_in`. */
  function SelectOneIn(v: Value, where: Value -> bool): (r: Result<Value>)
    ensures Cardinality(v) > 1 ==> r == Err(SelectOneFromMany(Cardinality(v)))
    ensures Cardinality(v) <= 1 ==> r == SelectAnyIn(v, where)
  {
    var n := Cardinality(v);
    if n > 1 then Err(SelectOneFromMany(n))
    else SelectAnyIn(v, where)
  }

  /** `select_any_in` picks the first element of what `select_many_in` collects. */
  lemma SelectAnyInIsFirstOfMany(v: Value, where: Value -> bool)
    requires SelectManyIn(v, where).Ok?
    ensures SelectAnyIn(v, where) == Ok(FirstOrNone(SelectManyIn(v, where).value))
  {
    var xs := Iterate(v).value;
    var kept := Filter(Some(where), xs);
    if |kept| > 0 {
      FromSeqFirst(kept);
    }
  }

  /** A query set of one element answers `select_one_in` like `select_any_in`; `None` is
      counted as empty but is not iterable. */
  lemma SelectOneInSmallSets(v: Value, where: Value -> bool)
    ensures v.VSet? && v.elems.Len() <= 1 ==> SelectOneIn(v, where) == SelectAnyIn(v, where)
    ensures SelectOneIn(VNone, where) == Err(NotIterable)
    ensures v.VSet? && v.elems.Len() > 1 ==> SelectOneIn(v, where).Err?
  {
  }

  /** Every element of a class's instance list is an instance, so truthiness keeps them all. */
  lemma {:induction false} FilterKeepsAll(where: Option<Value -> bool>, xs: seq<Value>)
    requires forall i :: 0 <= i < |xs| ==> Keeps(where, xs[i])
    ensures Filter(where, xs) == xs
    decreases |xs|
  {
    if |xs| > 0 {
      forall i | 0 <= i < |xs[1..]|
        ensures Keeps(where, xs[1..][i])
      {
        assert xs[1..][i] == xs[i + 1];
      }
      FilterKeepsAll(where, xs[1..]);
      assert Keeps(where, xs[0]);
      assert Filter(where, xs) == [xs[0]] + Filter(where, xs[1..]);
      assert [xs[0]] + xs[1..] == xs;
    }
  }

  /** `select_any_from(kind, where)`: the first instance of `kind` the condition keeps. */
  function SelectAnyFrom(s: Store, kind: string, where: Value -> bool): (r: Value)
    requires WellFormed(s)
    ensures r == SelectAny(s, kind, Some(where))
  {
    var all := SelectMany(s, kind, None);
    FilterKeepsAll(None, Lift(InstancesOf(s, kind)));
    assert all.items == Lift(InstancesOf(s, kind));
    match FirstKept(Some(where), all.items)
    case Some(i) => all.items[i]
    case None => VNone
  }

  /** `select_many_from(kind, where)`: the instances of `kind` the condition keeps, in
      creation order. */
  function SelectManyFrom(s: Store, kind: string, where: Value -> bool): (r: OrderedSet<Value>)
    requires WellFormed(s)
    ensures r == SelectMany(s, kind, Some(where))
  {
    var all := SelectMany(s, kind, None);
    FilterKeepsAll(None, Lift(InstancesOf(s, kind)));
    var kept := Filter(Some(where), all.items);
    FromSeqDistinct(kept);
    FromSeq(kept)
  }

  /** `cast_to_set(value)`: a query set is kept, anything else (`None` included) becomes
      a query set of that one value. */
  function CastToSet(v: Value): (r: Value)
    ensures r.VSet?
    ensures v.VSet? ==> r == v
    ensures !v.VSet? ==> r.elems.Valid() && r.elems.items == [v]
  {
    if v.VSet? then v else VSet(OrderedSet([v]))
  }

  /** Casting twice is casting once, and a cast value has the cardinality its original
      counts, except that `None` becomes a set of one element. */
  lemma CastToSetIdempotent(v: Value)
    ensures CastToSet(CastToSet(v)) == CastToSet(v)
    ensures !v.VSet? ==> Cardinality(CastToSet(v)) == 1
    ensures v.VSet? ==> Cardinality(CastToSet(v)) == Cardinality(v)
  {
  }

  // ---------------------------------------------------------------------------
  // format_string (runtime.py:158-186)

  /** How `str.title()` maps one character, given whether a letter precedes it. */
  function TitleChar(afterLetter: bool, c: char): char {
    if !IsLetter(c) then c else if afterLetter then LowerChar(c) else UpperChar(c)
  }

  /** `str.title()`: a letter is upper-cased when the character before it is not a letter,
      lower-cased otherwise; `prevLetter` says whether a letter came before `s`. */
  function TitleAfter(prevLetter: bool, s: string): (r: string)
    ensures |r| == |s|
    ensures |s| > 0 ==> r[0] == TitleChar(prevLetter, s[0])
    ensures forall i :: 1 <= i < |s| ==> r[i] == TitleChar(IsLetter(s[i - 1]), s[i])
    decreases |s|
  {
    if |s| == 0 then ""
    else
      var rest := TitleAfter(IsLetter(s[0]), s[1..]);
      var r := [TitleChar(prevLetter, s[0])] + rest;
      forall i | 1 <= i < |s| ensures r[i] == TitleChar(IsLetter(s[i - 1]), s[i]) {
        assert r[i] == rest[i - 1] && s[1..][i - 1] == s[i];
        if i >= 2 { assert s[1..][i - 2] == s[i - 1]; }
      }
      r
  }

  function Title(s: string): (r: string) {
    TitleAfter(false, s)
  }

  /** Title-casing a character keeps it a letter or leaves it alone, and doing it twice
      in the same position is doing it once. */
  lemma TitleCharFacts(afterLetter: bool, c: char)
    ensures IsLetter(TitleChar(afterLetter, c)) == IsLetter(c)
    ensures !IsLetter(c) ==> TitleChar(afterLetter, c) == c
    ensures TitleChar(afterLetter, TitleChar(afterLetter, c)) == TitleChar(afterLetter, c)
  {
  }

  /** Case mapping keeps letters letters and everything else unchanged. */
  lemma CaseMapsKeepLetters(c: char)
    ensures IsLetter(LowerChar(c)) == IsLetter(c) && IsLetter(UpperChar(c)) == IsLetter(c)
    ensures !IsLetter(c) ==> LowerChar(c) == c && UpperChar(c) == c
    ensures LowerChar(LowerChar(c)) == LowerChar(c) && UpperChar(UpperChar(c)) == UpperChar(c)
    ensures LowerChar(UpperChar(c)) == LowerChar(c) && UpperChar(LowerChar(c)) == UpperChar(c)
  {
  }

  /** `re.sub(r'\s+', rep, s)`: every maximal run of whitespace becomes `rep`. */
  function SubSpace(s: string, rep: string): (r: string)
    ensures (forall i :: 0 <= i < |rep| ==> !IsSpace(rep[i])) ==> forall i :: 0 <= i < |r| ==> !IsSpace(r[i])
    ensures (forall i :: 0 <= i < |s| ==> !IsSpace(s[i])) ==> r == s
    decreases |s|
  {
    if |s| == 0 then ""
    else if IsSpace(s[0]) then
      var rest := SubSpace(DropSpaces(s), rep);
      assert forall i :: |rep| <= i < |rep + rest| ==> (rep + rest)[i] == rest[i - |rep|];
      rep + rest
    else
      var rest := SubSpace(s[1..], rep);
      assert forall i :: 1 <= i < |s| ==> s[1..][i - 1] == s[i];
      assert forall i :: 1 <= i < |[s[0]] + rest| ==> ([s[0]] + rest)[i] == rest[i - 1];
      [s[0]] + rest
  }

  /** `s` without its leading whitespace. */
  function DropSpaces(s: string): (r: string)
    ensures |r| <= |s| && r == s[|s| - |r|..]
    ensures |r| > 0 ==> !IsSpace(r[0])
    ensures forall i :: 0 <= i < |s| - |r| ==> IsSpace(s[i])
  {
    if |s| > 0 && IsSpace(s[0]) then
      var rest := DropSpaces(s[1..]);
      assert forall i :: 1 <= i < |s| - |rest| ==> s[i] == s[1..][i - 1];
      rest
    else s
  }

  /** A character-at-a-time reference for `re.sub(r'\s+', rep, s)`: a whitespace
      character emits `rep` when it opens a run (`inRun` is false) and nothing when it
      continues one; any other character is copied and closes the run. */
  function CollapseRuns(s: string, rep: string, inRun: bool): string
    decreases |s|
  {
    if |s| == 0 then ""
    else if IsSpace(s[0]) then (if inRun then "" else rep) + CollapseRuns(s[1..], rep, true)
    else [s[0]] + CollapseRuns(s[1..], rep, false)
  }

  /** Inside a run, leading whitespace emits nothing more. */
  lemma {:induction false} CollapseRunsInRun(s: string, rep: string)
    ensures CollapseRuns(s, rep, true) == CollapseRuns(DropSpaces(s), rep, false)
    decreases |s|
  {
    if |s| > 0 && IsSpace(s[0]) {
      CollapseRunsInRun(s[1..], rep);
    }
  }

  /** `SubSpace` agrees with the character-at-a-time reference on every input. */
  lemma {:induction false} SubSpaceCollapsesRuns(s: string, rep: string)
    ensures SubSpace(s, rep) == CollapseRuns(s, rep, false)
    decreases |s|
  {
    if |s| > 0 {
      if IsSpace(s[0]) {
        SubSpaceCollapsesRuns(DropSpaces(s), rep);
        CollapseRunsInRun(s[1..], rep);
      } else {
        SubSpaceCollapsesRuns(s[1..], rep);
      }
    }
  }

  /** Dropping the leading whitespace of a whitespace run followed by `b` leaves `b`,
      when `b` does not itself start with whitespace. */
  lemma {:induction false} DropSpacesRun(sp: string, b: string)
    requires forall i :: 0 <= i < |sp| ==> IsSpace(sp[i])
    requires |b| > 0 ==> !IsSpace(b[0])
    ensures DropSpaces(sp + b) == b
    decreases |sp|
  {
    if |sp| == 0 {
      assert sp + b == b;
    } else {
      assert (sp + b)[1..] == sp[1..] + b;
      DropSpacesRun(sp[1..], b);
    }
  }

  /** One maximal whitespace run between whitespace-free text `a` and text `b` that does
      not start with whitespace becomes exactly one copy of `rep`. */
  lemma SubSpaceRun(a: string, sp: string, b: string, rep: string)
    requires forall i :: 0 <= i < |a| ==> !IsSpace(a[i])
    requires |sp| > 0 && forall i :: 0 <= i < |sp| ==> IsSpace(sp[i])
    requires |b| > 0 ==> !IsSpace(b[0])
    ensures SubSpace(a + sp + b, rep) == a + rep + SubSpace(b, rep)
  {
    SubSpaceCollapsesRuns(a + sp + b, rep);
    SubSpaceCollapsesRuns(b, rep);
    CollapseRunsRun(a, sp, b, rep);
  }

  lemma CollapseRunsRun(a: string, sp: string, b: string, rep: string)
    requires forall i :: 0 <= i < |a| ==> !IsSpace(a[i])
    requires |sp| > 0 && forall i :: 0 <= i < |sp| ==> IsSpace(sp[i])
    requires |b| > 0 ==> !IsSpace(b[0])
    ensures CollapseRuns(a + sp + b, rep, false) == a + rep + CollapseRuns(b, rep, false)
  {
    assert a + sp + b == a + (sp + b);
    CollapseRunsCopies(a, sp + b, rep);
    CollapseRunsLeadingRun(sp, b, rep);
  }

  lemma CollapseRunsLeadingRun(sp: string, b: string, rep: string)
    requires |sp| > 0 && forall i :: 0 <= i < |sp| ==> IsSpace(sp[i])
    requires |b| > 0 ==> !IsSpace(b[0])
    ensures CollapseRuns(sp + b, rep, false) == rep + CollapseRuns(b, rep, false)
  {
    var x := sp + b;
    assert x[0] == sp[0] && x[1..] == sp[1..] + b;
    CollapseRunsInRun(x[1..], rep);
    DropSpacesRun(sp[1..], b);
  }

  /** Whitespace-free text in front is copied unchanged. */
  lemma {:induction false} CollapseRunsCopies(a: string, x: string, rep: string)
    requires forall i :: 0 <= i < |a| ==> !IsSpace(a[i])
    ensures CollapseRuns(a + x, rep, false) == a + CollapseRuns(x, rep, false)
    decreases |a|
  {
    if |a| == 0 {
      assert a + x == x;
    } else {
      assert (a + x)[0] == a[0] && (a + x)[1..] == a[1..] + x;
      CollapseRunsCopies(a[1..], x, rep);
      assert a == [a[0]] + a[1..];
    }
  }

  /** The characters of `s` the predicate `IsSpace` rejects, in order: an independent
      definition of removing all whitespace. */
  function NoSpaces(s: string): (r: string)
    ensures forall i :: 0 <= i < |r| ==> !IsSpace(r[i])
  {
    if |s| == 0 then ""
    else if IsSpace(s[0]) then NoSpaces(s[1..])
    else [s[0]] + NoSpaces(s[1..])
  }

  /** What `NoSpaces` keeps: exactly the characters of its input that are not whitespace. */
  lemma {:induction false} NoSpacesKeeps(s: string)
    ensures forall c :: c in NoSpaces(s) <==> c in s && !IsSpace(c)
    decreases |s|
  {
    if |s| > 0 {
      NoSpacesKeeps(s[1..]);
      assert forall c :: c in s <==> c == s[0] || c in s[1..] by {
        assert s == [s[0]] + s[1..];
      }
    }
  }

  /** Replacing whitespace runs by nothing is removing every whitespace character. */
  lemma {:induction false} SubSpaceEmptyRemoves(s: string)
    ensures SubSpace(s, "") == NoSpaces(s)
    decreases |s|
  {
    if |s| > 0 {
      if IsSpace(s[0]) {
        var d := DropSpaces(s);
        SubSpaceEmptyRemoves(d);
        NoSpacesDrop(s);
      } else {
        SubSpaceEmptyRemoves(s[1..]);
      }
    }
  }

  lemma {:induction false} NoSpacesDrop(s: string)
    ensures NoSpaces(DropSpaces(s)) == NoSpaces(s)
    decreases |s|
  {
    if |s| > 0 && IsSpace(s[0]) {
      NoSpacesDrop(s[1..]);
    }
  }

  /** The characters `\w` does not match, removed. */
  function WordCharsOnly(s: string): (r: string)
    ensures forall i :: 0 <= i < |r| ==> IsWordChar(r[i])
  {
    if |s| == 0 then ""
    else if IsWordChar(s[0]) then [s[0]] + WordCharsOnly(s[1..])
    else WordCharsOnly(s[1..])
  }

  /** What `WordCharsOnly` keeps: exactly the word characters of its input. */
  lemma {:induction false} WordCharsOnlyKeeps(s: string)
    ensures forall c :: c in WordCharsOnly(s) <==> c in s && IsWordChar(c)
    decreases |s|
  {
    if |s| > 0 {
      WordCharsOnlyKeeps(s[1..]);
      assert forall c :: c in s <==> c == s[0] || c in s[1..] by {
        assert s == [s[0]] + s[1..];
      }
    }
  }

  /** `value.replace('_', ' ')`. */
  function UnderscoresToSpaces(s: string): (r: string)
    ensures |r| == |s|
    ensures forall i :: 0 <= i < |s| ==> r[i] == if s[i] == '_' then ' ' else s[i]
  {
    seq(|s|, i requires 0 <= i < |s| => if s[i] == '_' then ' ' else s[i])
  }

  /** The `o` operation: camel case. Underscores become word breaks, each word is
      capitalised, everything but letters and digits is dropped, and the first letter
      is lower-cased: the result is the word characters of the title-cased text, in
      order, with the first one lower-cased (the whitespace pass finds nothing left). */
  function Camel(s: string): (r: string)
    ensures var w := WordCharsOnly(Title(UnderscoresToSpaces(s)));
      && |r| == |w|
      && (|w| > 0 ==> r[0] == LowerChar(w[0]))
      && forall i :: 1 <= i < |r| ==> r[i] == w[i]
    ensures forall i :: 0 <= i < |r| ==> IsLetter(r[i]) || IsDigit(r[i])
    ensures |r| > 0 ==> !IsUpper(r[0])
  {
    var t := Title(UnderscoresToSpaces(s));
    var w := WordCharsOnly(t);
    CamelWordChars(s);
    var v := SubSpace(w, "");
    assert v == w;
    if |v| > 0 then
      CaseMapsKeepLetters(v[0]);
      [LowerChar(v[0])] + v[1..]
    else v
  }

  /** After underscores become spaces and the text is title-cased, the word characters
      left are letters and digits only. */
  lemma CamelWordChars(s: string)
    ensures var w := WordCharsOnly(Title(UnderscoresToSpaces(s)));
      forall i :: 0 <= i < |w| ==> IsLetter(w[i]) || IsDigit(w[i])
  {
    var u := UnderscoresToSpaces(s);
    var t := Title(u);
    forall i | 0 <= i < |t| ensures t[i] != '_' {
      TitleCharFacts(false, u[i]);
      TitleCharFacts(true, u[i]);
      if i > 0 { TitleCharFacts(IsLetter(u[i - 1]), u[i]); }
    }
    WordCharsOnlyKeeps(t);
    var w := WordCharsOnly(t);
    forall i | 0 <= i < |w| ensures IsLetter(w[i]) || IsDigit(w[i]) {
      assert w[i] in t;
    }
  }

  /** A worked case of camel casing: an underscore starts a new word. */
  lemma CamelExample()
    ensures Camel("ab_cd") == "abCd"
  {
    TitleExample();
    var w := WordCharsOnly(Title(UnderscoresToSpaces("ab_cd")));
    assert w == "AbCd" by { WordCharsExample(); }
    var r := Camel("ab_cd");
    assert r[0] == 'a';
    assert r[1] == 'b' && r[2] == 'C' && r[3] == 'd';
  }

  lemma TitleExample()
    ensures Title(UnderscoresToSpaces("ab_cd")) == "Ab Cd"
  {
    var u := UnderscoresToSpaces("ab_cd");
    assert u == "ab cd";
    assert "ab cd"[1..] == "b cd" && "b cd"[1..] == " cd" && " cd"[1..] == "cd" && "cd"[1..] == "d";
    assert TitleAfter(true, "d") == "d";
    assert TitleAfter(false, "cd") == "Cd";
    assert TitleAfter(true, " cd") == " Cd";
  }

  lemma WordCharsExample()
    ensures WordCharsOnly("Ab Cd") == "AbCd"
  {
    var d := WordCharsOnly("d");
    assert "d"[1..] == "" && d == "d";
    var cd := WordCharsOnly("Cd");
    assert "Cd"[1..] == "d" && cd == ['C'] + d;
    var scd := WordCharsOnly(" Cd");
    assert !IsWordChar(' ') && " Cd"[1..] == "Cd" && scd == cd;
    var bcd := WordCharsOnly("b Cd");
    assert "b Cd"[1..] == " Cd" && bcd == ['b'] + scd;
    assert "Ab Cd"[1..] == "b Cd" && WordCharsOnly("Ab Cd") == ['A'] + bcd;
  }

  /** One format letter applied to a string; `None` for a letter the table does not know. */
  function ApplyOp(op: char, s: string): (r: Option<string>)
    ensures r.None? <==> LowerChar(op) !in {'u', 'c', 'l', '_', 'r', 't', 'o'}
  {
    match LowerChar(op)
    case 'u' => Some(Upper(s))
    case 'c' => Some(Title(s))
    case 'l' => Some(Lower(s))
    case '_' => Some(SubSpace(s, "_"))
    case 'r' => Some(SubSpace(s, ""))
    case 't' => Some(s)
    case 'o' => Some(Camel(s))
    case _ => None
  }

  /** The position of the first letter of `fmt` the table does not know, or `|fmt|` when
      it knows them all. */
  function FirstUnknown(fmt: string): (i: nat)
    ensures i <= |fmt|
    ensures forall j :: 0 <= j < i ==> ApplyOp(fmt[j], "").Some?
    ensures i < |fmt| ==> ApplyOp(fmt[i], "").None?
    decreases |fmt|
  {
    if |fmt| == 0 then 0
    else if ApplyOp(fmt[0], "").None? then 0
    else
      var k := FirstUnknown(fmt[1..]);
      assert forall j :: 1 <= j < k + 1 ==> fmt[j] == fmt[1..][j - 1];
      k + 1
  }

  /** `format_string(expr, fmt)` on a string: the format letters applied left to right;
      the first letter the table does not know fails, named in lower case. */
  function FormatString(s: string, fmt: string): (r: Result<string>)
    ensures r.Err? <==> exists i :: 0 <= i < |fmt| && ApplyOp(fmt[i], "").None?
    ensures r.Err? <==> FirstUnknown(fmt) < |fmt|
    ensures r.Err? ==> r.error == UnknownFormatOp(LowerChar(fmt[FirstUnknown(fmt)]))
    ensures |fmt| == 0 ==> r == Ok(s)
    decreases |fmt|
  {
    if |fmt| == 0 then Ok(s)
    else
      assert forall i :: 1 <= i < |fmt| ==> fmt[1..][i - 1] == fmt[i];
      match ApplyOp(fmt[0], s)
      case None => Err(UnknownFormatOp(LowerChar(fmt[0])))
      case Some(t) => FormatString(t, fmt[1..])
  }

  /** Formatting with two format strings in turn is formatting with their concatenation. */
  lemma {:induction false} FormatStringComposes(s: string, f1: string, f2: string)
    requires FormatString(s, f1).Ok?
    ensures FormatString(s, f1 + f2) == FormatString(FormatString(s, f1).value, f2)
    decreases |f1|
  {
    if |f1| > 0 {
      assert (f1 + f2)[0] == f1[0] && (f1 + f2)[1..] == f1[1..] + f2;
      var t := ApplyOp(f1[0], s).value;
      assert FormatString(s, f1) == FormatString(t, f1[1..]);
      assert FormatString(s, f1 + f2) == FormatString(t, f1[1..] + f2);
      FormatStringComposes(t, f1[1..], f2);
    } else {
      assert f1 + f2 == f2;
    }
  }

  /** Format letters are case-insensitive. */
  lemma FormatStringIgnoresCase(s: string, fmt: string)
    ensures FormatString(s, Upper(fmt)) == FormatString(s, fmt)
    ensures FormatString(s, Lower(fmt)) == FormatString(s, fmt)
  {
    forall i | 0 <= i < |fmt|
      ensures LowerChar(Upper(fmt)[i]) == LowerChar(fmt[i]) && LowerChar(Lower(fmt)[i]) == LowerChar(fmt[i])
    {
      CaseMapsKeepLetters(fmt[i]);
    }
    FormatStringSameLetters(s, Upper(fmt), fmt);
    FormatStringSameLetters(s, Lower(fmt), fmt);
  }

  /** Two formats that agree letter by letter up to case give the same result. */
  lemma {:induction false} FormatStringSameLetters(s: string, f: string, g: string)
    requires |f| == |g| && forall i :: 0 <= i < |f| ==> LowerChar(f[i]) == LowerChar(g[i])
    ensures FormatString(s, f) == FormatString(s, g)
    decreases |f|
  {
    if |f| > 0 {
      assert ApplyOp(f[0], s) == ApplyOp(g[0], s);
      var t := ApplyOp(f[0], s);
      if t.Some? {
        assert forall i :: 0 <= i < |f| - 1 ==> f[1..][i] == f[i + 1] && g[1..][i] == g[i + 1];
        FormatStringSameLetters(t.value, f[1..], g[1..]);
      }
    }
  }

  lemma UpperIdempotent(s: string)
    ensures Upper(Upper(s)) == Upper(s)
  {
    forall i | 0 <= i < |s| ensures UpperChar(UpperChar(s[i])) == UpperChar(s[i]) {
      CaseMapsKeepLetters(s[i]);
    }
  }

  lemma LowerIdempotent(s: string)
    ensures Lower(Lower(s)) == Lower(s)
  {
    forall i | 0 <= i < |s| ensures LowerChar(LowerChar(s[i])) == LowerChar(s[i]) {
      CaseMapsKeepLetters(s[i]);
    }
  }

  lemma TitleIdempotent(s: string)
    ensures Title(Title(s)) == Title(s)
  {
    var t := Title(s);
    var tt := Title(t);
    forall i | 0 <= i < |s| ensures tt[i] == t[i] {
      if i == 0 {
        TitleCharFacts(false, s[0]);
      } else {
        TitleCharFacts(IsLetter(s[i - 1]), s[i]);
        TitleCharFacts(if i == 1 then false else IsLetter(s[i - 2]), s[i - 1]);
      }
    }
  }

  /** Upper-casing, lower-casing and title-casing are idempotent. */
  lemma CaseOpsIdempotent(s: string)
    ensures FormatString(s, "uu") == FormatString(s, "u")
    ensures FormatString(s, "ll") == FormatString(s, "l")
    ensures FormatString(s, "cc") == FormatString(s, "c")
  {
    UpperIdempotent(s);
    LowerIdempotent(s);
    TitleIdempotent(s);
    assert "uu"[1..] == "u" && "ll"[1..] == "l" && "cc"[1..] == "c";
    assert "u"[1..] == "" && "l"[1..] == "" && "c"[1..] == "";
  }

  /** After `_` or `r` no whitespace is left, and a second application changes nothing;
      `_` is the run-collapsing reference with `_` for each run, `r` drops every
      whitespace character. */
  lemma WhitespaceOpsSettle(s: string)
    ensures FormatString(s, "_") == Ok(CollapseRuns(s, "_", false))
    ensures FormatString(s, "_").Ok? && forall i :: 0 <= i < |FormatString(s, "_").value| ==> !IsSpace(FormatString(s, "_").value[i])
    ensures FormatString(s, "r") == Ok(NoSpaces(s))
    ensures FormatString(s, "__") == FormatString(s, "_")
    ensures FormatString(s, "rr") == FormatString(s, "r")
  {
    UnderscoreOpSettles(s);
    RemoveOpSettles(s);
  }

  lemma UnderscoreOpSettles(s: string)
    ensures FormatString(s, "_") == Ok(SubSpace(s, "_"))
    ensures FormatString(s, "_") == Ok(CollapseRuns(s, "_", false))
    ensures forall i :: 0 <= i < |SubSpace(s, "_")| ==> !IsSpace(SubSpace(s, "_")[i])
    ensures FormatString(s, "__") == FormatString(s, "_")
  {
    var u := SubSpace(s, "_");
    assert forall i :: 0 <= i < |"_"| ==> !IsSpace("_"[i]);
    FormatOneLetter(s, '_');
    FormatTwoLetters(s, '_');
    FormatOneLetter(u, '_');
    SubSpaceCollapsesRuns(s, "_");
  }

  lemma RemoveOpSettles(s: string)
    ensures FormatString(s, "r") == Ok(NoSpaces(s))
    ensures FormatString(s, "rr") == FormatString(s, "r")
  {
    var v := SubSpace(s, "");
    FormatOneLetter(s, 'r');
    FormatTwoLetters(s, 'r');
    FormatOneLetter(v, 'r');
    SubSpaceEmptyRemoves(s);
  }

  /** A one-letter format applies that letter. */
  lemma FormatOneLetter(s: string, c: char)
    requires ApplyOp(c, s).Some?
    ensures FormatString(s, [c]) == Ok(ApplyOp(c, s).value)
  {
    assert [c][1..] == "";
  }

  /** A two-letter format applies the second letter to the first one's result. */
  lemma FormatTwoLetters(s: string, c: char)
    requires ApplyOp(c, s).Some?
    ensures FormatString(s, [c, c]) == FormatString(ApplyOp(c, s).value, [c])
  {
    assert [c, c][1..] == [c];
  }

  /** What each single format letter does, in either case: `t` leaves the text alone, `u`
      and `l` change its case, and a letter outside the table fails. */
  lemma SingleLetterOps(s: string)
    ensures FormatString(s, "t") == Ok(s) && FormatString(s, "T") == Ok(s)
    ensures FormatString(s, "u") == Ok(Upper(s)) && FormatString(s, "U") == Ok(Upper(s))
    ensures FormatString(s, "l") == Ok(Lower(s)) && FormatString(s, "L") == Ok(Lower(s))
    ensures FormatString(s, "x") == Err(UnknownFormatOp('x')) && FormatString(s, "X") == Err(UnknownFormatOp('x'))
  {
    assert "t"[1..] == "" && "T"[1..] == "" && "u"[1..] == "" && "U"[1..] == "";
    assert "l"[1..] == "" && "L"[1..] == "" && "x"[1..] == "" && "X"[1..] == "";
  }

  // ---------------------------------------------------------------------------
  // parse_keyword (runtime.py:188-196)

  /** Where a newline occurs, in terms of characters. */
  lemma NewlineAt(s: string)
    ensures forall k :: 0 <= k < |s| ==> (OccursAt(s, "\n", k) <==> s[k] == '\n')
    ensures !OccursAt(s, "\n", |s|)
  {
    forall k | 0 <= k < |s| ensures OccursAt(s, "\n", k) <==> s[k] == '\n' {
      assert s[k..k + 1] == [s[k]];
    }
  }

  /** The text before the first newline of `s`. */
  function LineOf(s: string): (r: string)
    ensures r <= s && '\n' !in r
    ensures |r| < |s| ==> s[|r|] == '\n'
  {
    NewlineAt(s);
    match Find(s, "\n")
    case Some(j) => s[..j]
    case None => s
  }

  /** A line's text is everything up to its newline. */
  lemma LineOfLine(value: string, tail: string)
    requires '\n' !in value
    ensures LineOf(value + "\n" + tail) == value
    ensures LineOf(value) == value
  {
    var s := value + "\n" + tail;
    NewlineAt(s);
    NewlineAt(value);
    assert s[|value|] == '\n';
    assert forall k :: 0 <= k < |value| ==> s[k] == value[k];
    assert s[..|value|] == value;
  }

  /** `parse_keyword(expr, keyword)`: the rest of the line after the first `keyword:`,
      or the empty string when `keyword:` does not occur. */
  function ParseKeyword(expr: string, keyword: string): (r: string)
    ensures '\n' !in r
    ensures Find(expr, keyword + ":").None? ==> r == ""
    ensures Find(expr, keyword + ":").Some? ==>
      var start := Find(expr, keyword + ":").value + |keyword| + 1;
      start + |r| <= |expr| && r == expr[start..start + |r|] && (start + |r| == |expr| || expr[start + |r|] == '\n')
  {
    match Find(expr, keyword + ":")
    case None => ""
    case Some(i) =>
      var start := i + |keyword| + 1;
      LineOf(expr[start..])
  }

  /** A line `keyword:value` at the start of the text yields its value. */
  lemma ParseKeywordRoundTrip(keyword: string, value: string, rest: string)
    requires '\n' !in value
    ensures ParseKeyword(keyword + ":" + value + "\n" + rest, keyword) == value
    ensures ParseKeyword(keyword + ":" + value, keyword) == value
  {
    var pat := keyword + ":";
    var e1 := pat + value + "\n" + rest;
    var e2 := pat + value;
    assert e1[..|pat|] == pat && e2[..|pat|] == pat;
    assert OccursAt(e1, pat, 0) && OccursAt(e2, pat, 0);
    assert e1[|pat|..] == value + "\n" + rest;
    assert e2[|pat|..] == value;
    LineOfLine(value, rest);
  }

  // ---------------------------------------------------------------------------
  // The runtime's type names (runtime.py:410-426)

  /** `type_name(ty)`: Fragment and its subclasses are `frag_ref`; everything else is named
      by the meta model. */
  function RtTypeName(ty: PyType): (r: Result<string>)
    ensures IsSubclass(ty, TFragment) ==> r == Ok("frag_ref")
    ensures !IsSubclass(ty, TFragment) ==> r == TypeName(ty)
  {
    if IsSubclass(ty, TFragment) then Ok("frag_ref") else TypeName(ty)
  }

  /** `named_type(name)`: `frag_ref` is Fragment; other names go to the meta model. */
  function RtNamedType(name: string): (r: Result<PyType>)
    ensures r.Ok? <==> name == "frag_ref" || IsTypeName(name)
    ensures r.Err? ==> r.error == UnknownType(name)
  {
    if name == "frag_ref" then Ok(TFragment) else NamedType(name)
  }

  /** The runtime's `named_type` and `type_name` are inverse on the names it knows. */
  lemma RtNamedTypeRoundTrip(name: string)
    requires name == "frag_ref" || IsTypeName(name)
    ensures RtTypeName(RtNamedType(name).value) == Ok(name)
  {
    if name != "frag_ref" {
      NamedTypeRoundTrip(name);
    }
  }

  /** `assert_type(expected, value)`: passes when the value's type is named `expected`,
      fails naming both types otherwise. */
  function AssertType(expected: string, v: Value): (r: Result<Value>)
    ensures RtTypeName(TypeOf(v)).Ok?
    ensures r.Ok? <==> expected == RtTypeName(TypeOf(v)).value
    ensures r.Ok? ==> r.value == VNone
    ensures r.Err? ==> r.error == TypeMismatch(expected, RtTypeName(TypeOf(v)).value)
  {
    match RtTypeName(TypeOf(v))
    case Err(e) => Err(e)
    case Ok(actual) => if expected != actual then Err(TypeMismatch(expected, actual)) else Ok(VNone)
  }

  /** What `assert_type` accepts for each kind of value: a fragment is a `frag_ref`, not an
      `inst_ref`, while `None` passes as an `inst_ref`. */
  lemma AssertTypeNames(v: Value)
    ensures v.VFrag? ==> AssertType("frag_ref", v).Ok? && AssertType("inst_ref", v).Err?
    ensures v.VInst? || v.VNone? ==> AssertType("inst_ref", v).Ok?
    ensures v.VSet? ==> AssertType("inst_ref_set", v).Ok?
    ensures v.VBool? ==> AssertType("boolean", v).Ok? && AssertType("integer", v).Err?
  {
  }
}
