# pyxtuml object store and RSL runtime helpers, in Dafny

This project models the in-memory meta model of pyxtuml (`xtuml/model.py`) and the pure
helpers of its RSL template runtime (`xtuml/rsl/runtime.py`), and proves properties of the
model.

The meta model covers:

- the insertion-ordered `OrderedSet` / `QuerySet`;
- the case-insensitive attribute rules of `BaseObject`;
- the `IdGenerator`;
- the type tables;
- `new`, `define_class`, `define_association` and the `select_*` scans;
- the memoised endpoint join behind every navigation;
- `NavChain` with `navigate_one` / `any` / `many`.

The runtime covers:

- the template buffer and `clear_buffer`;
- template functions and `invoke_function`;
- the `select_*_in` / `select_*_from` helpers and `cast_to_set`;
- `format_string` and `parse_keyword`;
- the `frag_ref` type mapping.

The store is an immutable record. Instances live in an arena and are named by their index
(a handle), which replaces the Python object graph and its cycles. Each class object
(`define_class` result) holds its declared attributes, its association table (`__q__`) and
its join cache (`__c__`). Every operation is a pure function from a store to a new store.
The central invariant is `Join.Coherent`: every cache entry is what a fresh scan would give.
It is proved preserved by every operation (module `Coherence`).

Python semantics that matter are written out:

- `==` between values, with bool/int/float numeric equality (`Values.PyEquals`);
- truthiness, used by `filter(None, ...)`;
- `issubclass` over the classes involved;
- `TypeError` for an unhashable cache-key value;
- `AttributeError` for a missing attribute, and for navigating from a value that has no
  `__q__` at all;
- `TypeError` for navigating from a Fragment: its `__q__` is `None`, and subscripting `None`
  raises.

## Model

| member | source | states |
|---|---|---|
| OrderedSets.Add | xtuml/model.py:135-139 | a present key changes nothing; a new key is appended at the tail; the length grows by one exactly when the key was new; validity (no duplicates) is kept |
| OrderedSets.AddIdempotent | xtuml/model.py:135-139 | adding the same key twice equals adding it once |
| OrderedSets.Discard | xtuml/model.py:141-145 | the corrected `discard` (see Findings; the code as written is `LinkedOrderedSet.DiscardAsWritten`): the result is the old iteration order with the key filtered out (reference `Erase`); an absent key leaves the set unchanged; validity kept |
| OrderedSets.Pop | xtuml/model.py:161-171 | `pop` over the corrected `discard` (as written it always raises, `LinkedOrderedSet.PopAsWrittenAlwaysRaises`): an empty set gives `KeyError`; otherwise the last (or first) key is returned and the rest keeps its order |
| OrderedSets.FirstLastArePopped | xtuml/model.py:184-194 | `first` / `last` are exactly the keys `pop(False)` / `pop(True)` remove, and `None` exactly for an empty set |
| OrderedSets.PopBothEnds | xtuml/model.py:161-171 | on a two-element set, popping both ends returns both keys and leaves it empty |
| OrderedSets.AddAll | xtuml/model.py:122-127 | `s \|= xs` keeps `s` as a prefix, adds exactly the keys of `xs`, and the new tail is in first-occurrence order of `xs` |
| OrderedSets.AddAllFresh | xtuml/model.py:135-139 | adding distinct new keys appends them as given |
| OrderedSets.AddAllConcat | xtuml/model.py:122-127 | adding `xs` and then `ys` equals adding `xs + ys`, which is how `\|=` over successive children accumulates |
| OrderedSets.FromSeq | xtuml/model.py:122-127 | `OrderedSet(xs)` holds each key of `xs` once, in order of first occurrence |
| OrderedSets.FromSeqDistinct | xtuml/model.py:122-127 | building from a duplicate-free sequence keeps it unchanged |
| OrderedSets.FromSeqFirst | xtuml/model.py:184-190 | the first key of `OrderedSet(xs)` is `xs[0]` |
| OrderedSets.Union | xtuml/model.py:122-127 | `s \| t` is `s` followed by the keys of `t` not in `s`, in `t`'s order |
| OrderedSets.LenCountsElements | xtuml/model.py:129-133 | `len` equals the number of distinct elements |
| OrderedSets.Reverse | xtuml/model.py:154-159 | reversed iteration yields the forward order backwards, position by position |
| OrderedSets.ReverseInvolution | xtuml/model.py:147-159 | reversing twice restores the iteration order |
| OrderedSets.OrderedEqualityIsStronger | xtuml/model.py:178-182 | equality against another OrderedSet implies set equality; [a, b] and [b, a] are set-equal but not OrderedSet-equal |
| OrderedSets.ReplayOrder | xtuml/model.py:129-159 | after any sequence of add/discard calls, iteration yields exactly the keys whose last call was an add, ordered by when each was (re-)inserted |
| LinkedOrderedSet.DiscardAsWrittenCorrupts | xtuml/model.py:141-145 | as written, discarding a present key raises `TypeError` after unlinking it forward only: `in`/`len` lose the key while reversed iteration still yields it |
| LinkedOrderedSet.PopAsWrittenAlwaysRaises | xtuml/model.py:161-171 | as written, `pop` on a non-empty set always raises instead of returning a key |
| LinkedOrderedSet.DiscardIntendedCoherent | xtuml/model.py:141-145 | the intended discard keeps the doubly linked list coherent and equals `OrderedSets.Discard` |
| Queries.Cardinality | xtuml/model.py:375-381 | 0 exactly for `None` among non-sets, the number of elements for a query set, 1 for anything else |
| Queries.IsEmpty | xtuml/model.py:359-365 | `empty` holds exactly when the cardinality is 0 |
| Queries.NotEmpty | xtuml/model.py:368-372 | `not_empty` holds exactly when the cardinality is positive |
| Queries.IsSet | xtuml/model.py:384-388 | true exactly for query sets |
| Queries.IsInstance | xtuml/model.py:391-395 | true exactly for model instances and fragments (the BaseObject subclasses) |
| Queries.FirstOrNone | xtuml/model.py:186-190 | `QuerySet.first` is the first element, `None` when empty |
| Queries.LastOrNone | xtuml/model.py:192-196 | `QuerySet.last` is the last element, `None` when empty |
| Queries.IsFirst | xtuml/model.py:398-403 | a non-set second argument fails the assertion; otherwise the answer is Python equality with the first element |
| Queries.IsNotFirst | xtuml/model.py:405-411 | a non-set second argument fails the assertion; otherwise the answer is Python inequality with the first element, and `inst != None` for an empty set |
| Queries.IsLast | xtuml/model.py:414-419 | a non-set second argument fails the assertion; otherwise the answer is Python equality with the last element |
| Queries.IsNotLast | xtuml/model.py:421-427 | a non-set second argument fails the assertion; otherwise the answer is Python inequality with the last element, and `inst != None` for an empty set |
| Queries.NotFirstNegatesFirst | xtuml/model.py:406-427 | `not_first` / `not_last` fail exactly when `first` / `last` do and otherwise give the opposite answer |
| Queries.EndsOfOwnSet | xtuml/model.py:398-419 | the first element of a non-empty set passes `first`, its last element passes `last` |
| Values.PyEqualsSymmetric | xtuml/model.py:178-182 | the modelled `==` is symmetric, also between a query set and another value |
| Values.PyEquals | xtuml/model.py:178-182 | comparing a query set with a non-iterable raises; two query sets are equal exactly when they have the same length and the keys at each position are equal under numeric `==` (`list(self) == list(other)`); a query set equals a string when they hold the same one-character elements; hashable values compare by canonical form |
| Values.QuerySetEqualsElementwise | xtuml/model.py:178-180 | two query sets of hashable keys are equal exactly when their lengths agree and each pair of keys at the same position is `==` |
| Values.QuerySetsCompareNumerically | xtuml/model.py:178-180 | `QuerySet([1]) == QuerySet([1.0])` and `QuerySet([True]) == QuerySet([1])`, while `[1, 2]` and `[2, 1]` differ |
| Values.PyEqualsHashable | xtuml/model.py:447-451 | between hashable values `==` is equality of canonical forms, which is what a frozenset key compares |
| Values.NumericEquality | xtuml/model.py:432 | `True == 1`, `1 == 1.0`, `1 != '1'` |
| Values.Filter | xtuml/model.py:498-506 | `filter(where, xs)` keeps exactly the elements the condition (or truthiness) accepts; its first element is the first kept one; on a duplicate-free input the result is duplicate-free and in the input's order |
| Values.FilterConcat | xtuml/model.py:498-506 | for every input, repeats included: filtering `xs + ys` is filtering `xs` then `ys`, and a single element is kept exactly when the condition accepts it, which fixes order and multiplicity |
| Objects.ReadAttr | xtuml/model.py:213-219 | a read succeeds exactly when some stored name matches ignoring case; an exact key wins, otherwise the first case-insensitive match in dictionary order; otherwise `AttributeError` |
| Objects.WriteAttr | xtuml/model.py:221-227 | a write succeeds exactly when some stored name matches ignoring case; it updates the first such slot under its stored spelling and keeps the key list; otherwise nothing changes |
| Objects.WriteThenRead | xtuml/model.py:213-227 | with case-distinct names, a written value is read back under any spelling of the name |
| Objects.WriteShadowedByExactKey | xtuml/model.py:213-227 | with two names differing only in case, a write goes to the first slot while an exact-case read of the second still sees the old value |
| Objects.Plus | xtuml/model.py:204-206 | `a + b` fails the assertion unless `b` is a BaseObject, else is the set {a, b} starting with `a` |
| Objects.Minus | xtuml/model.py:208-211 | `a - b` fails the assertion unless `b` is a BaseObject, else is {a} minus {b} |
| Objects.MinusIsPlusDiscard | xtuml/model.py:204-211 | `a - b` equals `a + b` with `b` discarded |
| Ids.Next | xtuml/model.py:239-245 | `next` returns the value `peek` showed and advances by exactly one read |
| Ids.Peek | xtuml/model.py:239-240 | with a non-repeating source, the value `peek` shows has not been issued yet |
| Ids.NextIsFresh | xtuml/model.py:233-251 | with a non-repeating source, `next` never returns a value it returned before |
| MetaTypes.DefaultValue | xtuml/model.py:278-288 | the four scalar names have fixed defaults, `unique_id` takes exactly one id, any other name raises |
| MetaTypes.NamedType | xtuml/model.py:304-321 | defined exactly on the seven type names, raising on any other |
| MetaTypes.TypeName | xtuml/model.py:290-302 | raises exactly for a class outside the table; `bool` is `boolean` before `int`; `NoneType` is `inst_ref`; every other named class is a subclass of the type its name maps back to |
| MetaTypes.NamedTypeRoundTrip | xtuml/model.py:290-321 | `type_name(named_type(n)) == n` for every type name |
| MetaTypes.TypeNameSound | xtuml/model.py:290-302 | a named type is a subclass of the type its name stands for |
| MetaTypes.BoolNamedBeforeInt | xtuml/model.py:294-299 | bool is an int yet is named `boolean`; `None` is an `inst_ref`; an unknown class raises |
| MetaTypes.DefaultHasItsType | xtuml/model.py:278-321 | every default is an instance of its type and is named by it |
| Associations.SingleLink | xtuml/model.py:102-108 | a single link is not many, and conditional exactly when asked |
| Associations.IsMany | xtuml/model.py:93-95 | `is_many` holds exactly for `M` and `MC` in any letter case |
| Associations.IsConditional | xtuml/model.py:97-99 | `is_conditional` holds exactly when the cardinality contains `C` or `c` |
| Associations.HopRelId | xtuml/model.py:41-43 | a hop's relationship id always ends up a name; a name is kept unchanged |
| Associations.ManyLink | xtuml/model.py:110-116 | a many link is many, and conditional exactly when asked |
| Associations.CardinalityIgnoresCase | xtuml/model.py:93-99 | `is_many` and `is_conditional` ignore the case of the cardinality text |
| Associations.HopRelIdRoundTrip | xtuml/model.py:41-43 | an integer hop `n` becomes `'R'` followed by the decimal digits that read back as `n` |
| Store.Init | xtuml/model.py:263-268 | a new meta model has no classes and no instances and is well formed |
| Store.DefineClass | xtuml/model.py:270-276 | a fresh class object with the declared attributes and empty tables; every other kind and all instances are untouched |
| Store.Defaults | xtuml/model.py:336-338 | every declared attribute gets its type's default, in declaration order, consuming one id per `unique_id` attribute; fails at the first type without a default |
| Store.CoerceTo | xtuml/model.py:341-346 | a value already of the named type is kept; otherwise the injected coercion decides; an unknown type name raises |
| Store.PositionalPairs | xtuml/model.py:340-346 | the first min(#declared, #positional) attributes, each paired with its coerced argument; extra arguments are ignored |
| Store.New | xtuml/model.py:323-333 | an unknown kind raises, or returns `None` when undefined classes are ignored, with no state change; a defined kind behaves as `Store.NewOf` |
| Store.NewOf | xtuml/model.py:333-356 | the class cache is cleared; the ids end as the attribute building left them, also when it fails; the call succeeds exactly when every declared type has a default and every positional argument converts; on success one id per `unique_id` attribute is consumed, the instance holds the built attributes, and its new handle is appended last to the kind's list; on failure no instance is added |
| Store.NewAttributes | xtuml/model.py:336-349 | named arguments are stored verbatim; other declared attributes hold their coerced positional argument or their default |
| Store.NewIsFresh | xtuml/model.py:351-356 | the new instance is none of the existing ones and is the last of its kind |
| Store.SetAttr | xtuml/model.py:221-227 | a write to an unknown name leaves the store unchanged; a write to a known name updates that slot and clears the class's entire cache |
| Store.NewKeepsDeclaredAttributes | xtuml/model.py:336-349 | after `new`, every declared attribute of every instance is present |
| Store.SetAttrKeepsDeclaredAttributes | xtuml/model.py:221-227 | attribute writes keep every declared attribute present |
| Store.DefineAssociation | xtuml/model.py:464-485 | succeeds exactly when both kinds are defined; files source-to-target under (target kind, rel_id, target phrase) and target-to-source under (source kind, rel_id, source phrase) |
| Store.SelectMany | xtuml/model.py:501-508 | the instances of the kind the condition keeps, each once, in creation order; empty for an unknown kind |
| Store.SelectAny | xtuml/model.py:487-499 | the first instance the condition keeps, `None` exactly when there is none |
| Store.SelectAnyIsFirstOfMany | xtuml/model.py:487-508 | `select_any` (and `select_one`) is the first element of `select_many` |
| Join.ReadAll | xtuml/model.py:444 | reads the source ids in order; the first unreadable one raises |
| Join.JoinPairs | xtuml/model.py:443-445 | the filter exists exactly when every `source.ids` attribute of the source reads; its keys are distinct and come from `target.ids` and the keyword filters |
| Join.JoinKeyOfPairs | xtuml/model.py:447 | the cache key is the set of pairs, failing exactly when some value is unhashable |
| Join.MatchAllMeaning | xtuml/model.py:429-435 | when the comparison loop finishes without raising, it accepts exactly the instances matching every pair of the key set, whatever order the pairs come in |
| Join.Scan | xtuml/model.py:429-437 | `_query` yields the matching instances in list order, cut to the first unless many |
| Join.SelectEndpoint | xtuml/model.py:439-453 | a target kind without instances gives an empty, uncached result; otherwise the cached entry under the key, or a fresh scan that is then cached; only that cache entry changes |
| Join.SelectEndpointMemoised | xtuml/model.py:447-453 | asking the same endpoint again from the store the first call left gives the same answer and the same store |
| Join.SelectEndpointFull | xtuml/model.py:439-453 | when every cache entry is a full match list, a many endpoint answers exactly the full match list under its key, and the caches stay full |
| Join.CachedScan | xtuml/model.py:447-453 | the answer is filed under its key and only that entry changes; in a coherent store it is the full match list or its first element, exactly the fresh scan's shape when not yet cached, and coherence is kept |
| Join.StoreEntryKeepsCoherent | xtuml/model.py:450-451 | filing a fresh scan's result keeps the cache coherent |
| Coherence.InitCoherent | xtuml/model.py:263-268 | the empty store is coherent |
| Coherence.DefineClassKeepsCoherent | xtuml/model.py:270-276 | defining a kind that has no instances keeps the cache coherent |
| Coherence.NewKeepsCoherent | xtuml/model.py:323-356 | `new` keeps every cache entry equal to a fresh scan, because it clears its class's cache first |
| Coherence.SetAttrKeepsCoherent | xtuml/model.py:221-227 | an attribute write keeps every cache entry equal to a fresh scan, because it clears its class's cache |
| Coherence.DefineAssociationKeepsCoherent | xtuml/model.py:464-485 | defining an association keeps the cache coherent |
| Coherence.MatchingAgrees | xtuml/model.py:429-435 | a scan depends only on the attributes of the instances it visits |
| Coherence.JoinIsSymmetric | xtuml/model.py:439-447 | with distinct ids on both ends and no extra filters, `b` is reached from `a` exactly when `a` is reached from `b` |
| Coherence.JoinPairsPlain | xtuml/model.py:443-445 | without extra filters and with distinct target ids, the filter is `target.ids` zipped with the source values |
| Navigation.Start | xtuml/model.py:25-39 | `None` starts from the empty set, an instance or fragment from a one-element set, a query set from itself; anything else raises |
| Navigation.Step | xtuml/model.py:44-46 | one child's share of a hop: a fragment has no association table, a missing table entry raises; in a coherent store the result is the full match list or its first element, exactly the fresh scan when not yet cached |
| Navigation.StepFull | xtuml/model.py:439-453 | when every cache entry is a full match list, a child's share of a many hop is exactly the instances its key matches |
| Navigation.StepIsMemoised | xtuml/model.py:450-453 | answering a hop twice gives the same instances and the second time changes nothing |
| Navigation.HopAll | xtuml/model.py:45-49 | the union over the children in binding order: what came before stays a prefix, only caches change, coherence is kept |
| Navigation.HopAllBounds | xtuml/model.py:45-49 | in a coherent store a hop yields at least every child's first match and at most all of their matches |
| Navigation.HopAllExact | xtuml/model.py:45-49 | when caches are full and every target is many, a hop over the children is exactly the union, in order, of every child's matches (`Fanout`) |
| Navigation.Walk | xtuml/model.py:41-51 | every hop in order, each over the set the previous hop produced, keeping coherence |
| Navigation.Finish | xtuml/model.py:65-70 | a many chain gives the filtered query set; a one chain gives the first kept element, or `None` |
| Navigation.FinishOneIsFirstOfMany | xtuml/model.py:65-70 | the one form is the first element of the many form |
| Navigation.Navigate | xtuml/model.py:23-83 | start, hops and final call, with the start's error for a value that cannot be navigated |
| Navigation.NavigateMany | xtuml/model.py:65-82 | a value that cannot start a chain raises with the store unchanged; the answer is always a query set; with no hops it is the start set filtered by `where`, empty for `None` |
| Navigation.NavigateAny | xtuml/model.py:65-78 | a value that cannot start a chain raises; the answer is `None` or an element `where` keeps; with no hops it is the first kept element of the start set, `None` when there is none |
| Navigation.NavigateOneHop | xtuml/model.py:41-70 | a one-hop many chain answers only kept instances matched from some start element, and includes every kept first match |
| Navigation.NavigateOneHopExact | xtuml/model.py:41-70 | with full caches and many targets, a one-hop many chain answers exactly the kept elements of the in-order union of all matches |
| Navigation.WalkIgnoresMany | xtuml/model.py:41-51 | the hops do not depend on whether the chain ends in a set |
| Navigation.NavigateAnyIsFirstOfMany | xtuml/model.py:73-83 | `navigate_any` / `navigate_one` answer with the first element of what `navigate_many` answers |
| Runtime.Emitted | xtuml/rsl/runtime.py:251-265 | one trailing backslash is dropped with no newline; two leave one and add a newline; three leave one with no newline; otherwise a newline is added unless the line already ends with one |
| Runtime.EmittedEndsLine | xtuml/rsl/runtime.py:251-265 | a line with zero or two trailing backslashes always ends its text with a newline |
| Runtime.BufferLiteral | xtuml/rsl/runtime.py:251-265 | the buffer only grows: the old buffer is a prefix and the appended text is the line's text |
| Runtime.ContinuationJoins | xtuml/rsl/runtime.py:251-265 | a line ending in one backslash joins the next: buffering both equals buffering their concatenation without the backslash |
| Runtime.ClearBuffer | xtuml/rsl/runtime.py:327-330 | returns the old buffer and leaves the buffer empty |
| Runtime.BufferThenClear | xtuml/rsl/runtime.py:327-330 | clearing, buffering one line and clearing again hands out exactly that line's text |
| Runtime.DefineFunction | xtuml/rsl/runtime.py:198-199 | the name is bound and every other function is kept |
| Runtime.AttrName | xtuml/rsl/runtime.py:212-213 | the renamed key is the text after `attr_` up to the next `attr_` |
| Runtime.AttrNameRoundTrip | xtuml/rsl/runtime.py:212-213 | `attr_<n>` is renamed to `<n>` when `<n>` has no `attr_` inside |
| Runtime.ReturnPairsFrom | xtuml/rsl/runtime.py:211-214 | every returned pair is a renamed `attr_` entry of the function's dictionary |
| Runtime.ReturnPairsHas | xtuml/rsl/runtime.py:211-214 | every `attr_` entry of the function's dictionary is returned under its new name |
| Runtime.InvokeFunction | xtuml/rsl/runtime.py:201-218 | an undefined name raises; a result renamed to `self` raises `TypeError`, because `Fragment.__init__` (runtime.py line 66) already binds `self`; in every case the state, buffer included, ends as before; on success the fragment has exactly `body` plus the renamed `attr_` keys, `body` holding the buffered text unless an `attr_body` overrides it |
| Runtime.InvokeReturnsAttribute | xtuml/rsl/runtime.py:210-218 | the call succeeds exactly when no result is renamed to `self` (so `attr_self` raises), and then a function's `attr_<n>` result is the fragment's attribute `<n>` |
| Runtime.InvokeAfterDefine | xtuml/rsl/runtime.py:198-218 | invoking a just-defined function builds the fragment from that function's text and renamed results, or raises `TypeError` when one of them is renamed to `self` |
| Runtime.InvokeSelfRaises | xtuml/rsl/runtime.py:210-218 | a function returning `attr_self` makes `invoke_function` raise `TypeError`, with the runtime state as before |
| Runtime.SelectManyIn | xtuml/rsl/runtime.py:351-356 | a non-iterable raises; otherwise exactly the kept elements, each once, in order of first occurrence in the iteration |
| Runtime.Iterate | xtuml/rsl/runtime.py:353 | `iter` of a query set yields its elements in order, of a string its one-character strings; anything else raises |
| Runtime.SelectAnyIn | xtuml/rsl/runtime.py:359-362 | a non-iterable raises; otherwise the first kept element, or `None` |
| Runtime.SelectOneIn | xtuml/rsl/runtime.py:365-372 | cardinality above 1 raises with that cardinality; otherwise it behaves as `select_any_in` |
| Runtime.SelectAnyInIsFirstOfMany | xtuml/rsl/runtime.py:351-362 | `select_any_in` is the first element of `select_many_in` |
| Runtime.SelectOneInSmallSets | xtuml/rsl/runtime.py:365-372 | a set of at most one element answers as `select_any_in`, a larger one raises, and `None` (cardinality 0) is not iterable |
| Runtime.SelectAnyFrom | xtuml/rsl/runtime.py:338-341 | equals the meta model's `select_any` with the same condition |
| Runtime.SelectManyFrom | xtuml/rsl/runtime.py:343-348 | equals the meta model's `select_many` with the same condition |
| Runtime.CastToSet | xtuml/rsl/runtime.py:228-233 | a query set is returned unchanged; anything else, `None` included, becomes a one-element set |
| Runtime.CastToSetIdempotent | xtuml/rsl/runtime.py:228-233 | casting twice is casting once; a non-set becomes a set of cardinality 1 |
| Runtime.TitleAfter | xtuml/rsl/runtime.py:174 | `str.title()`: a letter is upper-cased after a non-letter and lower-cased after a letter; other characters are kept |
| Runtime.TitleIdempotent | xtuml/rsl/runtime.py:174 | title-casing twice is title-casing once |
| Runtime.SubSpace | xtuml/rsl/runtime.py:176-177 | after replacing whitespace runs by a whitespace-free text no whitespace is left; text without whitespace is unchanged |
| Runtime.SubSpaceCollapsesRuns | xtuml/rsl/runtime.py:176-177 | `re.sub(r'\s+', rep, s)` equals the character-at-a-time reference `CollapseRuns`: each maximal whitespace run is replaced by exactly one copy of `rep`, other characters are copied |
| Runtime.SubSpaceRun | xtuml/rsl/runtime.py:176-177 | a whole whitespace run between non-whitespace text becomes one `rep`, whatever its length |
| Runtime.SubSpaceEmptyRemoves | xtuml/rsl/runtime.py:177 | the `r` substitution removes exactly the whitespace characters (reference `NoSpaces`) |
| Runtime.Camel | xtuml/rsl/runtime.py:163-170 | the `o` result is the word characters of the title-cased text (underscores made spaces), in order, with only the first one lower-cased; so only letters and digits remain and the first is never upper-case |
| Runtime.CamelExample | xtuml/rsl/runtime.py:163-170 | `o` turns `ab_cd` into `abCd` |
| Runtime.ApplyOp | xtuml/rsl/runtime.py:172-184 | a format letter fails exactly when its lower-case form is not one of `u c l _ r t o` |
| Runtime.FormatString | xtuml/rsl/runtime.py:182-186 | an empty format gives the text; the result fails exactly when some letter is unknown, and then names the FIRST unknown letter (`FirstUnknown`) in lower case |
| Runtime.FirstUnknown | xtuml/rsl/runtime.py:183-184 | the position of the first format letter the table does not know: every earlier letter is known, and the letter there is not |
| Runtime.FormatStringComposes | xtuml/rsl/runtime.py:183-184 | letters apply left to right: formatting with `f1 + f2` is formatting with `f1`, then with `f2` |
| Runtime.FormatStringIgnoresCase | xtuml/rsl/runtime.py:184 | a format and its upper- or lower-cased version give the same result |
| Runtime.FormatStringSameLetters | xtuml/rsl/runtime.py:183-184 | two formats that agree letter by letter after lower-casing give the same result, errors included |
| Runtime.CaseOpsIdempotent | xtuml/rsl/runtime.py:173-175 | `uu`, `ll` and `cc` equal `u`, `l` and `c` |
| Runtime.WhitespaceOpsSettle | xtuml/rsl/runtime.py:176-177 | `_` equals the run-collapsing reference with one `_` per whitespace run and leaves no whitespace; `r` drops exactly the whitespace characters; applying either twice equals applying it once |
| Runtime.SingleLetterOps | xtuml/rsl/runtime.py:172-184 | `t` is the identity and `u` / `l` change case, in either letter case; an unknown letter raises |
| Runtime.LineOf | xtuml/rsl/runtime.py:190 | the captured group is a prefix without newline, stopping at a newline or at the end |
| Runtime.ParseKeyword | xtuml/rsl/runtime.py:188-196 | absent `keyword:` gives `''`; otherwise the text right after the first `keyword:` up to the next newline or the end; never a newline |
| Runtime.ParseKeywordRoundTrip | xtuml/rsl/runtime.py:188-196 | `keyword:value` followed by a newline or the end yields `value` |
| Runtime.RtTypeName | xtuml/rsl/runtime.py:415-419 | Fragment subclasses are `frag_ref`; other types are named by the meta model |
| Runtime.RtNamedType | xtuml/rsl/runtime.py:421-425 | `frag_ref` is Fragment; other names go to the meta model, failing on unknown names |
| Runtime.RtNamedTypeRoundTrip | xtuml/rsl/runtime.py:415-425 | the runtime's `type_name` inverts its `named_type` on every known name |
| Runtime.AssertType | xtuml/rsl/runtime.py:410-413 | passes exactly when the expected name is the value's type name, and otherwise raises naming both |
| Runtime.AssertTypeNames | xtuml/rsl/runtime.py:410-425 | a fragment is a `frag_ref` and not an `inst_ref`; instances and `None` are `inst_ref`; a bool is `boolean` and not `integer` |

## Left out

- Runtime I/O and environment are not modelled because they depend on the outside world:
  - `Info` (clock, login name, platform);
  - environment variables and shell commands;
  - `file_read` / `file_write`, `emit_buffer` / `append_diff`;
  - `invoke_print` / `invoke_exit`;
  - `compile` and its include cache (RSL parser and Python bytecode).
- `Runtime.chain` is not modelled: it calls `metamodel.chain`, which `xtuml/model.py` does not define.
- `Runtime.new` is not modelled separately: it forwards to the meta model's `new` (`Store.New`).
- `string_to_integer`, `string_to_real`, `integer_to_string`, `real_to_string` and `boolean_to_string` are not modelled: they are Python number parsing and printing.
- Runtime.InvokeFunction: template functions are modelled as pure functions returning (buffered text, result dictionary). A function that raises, nests buffers, or returns something other than a dictionary is not modelled.
- Runtime.FormatString: works on a string argument. `'%s' % expr` for numbers, instances and sets is Python's `str()` and is not modelled.
- Runtime.FormatString and Runtime.Camel: character classes are ASCII only. Unicode case mapping and the Unicode `\w` / `\s` classes are not modelled.
- Runtime.ParseKeyword: the keyword is matched literally. Keywords containing regular-expression metacharacters are not modelled.
- Store.CoerceTo: `Type(value)` for a value not already of the type is an injected partial function, not Python's `int()`, `float()` or `str()`.
- Floats are opaque reals: `Values.Norm` identifies an integral real with the integer, and no float arithmetic is modelled.
- Ids.NextIsFresh: uuid randomness is an injected infinite source. Freshness is proved only for a non-repeating source.
- Fragment construction is not modelled as a store operation. It bypasses the class cache, and a fragment's `__q__` and `__c__` are `None`; navigating from a fragment subscripts that `None` and is modelled as the resulting `TypeError`.
- Fragment attribute writes are not modelled; they would reach the `None` cache.
- Values.PyEquals: fragments compare by their attributes, while the source compares them by identity. Membership in an `OrderedSet` is structural, so `1` and `1.0` are two keys where Python's dictionary holds one. Query sets nested inside query sets compare structurally; Python cannot build those, because a query set is unhashable.
- OrderedSets.Add, OrderedSets.FromSeq, OrderedSets.AddAll and OrderedSets.Union: membership is structural equality of model values, so `1`, `1.0` and `True` are three keys, where the Python dictionary behind `OrderedSet` holds one key for all three.
- Coherence.DefineClassKeepsCoherent: requires the kind to have no instances yet. Redefining a kind that has instances leaves them on the old class object, and the cache invariant as stated does not survive that.
- Store.DefineAssociation: relationship ids are kept as given. An integer id is stored as an integer, while a hop looks up `'R<n>'`, so such an association is never found by an integer hop (as in the source).
- Objects.ReadAttr and Objects.WriteAttr: names are compared after ASCII lower-casing (`Text.Lower`). Python's `str.lower` also folds non-ASCII letters, which the model leaves unchanged.
- Associations.IsMany and Associations.IsConditional: the cardinality is upper-cased for ASCII letters only, while Python's `str.upper` also maps non-ASCII letters.
- Store.SelectMany, Store.SelectAny, Navigation.Finish and the runtime selects: a `where` condition is a total, pure `Value -> bool`. A condition that raises or has side effects is not modelled.
- Join.SelectEndpoint: a join attribute named `kind`, `many` or `self` reaches `_query(self, kind, many, **kwargs)` as a keyword that collides with a parameter, and Python raises `TypeError`. The model joins on such a name like any other.
- MetaTypes.TypeName and MetaTypes.NamedType: the id type is fixed to the uuid class. The source uses `type(id_generator.peek())`, so a generator producing other values would change which type `unique_id` names.
- `getattr` falling through to ordinary methods (`__getattr__` on a name that is a method) is not modelled: instances hold only attribute values.
- Navigation.NavigateOneHop: states bounds, not exact contents, for an arbitrary coherent store. The class cache is keyed by the filter alone, not by `many`, so an entry filed by a one-valued endpoint holds only the first match, and a later many-valued hop with the same filter reads that cut list. Exact contents (`Navigation.NavigateOneHopExact`, `Navigation.HopAllExact`, `Join.SelectEndpointFull`) are proved only when every cache entry holds the full match list and every target end is many.
- Navigation.NavigateMany and Navigation.NavigateAny: exact contents are stated for chains of no hops and of one hop. Longer chains are covered by `Navigation.Walk` (hop by hop, keeping coherence) and `Navigation.NavigateAnyIsFirstOfMany`, not by a closed form.
- Logging and `__str__` / `__repr__` are not modelled.

## Findings

| source | as written | input that shows it | evidently intended | confidence | as-written member | corrected member |
|---|---|---|---|---|---|---|
| xtuml/model.py:145 | `next[1] = prev` indexes the builtin function `next`, raising `TypeError` after the key left the dictionary and the forward list, but before the backward list | `s = OrderedSet([1, 2]); s.discard(1)` raises, after which `len(s) == 1` but `list(reversed(s)) == [2, 1]`; `s.pop()` on any non-empty set raises | `next_[1] = prev`, unlinking the node in both directions | not executed | LinkedOrderedSet.DiscardAsWrittenCorrupts | LinkedOrderedSet.DiscardIntendedCoherent |
