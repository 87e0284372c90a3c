# nonulls, modelled in Dafny

nonulls is a small Java library for keeping `null` out of decoded data. It
has two halves, and this project models both:

- **The null-path validators.** A walk over an object graph that reports
  the path of every `null` slot it can reach. Paths look like `root`,
  `root.field`, `root[3]`, `root.key[k]` and `root[k]`.
  - There are two walkers. The newer one (package `validator`) has a plug-in
    handler registry and treats `java.*` classes and enums as leaves. The
    older one (package `validation`) has neither.
  - Around them sit `assertNoNulls` and `hasNoNulls`, the Vavr adapters
    (`Try`, `Either`, `Option`, `Validation`), the Vavr handler, and
    `NullsFoundException` with its message format.
- **The Jackson 2 and Jackson 3 modules.**
  - Post-decode filters drop `null` and blank strings from collections and
    arrays, and `null` values from maps.
  - Token-level `List`, `Set` and `Map` decoders skip `null` and blank tokens.
  - The "empty-aware" `Optional` decoders turn `null` or blank text into an
    empty `Optional`.
  - The three-way `Result` (`Success`, `InvalidJson`, `NullsFound`) and the
    decoder that produces it.
  - The null-validating decoder, which fails instead.
  - The module builders and what each flag registers.

## How the model is built

**The object graph.**
- The heap is a `map<NodeId, Node>`, and a slot is `Ref = Null | Ptr(id)`.
- The node kinds are: leaf, `Optional`, `Collection`, array, `Map`,
  record, plain object (fields class by class), and three Vavr kinds.
- Java object identity is the node id.
- An `Optional` holds a node id or nothing, because a Java `Optional`
  never holds `null`.

**The walk.**
- `collectNullPaths` is `Walker.Walk`. It threads a visited set and the list
  of found paths.
- It terminates by the lexicographic measure (unvisited ids, remaining
  children).
- Every dispatch branch of the Java code has the same shape: "walk each
  child, in order, at `path + step`". So a node's children are a sequence of
  `Edge(target, step)` values.
- A handler's `validate`, which calls back into the walker, is modelled as
  the sequence of callback invocations it makes.

**The main theorem.** `WalkerTheory.FindNullPathsEmptyIff` says the walk
reports nothing exactly when no `null` is reachable through child edges.
Every reported path also names a genuine chain of steps that ends at a
`null`.

**The map decoders.** The object loop of the token-level `Map` decoders
(`TokenDecoders.DecodeMap`) is a fold of `LinkedHashMap.put` over the
fields. It is matched by a key-by-key reference (`TokenDecoders.MapByLastWrite`):
- each written key appears at the position of its first write;
- it holds the value of its last write;
- keys last written `null` are left out.

`TokenDecoders.DecodeMapIsLastWrite` proves the two equal for every input,
in both versions.

**Exceptions.** Java exceptions are the `Abrupt` side of
`Completion<T, E> = Normal(value) | Abrupt(thrown)`. Parsers, Jackson
decoders for element types and `toString` are function parameters.

## Model

| member | source | states |
|---|---|---|
| `Walker.FirstHandlerFrom` | validator/src/main/java/net/vanfleteren/nonulls/validator/NullValidator.java:95-101 | The chosen handler is the first in registry order whose `canHandle` accepts the node. No handler is chosen exactly when none accepts it. |
| `Walker.Walk` | validator/src/main/java/net/vanfleteren/nonulls/validator/NullValidator.java:74-211 | The walk only ever adds to the visited set, and only ids the heap holds. It never removes or reorders an earlier finding (no early exit). Every path it adds extends the path of the slot being walked. |
| `Walker.WalkEdges` | validator/src/main/java/net/vanfleteren/nonulls/validator/NullValidator.java:110-117 | Walking the children in order has the same laws, sharing one visited set and one path list. |
| `Walker.FindNullPaths` | validator/src/main/java/net/vanfleteren/nonulls/validator/NullValidator.java:54-59 | Every reported path is anchored at "root". |
| `WalkerTheory.FindNullPathsEmptyIff` | validator/src/main/java/net/vanfleteren/nonulls/validator/NullValidator.java:67-69 | The path list is empty if and only if no `null` slot is reachable from the root through child edges. This holds for both walker versions and for any handler registry. |
| `WalkerTheory.FindNullPathsGenuine` | validator/src/main/java/net/vanfleteren/nonulls/validator/NullValidator.java:54-59 | Every reported path is "root" followed by the steps of a chain of child edges that ends at a `null` slot. |
| `WalkerTheory.NullRootReported` | validator/src/main/java/net/vanfleteren/nonulls/validator/NullValidator.java:75-78 | A `null` root yields exactly `["root"]`. |
| `WalkerTheory.VisitedContributesNothing` | validator/src/main/java/net/vanfleteren/nonulls/validator/NullValidator.java:81-85 | An identity already visited leaves both accumulators unchanged. |
| `WalkerTheory.LegacyIsCurrentWithoutHandlers` | validator/src/main/java/net/vanfleteren/nonulls/validation/NullValidator.java:34-138 | The older walker reports the same paths as the newer one with an empty registry, on every heap without `java.*` or enum objects. |
| `WalkerTheory.JdkAndEnumAreLeaves` | validator/src/main/java/net/vanfleteren/nonulls/validator/NullValidator.java:155-162 | For an unclaimed `java.*` or enum object, the newer walker visits no children, while the older walker walks its fields. |
| `WalkerTheory.HandlerPrecedence` | validator/src/main/java/net/vanfleteren/nonulls/validator/NullValidator.java:95-101 | Once the first accepting handler is found, its callback invocations alone are the node's children. Built-in dispatch is skipped. |
| `WalkerTheory.LeafHasNoChildren` | validator/src/main/java/net/vanfleteren/nonulls/validator/NullValidator.java:90-92 | A wrapper, `Number` or `String` has no children under either walker, whatever the registry holds. |
| `WalkerTheory.UnclaimedUsesBuiltIn` | validator/src/main/java/net/vanfleteren/nonulls/validator/NullValidator.java:94-104 | When no handler accepts a node, its children are those of the built-in dispatch, as if the registry were empty. |
| `Edges.IndexEdgesFrom` | validator/src/main/java/net/vanfleteren/nonulls/validator/NullValidator.java:170-177 | Collection and array element `i` is walked at `[i]`, counting every element from 0 in iteration order. |
| `Edges.IndexStepInjective` | validator/src/main/java/net/vanfleteren/nonulls/validator/NullValidator.java:174 | Distinct indices give distinct `[i]` steps, so two elements of one collection never share a path. |
| `Edges.MapEdges` | validator/src/main/java/net/vanfleteren/nonulls/validator/NullValidator.java:119-125 | Map entry `i` contributes two children, in this order: the key at `.key[<key text>]`, then the value at `[<key text>]`. A `null` key renders as "null". |
| `Edges.RecordEdges` | validator/src/main/java/net/vanfleteren/nonulls/validator/NullValidator.java:127-152 | Record component `i` is walked at `.<name>`, in declaration order. |
| `Edges.LevelEdgesExactly` | validator/src/main/java/net/vanfleteren/nonulls/validation/NullValidator.java:111-137 | Within one class, an edge is walked if and only if it comes from a field that is neither static nor synthetic, at `.<field name>`. |
| `Edges.FieldEdgesExactly` | validator/src/main/java/net/vanfleteren/nonulls/validator/NullValidator.java:181-210 | Across the class chain (inherited fields included), the walked edges are exactly the non-static, non-synthetic fields of every level. |
| `VavrHandler.VavrMapEdgesFrom` | validator-vavr/src/main/java/net/vanfleteren/nonulls/validator/vavr/spi/VavrTypeValidator.java:29-38 | Vavr map entry `i` puts its key at `.key[i]`, a position rather than the key text, and its value at `[<key text>]`. |
| `VavrHandler.SameSlotEdges` | validator-vavr/src/main/java/net/vanfleteren/nonulls/validator/vavr/spi/VavrTypeValidator.java:50 | Each item a Vavr `Value` holds is walked at the unchanged path. |
| `VavrHandler.VavrMapChildren` | validator-vavr/src/main/java/net/vanfleteren/nonulls/validator/vavr/spi/VavrTypeValidator.java:29-38 | With the handler registered, a Vavr map's children are exactly its entries, as key at `.key[i]` and value at `[key]`. Its fields are not walked. |
| `VavrHandler.VavrTraversableChildren` | validator-vavr/src/main/java/net/vanfleteren/nonulls/validator/vavr/spi/VavrTypeValidator.java:40-48 | Any other Vavr `Traversable` has its element `i` at `[i]`, counted from 0. |
| `VavrHandler.VavrValueTransparent` | validator-vavr/src/main/java/net/vanfleteren/nonulls/validator/vavr/spi/VavrTypeValidator.java:50 | Walking a Vavr `Value` is walking its contents at the same path, with the value itself marked visited. |
| `VavrHandler.EmptyVavrValueSilent` | validator-vavr/src/test/java/net/vanfleteren/nonulls/validator/vavr/spi/NullValidatorVavrTest.java:83-88 | An empty Vavr `Value` (`None`) adds no path. |
| `VavrHandler.FallbackContributesNothing` | validator-vavr/src/main/java/net/vanfleteren/nonulls/validator/vavr/spi/VavrTypeValidator.java:51-55 | The fallback branch hands the already-visited object back to the walker, and this contributes nothing. |
| `VavrHandler.ClaimsExactlyVavr` | validator-vavr/src/main/java/net/vanfleteren/nonulls/validator/vavr/spi/VavrTypeValidator.java:18-20 | As the first handler, it claims a node exactly when the node is a Vavr `Traversable` or `Value`. |
| `Validators.RaiseIfAny` | validator/src/main/java/net/vanfleteren/nonulls/validation/NullValidator.java:26-28 | Returns normally exactly for an empty list. Otherwise it throws, carrying the whole list. |
| `Validators.AssertNoNulls` | validator/src/main/java/net/vanfleteren/nonulls/validator/NullValidator.java:39-46 | Returns its own argument exactly when no `null` is reachable. Otherwise it throws `NullsFoundException` with every path, a non-empty list. |
| `Validators.HasNoNulls` | validator/src/main/java/net/vanfleteren/nonulls/validator/NullValidator.java:67-69 | True exactly when no `null` is reachable, which is exactly when `assertNoNulls` does not throw. |
| `Validators.LegacyAssertNoNulls` | validator/src/main/java/net/vanfleteren/nonulls/validation/NullValidator.java:23-29 | The older void `assertNoNulls` returns exactly when no `null` is reachable under the older walker. Otherwise it throws with that walker's paths. |
| `Validators.LegacyHasNoNulls` | validator/src/main/java/net/vanfleteren/nonulls/validation/NullValidator.java:146-153 | The older `hasNoNulls` is true exactly when the path list is empty, and so exactly when no `null` is reachable. |
| `Validators.NullArgumentRejected` | validator/src/test/java/net/vanfleteren/nonulls/validator/NullValidatorEdgeCasesTest.java:23-26 | A `null` argument is rejected with exactly `["root"]` by both validators. |
| `VavrAdapters.OptionOf` | validator-vavr/src/main/java/net/vanfleteren/nonulls/validator/vavr/NullValidator.java:48 | Vavr's `Option.of` is present exactly for a non-`null` reference, and then holds that reference. |
| `VavrAdapters.TryAssertNoNulls` | validator-vavr/src/main/java/net/vanfleteren/nonulls/validator/vavr/NullValidator.java:18-27 | `Success` of the unchanged value if and only if there are no paths. Otherwise `Failure` carrying the same paths in the same order. |
| `VavrAdapters.AssertNoNullsEither` | validator-vavr/src/main/java/net/vanfleteren/nonulls/validator/vavr/NullValidator.java:32-41 | `Right` of the value if and only if there are no paths. Otherwise `Left` of exactly the paths. |
| `VavrAdapters.WhenNoNulls` | validator-vavr/src/main/java/net/vanfleteren/nonulls/validator/vavr/NullValidator.java:46-52 | `Some` of the value if and only if `hasNoNulls`. Otherwise `None`. |
| `VavrAdapters.Validate` | validator-vavr/src/main/java/net/vanfleteren/nonulls/validator/vavr/NullValidator.java:57-66 | `Valid` of the value if and only if there are no paths. Otherwise `Invalid` of exactly the paths. |
| `VavrAdapters.AdaptersAgree` | validator-vavr/src/main/java/net/vanfleteren/nonulls/validator/vavr/NullValidator.java:18-66 | All four adapters succeed on the same inputs, exactly those with no reachable `null`. Their failures carry the same paths. |
| `VavrAdapters.NullArgumentFails` | validator-vavr/src/main/java/net/vanfleteren/nonulls/validator/vavr/NullValidator.java:19-25 | Every adapter fails on a `null` argument, reporting `["root"]`. |
| `VavrAdapters.LegacyTryAssertNoNulls` | vavr-support/src/main/java/net/vanfleteren/nonulls/validation/vavr/NullValidator.java:16-23 | `Success` of the unchanged value exactly when the older `assertNoNulls` returns. Otherwise `Failure` with the caught exception's paths. |
| `VavrAdapters.LegacyWhenNoNulls` | vavr-support/src/main/java/net/vanfleteren/nonulls/validation/vavr/NullValidator.java:28-34 | `Some` of the value exactly when the older `hasNoNulls` holds. |
| `VavrAdapters.LegacyValidate` | vavr-support/src/main/java/net/vanfleteren/nonulls/validation/vavr/NullValidator.java:39-45 | This is a fold of the `Try` adapter. It is `Valid` of the value exactly when the `Try` succeeds, and otherwise `Invalid` with exactly the failure's paths. |
| `VavrAdapters.LegacyAdaptersAgree` | vavr-support/src/main/java/net/vanfleteren/nonulls/validation/vavr/NullValidator.java:16-45 | The three older adapters succeed on the same inputs, exactly those with no reachable `null` under the older walker. Their failures carry that walker's paths. |
| `VavrAdapters.LegacyMatchesCurrentWithoutHandlers` | vavr-support/src/main/java/net/vanfleteren/nonulls/validation/vavr/NullValidator.java:18 | On heaps without `java.*` or enum objects, the older adapters give the same results as the newer ones with an empty registry. |
| `Exceptions.NewNullsFoundException` | validator/src/main/java/net/vanfleteren/nonulls/validation/NullsFoundException.java:12-15 | A `null` path list is rejected with a `NullPointerException`. Otherwise `getNullPaths` is exactly the given list. |
| `Exceptions.MessageStartsWithPrefix` | validator-vavr/src/main/java/net/vanfleteren/nonulls/validation/vavr/NullsFoundException.java:19-21 | The message starts with "Null value(s) found at: ". For an empty list it is exactly that prefix. |
| `Exceptions.MessageListsEveryPath` | validator/src/main/java/net/vanfleteren/nonulls/validation/NullsFoundException.java:17-19 | Path `i` appears verbatim in the message, right after the prefix, at its offset in the joined list. |
| `Exceptions.MessageSeparatesPaths` | validator-vavr/src/main/java/net/vanfleteren/nonulls/validation/vavr/NullsFoundException.java:20 | Consecutive paths are separated by exactly ", ". |
| `Exceptions.MessageLength` | validator/src/main/java/net/vanfleteren/nonulls/validation/NullsFoundException.java:18 | The message ends right after the last path: it holds nothing but the prefix and the joined list. |
| `JsonValues.ValueAsString` | jackson2/src/main/java/net/vanfleteren/nonulls/jackson2/internal/NullFilteringListDeserializer.java:58-64 | A `null` token has no text, and a string token's text is its string. |
| `JsonValues.KeptElems` | jackson3/src/main/java/net/vanfleteren/nonulls/jackson3/internal/FilteringCollectionsModifier.java:70-72 | Every kept element comes from the input and is neither `null` nor, with the flag, a blank string. |
| `JsonValues.KeptElemsIdempotent` | jackson3/src/main/java/net/vanfleteren/nonulls/jackson3/internal/FilteringCollectionsModifier.java:76-82 | Filtering an already filtered collection changes nothing, so a merge into a filtered target only filters what is new. |
| `JsonValues.KeptElemsCount` | jackson2/src/main/java/net/vanfleteren/nonulls/jackson2/FilteringCollectionDeserializer.java:27-35 | A dropped element is removed every time it occurs. Every other element keeps its exact number of occurrences, so nothing else is removed. |
| `JsonValues.KeptElemsConcat` | jackson2/src/main/java/net/vanfleteren/nonulls/jackson2/internal/FilteringArrayDeserializer.java:28-33 | The filter works element by element: filtering a concatenation concatenates the filtered parts, which preserves relative order. |
| `JsonValues.BlankSurvivesWithoutFlag` | jackson2/src/main/java/net/vanfleteren/nonulls/jackson2/FilteringCollectionDeserializer.java:33 | For every element list: with the flag off, exactly the `null`s go. With it on, the blank strings also go from what is left. |
| `CollectionFilters.FilterCollection` | jackson3/src/main/java/net/vanfleteren/nonulls/jackson3/internal/FilteringCollectionsModifier.java:65-73 | A decoded `Collection` keeps exactly its elements that are neither `null` nor blank (with the flag). Any other value is returned unchanged. |
| `CollectionFilters.CopyKept` | jackson2/src/main/java/net/vanfleteren/nonulls/jackson2/internal/FilteringArrayDeserializer.java:26-33 | The copying loop yields exactly the kept elements in index order, none of them `null` or (with the flag) blank. |
| `CollectionFilters.FilterArray` | jackson2/src/main/java/net/vanfleteren/nonulls/jackson2/internal/FilteringArrayDeserializer.java:23-37 | A `null` decode fails on `getClass()`, and a non-array is returned unchanged. An array becomes a new array of the same component type holding only kept elements. |
| `CollectionFilters.FilterArrayLoop` | jackson2/src/main/java/net/vanfleteren/nonulls/jackson2/internal/FilteringArrayDeserializer.java:23-36 | The wrapper with its two loops, the copying one being `CopyKept`, computes exactly `FilterArray` on every decoded value. |
| `CollectionFilters.FilterArrayAsWritten3` | jackson3/src/main/java/net/vanfleteren/nonulls/jackson3/internal/FilteringCollectionsModifier.java:106-119 | As written, the Jackson 3 array filter throws `ClassCastException` for any primitive array. Otherwise it agrees with the Jackson 2 filter. |
| `CollectionFilters.FilterArray3` | jackson3/src/main/java/net/vanfleteren/nonulls/jackson3/internal/FilteringCollectionsModifier.java:109-117 | The corrected Jackson 3 array filter, defined as the Jackson 2 filter `FilterArray`; what it then means (a same-component array of exactly the kept elements, in order) is `FilterArray`'s contract. |
| `CollectionFilters.PrimitiveArrayCastFails` | jackson3/src/main/java/net/vanfleteren/nonulls/jackson3/internal/FilteringCollectionsModifier.java:118 | For every `int[]`-style decode, the code as written throws, where the corrected filter returns the filtered array. |
| `CollectionFilters.ReferenceArraysUnaffected` | jackson3/src/test/java/net/vanfleteren/nonulls/jackson3/tests/UseCollectionsDirectlyScenarioTest.java:79-89 | For reference arrays and non-arrays, the code as written and the corrected filter agree. |
| `CollectionFilters.RemoveNullValues` | jackson3/src/main/java/net/vanfleteren/nonulls/jackson3/internal/FilteringMapModifier.java:36-44 | The entries kept are exactly those whose value is not `null`. Keys are never inspected. |
| `CollectionFilters.RemoveNullValuesKeepsClean` | jackson3/src/main/java/net/vanfleteren/nonulls/jackson3/internal/FilteringMapModifier.java:47-55 | A map without `null` values is left exactly as it is. |
| `CollectionFilters.FilterMap` | jackson2/src/main/java/net/vanfleteren/nonulls/jackson2/internal/FilteringMapModifier.java:38-46 | A decoded `Map` keeps exactly its entries with non-`null` values. Any other value is returned unchanged. |
| `CollectionFilters.FilterMapIf` | jackson2/src/main/java/net/vanfleteren/nonulls/jackson2/internal/FilteringMapDeserializer.java:25-31 | With the flag off the decoded map is returned unchanged. With it on, `null`-valued entries are removed. |
| `CollectionFilters.MapFilterKeepsBlanks` | jackson2/src/main/java/net/vanfleteren/nonulls/jackson2/internal/FilteringMapModifier.java:43 | For every map, each entry with a non-`null` value keeps its multiplicity, whatever its key and even with a blank string value. Each `null`-valued entry disappears. |
| `CollectionFilters.Route3Collections` | jackson3/src/main/java/net/vanfleteren/nonulls/jackson3/internal/FilteringCollectionsModifier.java:24-53 | Collection, collection-like and array decoders are wrapped, with blank-skipping on. Map, map-like and key decoders are left as they are. |
| `CollectionFilters.Route2Collections` | jackson2/src/main/java/net/vanfleteren/nonulls/jackson2/FilteringCollectionsModifier.java:14-50 | Routes collections, collection-like types and arrays exactly as the Jackson 3 modifier does. In addition, `Map` decoders are wrapped too, carrying the map flag fixed at construction. |
| `CollectionFilters.Route2Maps` | jackson2/src/main/java/net/vanfleteren/nonulls/jackson2/internal/FilteringMapModifier.java:22-27 | Exactly the `Map` decoders are wrapped, with the unconditional null-value filter. |
| `CollectionFilters.Route3Maps` | jackson3/src/main/java/net/vanfleteren/nonulls/jackson3/internal/FilteringMapModifier.java:17-25 | Exactly the map and map-like decoders are wrapped. |
| `CollectionFilters.Routed3CollectionsClean` | jackson3/src/main/java/net/vanfleteren/nonulls/jackson3/internal/FilteringCollectionsModifier.java:24-82 | With the corrected array filter (see Findings): whatever the inner decoder yields, a wrapped collection or array comes out without `null` or blank elements. Map decoders pass their output through untouched. |
| `CollectionFilters.Routed3ArraysAsWritten` | jackson3/src/main/java/net/vanfleteren/nonulls/jackson3/internal/FilteringCollectionsModifier.java:105-119 | The array wrapper as written throws `ClassCastException` on a primitive array. On every other value it does exactly what the routing above does. |
| `CollectionFilters.Routed2CollectionsClean` | jackson2/src/main/java/net/vanfleteren/nonulls/jackson2/FilteringCollectionsModifier.java:21-50 | The same for the Jackson 2 modifier. A map comes out without `null` values exactly when the map flag asks for it, and is otherwise untouched. |
| `CollectionFilters.RoutedMapsClean` | jackson2/src/main/java/net/vanfleteren/nonulls/jackson2/internal/FilteringMapModifier.java:38-57 | Both map modifiers deliver maps without `null` values. |
| `TokenDecoders.DecodeItems` | jackson3/src/main/java/net/vanfleteren/nonulls/jackson3/internal/NullFilteringListDeserializer.java:45-63 | Each decoded element is the decode of some input token that is neither `null` nor blank text. There are never more elements than tokens. With the null check on, no decoded `null` is kept. |
| `TokenDecoders.DecodeItemsReference` | jackson2/src/main/java/net/vanfleteren/nonulls/jackson2/internal/NullFilteringListDeserializer.java:52-72 | When no decode fails, the loop equals a pipeline: drop `null`/blank tokens, decode each in order, and (with the null check) drop `null` results. |
| `TokenDecoders.DecodeItemsFailure` | jackson3/src/main/java/net/vanfleteren/nonulls/jackson3/internal/NullFilteringListDeserializer.java:59-62 | The first element decode that throws ends the decode with that exception. |
| `TokenDecoders.DecodeList` | jackson2/src/main/java/net/vanfleteren/nonulls/jackson2/internal/NullFilteringListDeserializer.java:38-75 | A non-array start is a wrong-token error. With no element type nothing is added. Otherwise the result is the item loop. |
| `TokenDecoders.DecodeList2` | jackson2/src/main/java/net/vanfleteren/nonulls/jackson2/internal/NullFilteringListDeserializer.java:66-71 | The Jackson 2 list never holds a `null`, and rejects a non-array start. |
| `TokenDecoders.DecodeList3` | jackson3/src/main/java/net/vanfleteren/nonulls/jackson3/internal/NullFilteringListDeserializer.java:35-66 | The Jackson 3 list is the item loop with no null check on decoded elements. It rejects a non-array start. |
| `TokenDecoders.SkippedTokensNeverDecoded` | jackson2/src/main/java/net/vanfleteren/nonulls/jackson2/internal/NullFilteringListDeserializer.java:53-64 | `null` and blank-string tokens never reach the element decoder, in both versions. |
| `TokenDecoders.NullDecodeKeptOnlyBy3` | jackson3/src/main/java/net/vanfleteren/nonulls/jackson3/internal/NullFilteringListDeserializer.java:59-62 | An element decoder returning `null` is dropped by Jackson 2, but the `null` is kept by Jackson 3. |
| `TokenDecoders.AddToSet` | jackson2/src/main/java/net/vanfleteren/nonulls/jackson2/internal/NullFilteringSetDeserializer.java:66-71 | Adding to an insertion-ordered set leaves it unchanged for a present element, and appends a new one at the end. |
| `TokenDecoders.AddAllLaws` | jackson3/src/main/java/net/vanfleteren/nonulls/jackson3/internal/NullFilteringSetDeserializer.java:61-64 | Repeated adds keep the earlier order as a prefix, introduce no duplicate, and hold exactly the old and added elements. |
| `TokenDecoders.SetIsDeduplicatedList` | jackson3/src/main/java/net/vanfleteren/nonulls/jackson3/internal/NullFilteringSetDeserializer.java:37-68 | The set decode is the list decode, deduplicated in first-occurrence order. A failure is the same failure. |
| `TokenDecoders.DecodeSet` | jackson2/src/main/java/net/vanfleteren/nonulls/jackson2/internal/NullFilteringSetDeserializer.java:38-75 | The set decode succeeds exactly when the list decode does, has no duplicates, and holds exactly the list's elements. |
| `TokenDecoders.Put` | jackson2/src/main/java/net/vanfleteren/nonulls/jackson2/internal/NullFilteringMapDeserializer.java:70 | Putting maps the key to the new value, leaves every other key's lookup alone, keeps distinct keys, and grows by at most one entry. |
| `TokenDecoders.MapFieldStep` | jackson2/src/main/java/net/vanfleteren/nonulls/jackson2/internal/NullFilteringMapDeserializer.java:54-71 | One field stores at most its own key with a non-blank value, and never a `null` when the `null` check is on. |
| `TokenDecoders.FieldWrite` | jackson2/src/main/java/net/vanfleteren/nonulls/jackson2/internal/NullFilteringMapDeserializer.java:58-71 | A field writes only a non-blank value, and a `null` only in Jackson 3. A `null` or blank-string token with a non-`Optional` value type writes nothing and is never decoded. A failure is the missing value type's `NullPointerException` or the decoder's own exception. |
| `TokenDecoders.MapWrites` | jackson3/src/main/java/net/vanfleteren/nonulls/jackson3/internal/NullFilteringMapDeserializer.java:49-67 | The writes come in field order, at most one per field, none of them blank, and none `null` in Jackson 2. |
| `TokenDecoders.MapFields` | jackson3/src/main/java/net/vanfleteren/nonulls/jackson3/internal/NullFilteringMapDeserializer.java:49-67 | Every stored entry's key is some field's name, and its value is not blank. Keys stay distinct. |
| `TokenDecoders.MapFieldsAppend` | jackson2/src/main/java/net/vanfleteren/nonulls/jackson2/internal/NullFilteringMapDeserializer.java:54-72 | Fields are processed strictly in order: one more field is one more step on the map so far. |
| `TokenDecoders.DecodeMap` | jackson2/src/main/java/net/vanfleteren/nonulls/jackson2/internal/NullFilteringMapDeserializer.java:40-77 | A non-object start is a wrong-token error. The result has distinct keys, each the name of some field, and no `null` or blank values. The exact result is `TokenDecoders.DecodeMapIsLastWrite`. |
| `TokenDecoders.PutAllIsLastWrite` | jackson2/src/main/java/net/vanfleteren/nonulls/jackson2/internal/NullFilteringMapDeserializer.java:68-71 | The `LinkedHashMap.put`s of the loop leave each written key at the position of its first write, holding the value of its last write. |
| `TokenDecoders.DecodeMapIsLastWrite` | jackson2/src/main/java/net/vanfleteren/nonulls/jackson2/internal/NullFilteringMapDeserializer.java:40-77 | For every input and both versions, the decoder equals `MapByLastWrite`. That reference is built key by key: the first failing field's exception, or else every written key (blank keys included, since keys are never filtered) in first-write order with its last written value, less the keys last written `null`. |
| `TokenDecoders.DecodeMapLookup` | jackson3/src/main/java/net/vanfleteren/nonulls/jackson3/internal/NullFilteringMapDeserializer.java:49-71 | When no field fails, a key looks up the value of its last write if that is not `null`. A key never written, or last written `null`, is absent. |
| `TokenDecoders.DecodeMap2` | jackson2/src/main/java/net/vanfleteren/nonulls/jackson2/internal/NullFilteringMapDeserializer.java:40-77 | The Jackson 2 decoder is the key-by-key reference, and its final removal pass drops nothing: every written key is in the result. |
| `TokenDecoders.DecodeMap3` | jackson3/src/main/java/net/vanfleteren/nonulls/jackson3/internal/NullFilteringMapDeserializer.java:39-72 | The Jackson 3 decoder is the key-by-key reference, with a `null` decode written and its key then removed. |
| `TokenDecoders.FinalPassIdle2` | jackson2/src/main/java/net/vanfleteren/nonulls/jackson2/internal/NullFilteringMapDeserializer.java:74-75 | In Jackson 2 the final null-removal pass never removes anything. |
| `TokenDecoders.LastFieldWins2` | jackson2/src/main/java/net/vanfleteren/nonulls/jackson2/internal/NullFilteringMapDeserializer.java:68-71 | A repeated key with a kept value overwrites the earlier entry. |
| `TokenDecoders.LaterNullDecodeDiffers` | jackson3/src/main/java/net/vanfleteren/nonulls/jackson3/internal/NullFilteringMapDeserializer.java:63-70 | A later `null` decode for a repeated key is ignored by Jackson 2. In Jackson 3 it overwrites the entry and the final pass then removes it. |
| `TokenDecoders.OptionalValuesSeeNulls` | jackson3/src/main/java/net/vanfleteren/nonulls/jackson3/internal/NullFilteringMapDeserializer.java:53-61 | With an `Optional` value type, a `null` token is decoded and stored. Otherwise it is skipped. |
| `TokenDecoders.MissingValueTypeFails2` | jackson2/src/main/java/net/vanfleteren/nonulls/jackson2/internal/NullFilteringMapDeserializer.java:58-61 | Without a contextual value type, a `null` or string value token fails with `NullPointerException`. |
| `OptionalDecoders.StringOrEmpty` | jackson3/src/main/java/net/vanfleteren/nonulls/jackson3/internal/EmptyAwareOptionalDeserializer.java:45-50 | Present exactly for text that exists and is not blank, holding that exact text. |
| `OptionalDecoders.DecodeOptional` | jackson3/src/main/java/net/vanfleteren/nonulls/jackson3/internal/EmptyAwareOptionalDeserializer.java:34-57 | A `null` token is empty, and `String` content is empty-or-text. Other content is wrapped with `Optional.of`: a `null` decode, or a missing content type, fails, and a decoder exception propagates. It never yields a present `null`. |
| `OptionalDecoders.DecodeOptionalLenient` | jackson2/src/main/java/net/vanfleteren/nonulls/jackson2/EmptyAwareOptionalDeserializer.java:36-61 | The same, except that a missing content type gives empty and a `null` decode gives empty (`ofNullable`). It can fail only by the inner decoder's own exception. |
| `OptionalDecoders.DecodeOptionalString` | jackson2/src/main/java/net/vanfleteren/nonulls/jackson2/OptionalStringDeserializer.java:12-21 | What `deserialize` returns: present exactly for non-blank text, holding the text untrimmed; empty for a token with no text, empty or whitespace-only text. A JSON `null` read through Jackson never reaches it (see "Left out"). |
| `OptionalDecoders.NeverPresentBlank` | jackson2/src/main/java/net/vanfleteren/nonulls/jackson2/internal/EmptyAwareOptionalDeserializer.java:47-54 | With `String` content, neither decoder fails or yields a present blank string. |
| `OptionalDecoders.StringPathsAgree` | jackson2/src/main/java/net/vanfleteren/nonulls/jackson2/OptionalStringDeserializer.java:14-20 | The `deserialize` bodies of the `Optional<String>` decoder and of both `Optional` decoders with `String` content give the same result on every token. This is about direct `deserialize` calls, such as the map decoder makes; on a JSON `null` read through Jackson they part (see "Left out"). |
| `OptionalDecoders.StrictAndLenientAgree` | jackson2/src/main/java/net/vanfleteren/nonulls/jackson2/internal/EmptyAwareOptionalDeserializer.java:37-60 | The strict and lenient decoders agree whenever the content type is known and the inner decode is not `null`. On a `null` decode the strict one fails and the lenient one is empty. |
| `Results.NewSuccess` | jackson3/src/main/java/net/vanfleteren/nonulls/jackson3/api/Result.java:64-68 | Jackson 3's `Success` exists exactly for a non-`null` value. A `null` value throws `NullPointerException`. |
| `Results.ToOptional` | jackson3/src/main/java/net/vanfleteren/nonulls/jackson3/api/Result.java:57-62 | Present exactly for a `Success` of a non-`null` value, holding it. Empty exactly for a `Failure`. It throws only for `Success(null)`. |
| `Results.ValidateWith` | jackson3/src/main/java/net/vanfleteren/nonulls/jackson3/internal/ResultDeserializer.java:43 | Validation returns the decoded value exactly when no `null` is reachable, and otherwise throws with every path. |
| `Results.ValidateWithCurrentIsAssertNoNulls` | validator/src/main/java/net/vanfleteren/nonulls/validator/NullValidator.java:39-46 | With the newer walker, the validation step is the newer `assertNoNulls`. |
| `Results.DeserializeResult3` | jackson3/src/main/java/net/vanfleteren/nonulls/jackson3/internal/ResultDeserializer.java:36-49 | A `Success` produced by the Jackson 3 decoder never holds `null`. |
| `Results.DeserializeResult2` | jackson2/src/main/java/net/vanfleteren/nonulls/jackson2/internal/ResultDeserializer.java:38-51 | A `Success` produced by the Jackson 2 decoder never holds `null`, even though its `Success` does not check. |
| `Results.ResultOutcomes` | jackson3/src/main/java/net/vanfleteren/nonulls/jackson3/internal/ResultDeserializer.java:40-48 | Exactly one outcome per call, each if and only if: `Success` of the decoded value when it has no reachable `null`. `NullsFound` with every path when it has one, or when the decoder threw `NullsFoundException`. `InvalidJson` for a Jackson exception, unchanged. Any other exception propagates. |
| `Results.NullDecodeIsNullAtRoot` | jackson3/src/main/java/net/vanfleteren/nonulls/jackson3/internal/ResultDeserializer.java:41-47 | An element decoder that returns `null` for a non-`null` token makes the result `NullsFound` with exactly `["root"]`. |
| `Results.ReadResultAsWritten` | jackson3/src/main/java/net/vanfleteren/nonulls/jackson3/internal/ResultDeserializer.java:19-57 | As written: a JSON `null` yields no `Result` (Java `null`), because neither decoder overrides `getNullValue`. Any other input gives exactly the decoder's outcome (see Findings). |
| `Results.ReadResult` | jackson3/src/main/java/net/vanfleteren/nonulls/jackson3/api/Result.java:9-13 | Corrected: a JSON `null` is `NullsFound(["root"])`, and every read that returns yields exactly one of `Success` or `Failure`. It throws exactly when the element decoder throws an exception that is neither a Jackson one nor `NullsFoundException`. A `Success` holds the decoded value, which has no reachable `null`. |
| `Results.JsonNullGivesNoResult` | jackson2/src/main/java/net/vanfleteren/nonulls/jackson2/internal/ResultDeserializer.java:21-59 | On a JSON `null` the as-written read yields no `Result` where the corrected one yields a `Failure`. On every other input the two agree. |
| `Results.ResultsNeverHoldNull` | jackson2/src/main/java/net/vanfleteren/nonulls/jackson2/Result.java:40-53 | Every decoded `Result` is exactly one of success or failure, and `get`/`toOptional` never throws on it. |
| `Results.UncheckedSuccessFailsOnGet` | jackson2/src/main/java/net/vanfleteren/nonulls/jackson2/Result.java:48-55 | A hand-built Jackson 2 `Success(null)` throws in `get`. The Jackson 3 constructor rejects it. |
| `Results.DeserializeValidating` | jackson3/src/main/java/net/vanfleteren/nonulls/jackson3/internal/NullValidatingDeserializer.java:27-38 | A decode failure propagates. A decoded value is returned unchanged exactly when no `null` is reachable. Otherwise decoding fails with "Null validation failed: " followed by the validator's message. |
| `Results.ValidatingMessageListsPaths` | jackson2/src/main/java/net/vanfleteren/nonulls/jackson2/internal/NullValidatingDeserializer.java:30-31 | That failure message starts with both prefixes and names every `null` path verbatim at its offset. |
| `Results.ResultOverValidating` | jackson3/src/main/java/net/vanfleteren/nonulls/jackson3/internal/ResultDeserializer.java:44-47 | A `Result` over a null-validating decoder never reports `NullsFound` for a decoded value. Such a value becomes `InvalidJson`, and a clean value is a `Success` either way. |
| `ModuleSetup.DisableAll` | jackson3/src/main/java/net/vanfleteren/nonulls/jackson3/api/NoNullsModule.java:48-51 | Jackson 3 clears all four filtering flags. Jackson 2 (`NoNullsModule.java:45-48`) keeps `filterNullValuesInMaps`. Both leave `failOnNulls` alone. |
| `ModuleSetup.Effective` | jackson3/src/main/java/net/vanfleteren/nonulls/jackson3/api/NoNullsModule.java:91-114 | A type's null handling is that of some write for it, and there is none exactly when no write names the type. |
| `ModuleSetup.Setup3Registrations` | jackson3/src/main/java/net/vanfleteren/nonulls/jackson3/api/NoNullsModule.java:81-123 | `Result` is always registered. `Optional` (strict) is registered with `emptyAwareOptional`, `List`/`Set` and the collections modifier with collection filtering, and `Map` and the map modifier with map filtering. The null-validating modifier is never registered. |
| `ModuleSetup.FailOnNullsIgnored3` | jackson3/src/main/java/net/vanfleteren/nonulls/jackson3/api/NoNullsModule.java:72-78 | `failOnNulls` is stored but changes nothing that is set up. |
| `ModuleSetup.Setup2Registrations` | jackson2/src/main/java/net/vanfleteren/nonulls/jackson2/NoNullsModule.java:78-117 | `Optional` (lenient) is registered with `emptyAwareOptional`. `List`, `Set` and `Map` decoders and a collections modifier carrying the map flag are registered with collection filtering. The `Map` decoder is the package's delegating one, never a filtering one. The null-validating modifier is registered exactly with `failOnNulls`. `Result` is never registered. |
| `ModuleSetup.MapFlagInertWithoutCollections2` | jackson2/src/main/java/net/vanfleteren/nonulls/jackson2/NoNullsModule.java:87-103 | With collection filtering off, Jackson 2's map flag has no effect at all. |
| `ModuleSetup.EffectiveOverrides` | jackson2/src/main/java/net/vanfleteren/nonulls/jackson2/NoNullsModule.java:89-111 | The null handling in force per type: Jackson 3 writes "as empty" first and "skip" second, so skip wins on `Collection`/`Iterable`/`List`/`Set`. Jackson 2 writes them the other way round, so "as empty" wins. |
| `ModuleSetup.DefaultListOverride` | jackson3/src/main/java/net/vanfleteren/nonulls/jackson3/api/NoNullsModule.java:16-21 | Under the default flags, `List` ends up "skip" in Jackson 3 but "as empty" in Jackson 2, and `Map` is "as empty" in Jackson 3. |
| `ModuleSetup.DisableAllDisables` | jackson2/src/main/java/net/vanfleteren/nonulls/jackson2/NoNullsModule.java:45-48 | After `disableAll`, Jackson 3 registers only `Result`, and Jackson 2 only the null-validating modifier if `failOnNulls`. `disableAll` is idempotent. |
| `WalkerExamples.SelfReferenceTerminates` | validator/src/test/java/net/vanfleteren/nonulls/validator/NullValidatorEdgeCasesTest.java:28-34 | An object whose only field points at itself yields no paths, under both walkers. |
| `WalkerExamples.ListWithNull` | validator/src/test/java/net/vanfleteren/nonulls/validation/NullValidatorCollectionsTest.java:15-21 | `["a", null, "c"]` yields exactly `["root[1]"]`. |
| `WalkerExamples.MapWithNullKeyAndValue` | validator/src/test/java/net/vanfleteren/nonulls/validation/NullValidatorCollectionsTest.java:31-38 | `{null: "x", "k": null}` yields `["root.key[null]", "root[k]"]`, in that order. |
| `WalkerExamples.LegacyVavrSomeByFields` | vavr-support/src/test/java/net/vanfleteren/nonulls/validation/vavr/spi/NullValidatorVavrTest.java:43-50 | As written: under the older walker, `Option.of(new Holder(null))` is walked by its `value` field, so the `null` is at `root.value.held` and not at the `root.held` the test expects (see Findings). |
| `WalkerExamples.VavrSomeHeldPath` | validator-vavr/src/test/java/net/vanfleteren/nonulls/validator/vavr/spi/NullValidatorVavrTest.java:43-50 | Corrected: the newer walker with the Vavr handler passes through the `Some` and reports exactly `["root.held"]`. |
| `WalkerExamples.VavrMapValuePath` | validator-vavr/src/test/java/net/vanfleteren/nonulls/validator/vavr/spi/NullValidatorVavrTest.java:61-69 | A Vavr map `{"a": Rec("ok", null)}` yields exactly `["root[a].b"]`. |

## Left out

- **Reflection.** Field access, `setAccessible` and its save and restore, and
  the `RuntimeException` that wraps an access failure are not modelled.
  Fields and record components are data given in declaration order.
- **Object identity.** Identity is exact: the `System.identityHashCode`
  collisions that could make the Java walker skip a distinct object are not
  modelled.
- **Handler registry.** ServiceLoader discovery is not modelled. The
  registry is a fixed sequence of `Handler` values.
- **The older Vavr handler.** It (`vavr-support/.../spi/VavrTypeValidator.java`)
  is the same code as the newer one, so it is modelled once. The older
  walker, which the `vavr-support` adapters call, has no registry and never
  consults it. A Vavr collection under the older walker is walked by its
  fields, which is not what that module's own tests expect (see Findings).
- **Jackson internals are not modelled:**
  - parser cursor handling;
  - `DeserializationContext`;
  - `findRootValueDeserializer`;
  - generic type resolution in `createContextual` (the element or value
    type is a parameter);
  - the exception `reportWrongTokenException` builds (a `WrongToken`
    value).
- **The Jackson 2 internal `FilteringCollectionsModifier`**
  (`jackson2/.../internal/FilteringCollectionsModifier.java`) routes
  collections, collection-like types and arrays exactly as the Jackson 3
  modifier does, and touches nothing else. It has no member of its own:
  `CollectionFilters.Route3Collections` models it.
- **Contextualisation** keeps every wrapper's flag and re-wraps the
  contextualised delegate. On the model it is the identity, so it has no
  member.
- **JSON `null` handling (`getNullValue` and `getAbsentValue`).** Jackson
  never hands a JSON `null` to `deserialize`; it asks `getNullValue`. The
  model covers only `deserialize`. What the decoders return for a JSON `null`:
  - a constant: the `internal` `List`, `Set` and `Map` decoders (a fresh
    empty collection), both `EmptyAwareOptionalDeserializer`s (empty
    `Optional`, also for `getAbsentValue`), and the Jackson 3 array wrapper
    (`jackson3/.../internal/FilteringCollectionsModifier.java:128`, a
    zero-length array);
  - whatever the wrapped decoder returns: the collection and map wrappers
    (`jackson3/.../internal/FilteringCollectionsModifier.java:91-92`,
    `jackson3/.../internal/FilteringMapModifier.java:65-66`,
    `jackson2/FilteringCollectionDeserializer.java:56-57`,
    `jackson2/.../internal/FilteringCollectionsModifier.java:88-89`,
    `jackson2/.../internal/FilteringMapDeserializer.java:52-53`);
  - Java `null`, because they do not override it:
    `jackson2/OptionalStringDeserializer.java`,
    `jackson2/.../internal/FilteringArrayDeserializer.java` and both
    `ResultDeserializer`s.

  So `OptionalDecoders.DecodeOptionalString` and
  `OptionalDecoders.StringPathsAgree` describe `deserialize`, as the map
  decoder calls it for an `Optional` value type. On a JSON `null` read
  through Jackson, `OptionalStringDeserializer` gives `null` and the
  `EmptyAwareOptionalDeserializer`s give an empty `Optional`. The `Result`
  case is the one JSON-`null` path the model does state: see Findings.
- **Config overrides.** `configOverride(...).setSetterInfo` /
  `setInclude` are modelled only as an ordered list of writes, with the last
  write per type in force. What Jackson then does with "skip" or "as empty"
  is not modelled.
- **Builder setters and `build`.** Each setter changes one field of the
  `Builder` datatype, and `build` copies the flags. Both are plain record
  updates.
- **Jackson 3 element decoders** always exist in the model. A missing
  Jackson 3 element type (the no-argument constructors) is not modelled.
  In Jackson 2, a missing element type means "add nothing" and a missing
  value type fails, as the code does.
- **`String.isBlank`.** Its whitespace table is `Text.IsJavaWhitespace`, a
  fixed set of characters that stands in for `Character.isWhitespace`
  without all of Unicode.
- **Hash iteration order.** The iteration order of hash-based Java and
  Vavr collections is taken as the given sequence. Set membership is
  sequence membership.
- **The Jackson 2 `internal/ResultDeserializer.java`** imports the older
  `validation.NullValidator`, whose `assertNoNulls` returns `void`, and a
  `jackson2.api.Result` that does not exist. As written it does not compile.
  The model gives it the intended behaviour: validate with the older
  walker, then wrap the value in `Success` (`Results.DeserializeResult2`).
- **The Jackson 2 module's `Map` decoder.** `jackson2/NoNullsModule.java`
  does not import the `internal` package. Its `new NullFilteringMapDeserializer()`
  (line 100) is therefore the class of its own package. That class only
  delegates to Jackson's plain `LinkedHashMap` decoder and filters nothing.
  The model registers it as `DelegatingMap`. Jackson's own map decoder is
  not modelled. In Jackson 2, map values are filtered only through the
  collections modifier's map flag.
- **Same-package classes that are not part of this model.**
  - `jackson2/NoNullsModule.java` lines 98-99 name `NullFilteringListDeserializer`
    and `NullFilteringSetDeserializer`.
  - `jackson2/FilteringCollectionsModifier.java` lines 41 and 49 name
    `FilteringMapDeserializer` and `FilteringArrayDeserializer`.

  All four resolve to classes of the `jackson2` package, which are not part
  of this model. The `internal` classes of the same names are what
  `TokenDecoders.DecodeList2`, `TokenDecoders.DecodeSet`,
  `CollectionFilters.FilterMapIf` and `CollectionFilters.FilterArray` model.
  The routing of the Jackson 2 module (`CollectionFilters.Route2Collections`)
  assumes the package classes behave as those `internal` ones.
- **`NullsFoundException` classes that are not part of this model.** The
  newer walker throws the `validator` package's own class
  (`validator/.../validator/NullValidator.java:42` imports none), and
  `jackson3/.../api/Result.java:3`, `jackson3/.../internal/ResultDeserializer.java:5`
  and both `internal/NullValidatingDeserializer.java` files import
  `net.vanfleteren.nonulls.validator.NullsFoundException`. The newer Vavr
  adapters (`validator-vavr/.../validator/vavr/NullValidator.java:25`)
  build `validator.vavr.NullsFoundException`. Neither class is part of this
  model. All of them are assumed to behave as the `validation` classes:
  `requireNonNull` on the list, and the message "Null value(s) found at: "
  followed by the paths joined by ", ". The message equations of
  `Results.DeserializeValidating` and `Results.ValidatingMessageListsPaths`
  rest on that assumption.
- **The two `NullValidatingDeserializerModifier` files** are one-line
  wrapping glue and are not modelled.
- **Multi-level examples.** Nested-path examples (map, then list, then
  record) are covered only by the general theorems, not by a concrete
  example.
- CollectionFilters.Routed3CollectionsClean: states the Jackson 3 routing with the corrected array filter. As written, a primitive array makes the wrapper throw instead (`CollectionFilters.Routed3ArraysAsWritten`).
- TokenDecoders.DecodeMap: its own contract states only invariants of the result. The exact result is `TokenDecoders.DecodeMapIsLastWrite`, which `TokenDecoders.DecodeMap2` and `TokenDecoders.DecodeMap3` carry as their contracts.
- Results.DeserializeResult3: states only that a `Success` holds a non-`null` value; the full characterisation is `Results.ResultOutcomes`.
- Results.DeserializeResult2: states only that a `Success` holds a non-`null` value; the full characterisation is `Results.ResultOutcomes`.

## Findings

| source | as written | input that shows it | evidently intended | confidence | as-written member | corrected member |
|---|---|---|---|---|---|---|
| jackson3/src/main/java/net/vanfleteren/nonulls/jackson3/internal/FilteringCollectionsModifier.java:118 | The filtered copy is converted with `tmp.toArray((Object[]) Array.newInstance(componentType, n))`. For a primitive component type the new array is an `int[]` (or similar), and the cast to `Object[]` throws `ClassCastException`. | Decoding the JSON `[1, 2]` into an `int[]` property with collection filtering on. The Jackson 2 version copies element by element with `Array.set` and does not throw. | A filtered array of the same component type, as the Jackson 2 `FilteringArrayDeserializer` produces. | medium; not executed | `CollectionFilters.FilterArrayAsWritten3` (shown by `CollectionFilters.PrimitiveArrayCastFails`) | `CollectionFilters.FilterArray3` |
| jackson3/src/main/java/net/vanfleteren/nonulls/jackson3/internal/ResultDeserializer.java:19-57 | Neither `ResultDeserializer` (this one, and `jackson2/.../internal/ResultDeserializer.java`) overrides `getNullValue`. Jackson answers a JSON `null` with `getNullValue`, whose inherited default is Java `null`, instead of calling `deserialize`. | `readValue("null", Result<T>)`, or `{"r": null}` into a `Result` property: the result is Java `null`, neither a `Success` nor a `Failure`. | Always a `Result`, as `Result.java:12` promises: a JSON `null` is a `null` at the root, `NullsFound(["root"])`. | medium; not executed | `Results.ReadResultAsWritten` (shown by `Results.JsonNullGivesNoResult`) | `Results.ReadResult` |
| vavr-support/src/test/java/net/vanfleteren/nonulls/validation/vavr/spi/NullValidatorVavrTest.java:43-69 | The older Vavr module's tests call the older `validation.NullValidator` and expect the Vavr handler's paths (`root.held`, `root[0].held`, `root[a].b`). That walker has no handler registry and walks a Vavr object by its fields. | `Option.of(new Holder(null))` (lines 43-50): the older walker reports `root.value.held`, taking `value` as the field of Vavr's `Some`, which is not part of this model. | The handler's paths, which the newer walker with the Vavr handler produces. | low; not executed | `WalkerExamples.LegacyVavrSomeByFields` | `WalkerExamples.VavrSomeHeldPath` |
