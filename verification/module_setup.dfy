/**
 * `NoNullsModule` of both Jackson modules: the builder's five switches and
 * what `setupModule` registers for them — decoders per raw type, per-type
 * null-handling overrides and decoder modifiers.
 */
module ModuleSetup {
  import opened Wrappers
  import opened CollectionFilters

  /** The builder's switches; the module copies them unchanged. */
  datatype Builder = Builder(
    treatNullCollectionsAsEmpty: bool,
    filterNullsInCollections: bool,
    filterNullValuesInMaps: bool,
    emptyAwareOptional: bool,
    failOnNulls: bool)

  /** `NoNullsModule.builder()`: everything on except failing on nulls. */
  const DefaultBuilder := Builder(true, true, true, true, false)

  /**
   * `disableAll()`: Jackson 3 switches off the four filtering switches;
   * Jackson 2 leaves `filterNullValuesInMaps` as it was. Neither touches
   * `failOnNulls`.
   */
  function DisableAll(f: Flavour, b: Builder): (r: Builder)
    ensures !r.treatNullCollectionsAsEmpty && !r.filterNullsInCollections && !r.emptyAwareOptional
    ensures r.filterNullValuesInMaps == (f == Jackson2 && b.filterNullValuesInMaps)
    ensures r.failOnNulls == b.failOnNulls
  {
    match f
    case Jackson3 => b.(filterNullsInCollections := false, filterNullValuesInMaps := false,
                        treatNullCollectionsAsEmpty := false, emptyAwareOptional := false)
    case Jackson2 => b.(filterNullsInCollections := false, treatNullCollectionsAsEmpty := false,
                        emptyAwareOptional := false)
  }

  /** The raw types the module configures. */
  datatype RawType = CollectionClass | IterableClass | ListClass | SetClass | MapClass | OptionalClass | ResultClass

  /**
   * The two `JsonSetter.Value`s the module sets: `null` for the whole value
   * becomes empty, or `null` contents are skipped.
   */
  datatype NullHandling = ValueNullsAsEmpty | ContentNullsSkip

  /** The decoders the module can register, one per raw type it claims. */
  datatype Deserializer =
    | ResultDeserializer
    | StrictOptional     // the internal empty-aware `Optional` decoder
    | LenientOptional    // the public Jackson 2 one, which tolerates a missing type
    | FilteringList
    | FilteringSet
    | FilteringMap       // the Jackson 3 map decoder, which drops `null` and blank values
    | DelegatingMap      // the Jackson 2 module's own map decoder, which only delegates to Jackson's

  /** The decoder modifiers the module can add. */
  datatype Modifier =
    | CollectionsModifier3
    | MapModifier3
    | CollectionsModifier2(filterNullValuesInMaps: bool)
    | NullValidatingModifier

  /**
   * What `setupModule` leaves behind: the decoders by raw type, the override
   * writes in the order they were made (each `setNullHandling` /
   * `setSetterInfo` replaces the type's previous value), and the modifiers.
   */
  datatype Setup = Setup(
    deserializers: map<RawType, Deserializer>,
    overrideWrites: seq<(RawType, NullHandling)>,
    modifiers: seq<Modifier>)

  /** The override in force for `t`: the last write to it. */
  function Effective(writes: seq<(RawType, NullHandling)>, t: RawType): (o: Option<NullHandling>)
    ensures o.None? <==> forall i :: 0 <= i < |writes| ==> writes[i].0 != t
    ensures o.Some? ==> exists i :: 0 <= i < |writes| && writes[i] == (t, o.value)
    decreases |writes|
  {
    if writes == [] then None
    else if writes[|writes| - 1].0 == t then Some(writes[|writes| - 1].1)
    else Effective(writes[..|writes| - 1], t)
  }

  /** A later write to a type replaces an earlier one; writes to other types leave it alone. */
  lemma {:induction false} EffectiveAppend(writes: seq<(RawType, NullHandling)>, more: seq<(RawType, NullHandling)>, t: RawType)
    ensures Effective(writes + more, t) == if Effective(more, t).Some? then Effective(more, t) else Effective(writes, t)
    decreases |more|
  {
    if more == [] {
      assert writes + more == writes;
    } else {
      var all := writes + more;
      assert all[..|all| - 1] == writes + more[..|more| - 1];
      EffectiveAppend(writes, more[..|more| - 1], t);
    }
  }

  function Writes(types: seq<RawType>, n: NullHandling): (ws: seq<(RawType, NullHandling)>)
    ensures |ws| == |types|
    ensures forall i :: 0 <= i < |ws| ==> ws[i] == (types[i], n)
  {
    if types == [] then [] else [(types[0], n)] + Writes(types[1..], n)
  }

  /** Writing the same handling to a list of types sets exactly those types to it. */
  lemma WritesEffective(types: seq<RawType>, n: NullHandling, t: RawType)
    ensures Effective(Writes(types, n), t) == if t in types then Some(n) else None
  {
    var ws := Writes(types, n);
    if t in types {
      var i :| 0 <= i < |types| && types[i] == t;
      assert ws[i].0 == t;
    } else {
      forall i | 0 <= i < |ws| ensures ws[i].0 != t {
        assert ws[i].0 == types[i];
      }
    }
  }

  const AsEmptyTypes: seq<RawType> := [CollectionClass, IterableClass, ListClass, MapClass, SetClass]
  const SkipTypes3: seq<RawType> := [CollectionClass, IterableClass, ListClass, SetClass]
  /** Jackson 2 writes the `Collection` override twice, with the same value. */
  const SkipTypes2: seq<RawType> := [CollectionClass, CollectionClass, IterableClass, ListClass, SetClass]

  /** `setupModule` of the Jackson 3 module. */
  function Setup3(m: Builder): (s: Setup)
  {
    var optional: map<RawType, Deserializer> := if m.emptyAwareOptional then map[OptionalClass := StrictOptional] else map[];
    var lists: map<RawType, Deserializer> :=
      if m.filterNullsInCollections then map[ListClass := FilteringList, SetClass := FilteringSet] else map[];
    var maps: map<RawType, Deserializer> := if m.filterNullValuesInMaps then map[MapClass := FilteringMap] else map[];
    Setup(
      map[ResultClass := ResultDeserializer] + optional + lists + maps,
      (if m.treatNullCollectionsAsEmpty then Writes(AsEmptyTypes, ValueNullsAsEmpty) else [])
        + (if m.filterNullsInCollections then Writes(SkipTypes3, ContentNullsSkip) else []),
      (if m.filterNullsInCollections then [CollectionsModifier3] else [])
        + (if m.filterNullValuesInMaps then [MapModifier3] else []))
  }

  /** `setupModule` of the Jackson 2 module. */
  function Setup2(m: Builder): (s: Setup)
  {
    var optional: map<RawType, Deserializer> := if m.emptyAwareOptional then map[OptionalClass := LenientOptional] else map[];
    var collections: map<RawType, Deserializer> :=
      if m.filterNullsInCollections then map[ListClass := FilteringList, SetClass := FilteringSet, MapClass := DelegatingMap]
      else map[];
    Setup(
      optional + collections,
      (if m.filterNullsInCollections then Writes(SkipTypes2, ContentNullsSkip) else [])
        + (if m.treatNullCollectionsAsEmpty then Writes(AsEmptyTypes, ValueNullsAsEmpty) else []),
      (if m.filterNullsInCollections then [CollectionsModifier2(m.filterNullValuesInMaps)] else [])
        + (if m.failOnNulls then [NullValidatingModifier] else []))
  }

  /**
   * Jackson 3 registers each decoder exactly under its switch: `Result`
   * always, `Optional` with `emptyAwareOptional`, `List` and `Set` with
   * collection filtering, `Map` with map filtering; likewise the two
   * modifiers. `failOnNulls` adds nothing.
   */
  lemma Setup3Registrations(m: Builder)
    ensures var s := Setup3(m);
      && s.deserializers.Keys ==
           {ResultClass}
           + (if m.emptyAwareOptional then {OptionalClass} else {})
           + (if m.filterNullsInCollections then {ListClass, SetClass} else {})
           + (if m.filterNullValuesInMaps then {MapClass} else {})
      && s.deserializers[ResultClass] == ResultDeserializer
      && (OptionalClass in s.deserializers ==> s.deserializers[OptionalClass] == StrictOptional)
      && (MapClass in s.deserializers ==> s.deserializers[MapClass] == FilteringMap)
      && (CollectionsModifier3 in s.modifiers <==> m.filterNullsInCollections)
      && (MapModifier3 in s.modifiers <==> m.filterNullValuesInMaps)
      && NullValidatingModifier !in s.modifiers
  {
  }

  /** Jackson 3 ignores `failOnNulls`: flipping it changes nothing that is set up. */
  lemma FailOnNullsIgnored3(m: Builder)
    ensures Setup3(m) == Setup3(m.(failOnNulls := !m.failOnNulls))
  {
  }

  /**
   * Jackson 2 registers the `Map` decoder with the `List` and `Set` ones
   * under collection filtering, but its `Map` decoder is the delegating one
   * of its own package, which filters nothing: map values are filtered only
   * through the collections modifier's map flag. It never registers a
   * `Result` decoder, and adds the validating modifier exactly when
   * `failOnNulls` is on.
   */
  lemma Setup2Registrations(m: Builder)
    ensures var s := Setup2(m);
      && s.deserializers.Keys ==
           (if m.emptyAwareOptional then {OptionalClass} else {})
           + (if m.filterNullsInCollections then {ListClass, SetClass, MapClass} else {})
      && (OptionalClass in s.deserializers ==> s.deserializers[OptionalClass] == LenientOptional)
      && (MapClass in s.deserializers ==> s.deserializers[MapClass] == DelegatingMap)
      && FilteringMap !in s.deserializers.Values
      && ResultClass !in s.deserializers
      && (NullValidatingModifier in s.modifiers <==> m.failOnNulls)
      && (forall flag :: CollectionsModifier2(flag) in s.modifiers <==>
            m.filterNullsInCollections && flag == m.filterNullValuesInMaps)
  {
  }

  /** In Jackson 2 the map switch only reaches the collections modifier, so without collection filtering it is inert. */
  lemma MapFlagInertWithoutCollections2(m: Builder)
    requires !m.filterNullsInCollections
    ensures Setup2(m) == Setup2(m.(filterNullValuesInMaps := !m.filterNullValuesInMaps))
  {
  }

  /**
   * The overrides in force. In Jackson 3 the content-skipping writes come
   * last, so they replace "null as empty" on `Collection`, `Iterable`,
   * `List` and `Set`, and only `Map` keeps it; in Jackson 2 the order is the
   * other way round, so "null as empty" wins everywhere it is written.
   */
  lemma EffectiveOverrides(m: Builder, t: RawType)
    ensures Effective(Setup3(m).overrideWrites, t) ==
      if m.filterNullsInCollections && t in SkipTypes3 then Some(ContentNullsSkip)
      else if m.treatNullCollectionsAsEmpty && t in AsEmptyTypes then Some(ValueNullsAsEmpty)
      else None
    ensures Effective(Setup2(m).overrideWrites, t) ==
      if m.treatNullCollectionsAsEmpty && t in AsEmptyTypes then Some(ValueNullsAsEmpty)
      else if m.filterNullsInCollections && t in SkipTypes2 then Some(ContentNullsSkip)
      else None
  {
    var asEmpty := if m.treatNullCollectionsAsEmpty then Writes(AsEmptyTypes, ValueNullsAsEmpty) else [];
    var skip3 := if m.filterNullsInCollections then Writes(SkipTypes3, ContentNullsSkip) else [];
    var skip2 := if m.filterNullsInCollections then Writes(SkipTypes2, ContentNullsSkip) else [];
    WritesEffective(AsEmptyTypes, ValueNullsAsEmpty, t);
    WritesEffective(SkipTypes3, ContentNullsSkip, t);
    WritesEffective(SkipTypes2, ContentNullsSkip, t);
    EffectiveAppend(asEmpty, skip3, t);
    EffectiveAppend(skip2, asEmpty, t);
    assert Effective([], t) == None;
  }

  /** With the defaults, Jackson 3 ends up skipping `null` contents of a `List`, and Jackson 2 making a `null` `List` empty. */
  lemma DefaultListOverride()
    ensures Effective(Setup3(DefaultBuilder).overrideWrites, ListClass) == Some(ContentNullsSkip)
    ensures Effective(Setup2(DefaultBuilder).overrideWrites, ListClass) == Some(ValueNullsAsEmpty)
    ensures Effective(Setup3(DefaultBuilder).overrideWrites, MapClass) == Some(ValueNullsAsEmpty)
  {
    EffectiveOverrides(DefaultBuilder, ListClass);
    EffectiveOverrides(DefaultBuilder, MapClass);
  }

  /**
   * After `disableAll()` nothing filtering is set up in either module: no
   * overrides, Jackson 3 keeps only the `Result` decoder, Jackson 2 keeps
   * only the validating modifier if `failOnNulls` asks for it. Applying it
   * twice is the same as once.
   */
  lemma DisableAllDisables(b: Builder)
    ensures Setup3(DisableAll(Jackson3, b)) == Setup(map[ResultClass := ResultDeserializer], [], [])
    ensures Setup2(DisableAll(Jackson2, b)) == Setup(map[], [], if b.failOnNulls then [NullValidatingModifier] else [])
    ensures DisableAll(Jackson3, DisableAll(Jackson3, b)) == DisableAll(Jackson3, b)
    ensures DisableAll(Jackson2, DisableAll(Jackson2, b)) == DisableAll(Jackson2, b)
  {
    var m3 := DisableAll(Jackson3, b);
    assert map[ResultClass := ResultDeserializer] + map[] + map[] + map[] == map[ResultClass := ResultDeserializer];
    var none: map<RawType, Deserializer> := map[];
    assert none + none == none;
  }
}
