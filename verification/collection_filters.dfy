/**
 * The post-decode filters: wrappers around Jackson's own collection, array
 * and map decoders that remove `null` (and, for collections and arrays,
 * blank strings) from what the wrapped decoder produced, and the modifiers
 * that decide which declared types get which wrapper.
 */
module CollectionFilters {
  import opened Wrappers
  import opened Text
  import opened Sequences
  import opened JsonValues
  import opened Exceptions

  /** Whether an array's component type is primitive (`int[]`) or a reference type (`String[]`). */
  datatype Component = Primitive | Reference(className: string)

  /** The value the wrapped decoder returned. */
  datatype Decoded =
    | DNull
    | DColl(elems: seq<Elem>)
    | DArray(component: Component, elems: seq<Elem>)
    | DMap(entries: seq<(Elem, Elem)>)
    | DOther(id: nat)

  /** The Jackson major version a wrapper belongs to, where their code differs. */
  datatype Flavour = Jackson2 | Jackson3

  // ---- collections ----

  /**
   * Both `deserialize` overloads of the collection wrapper: a `Collection`
   * loses its `null`s (and its blank strings when `skipBlank`); anything else
   * is returned as it is.
   */
  function FilterCollection(skipBlank: bool, v: Decoded): (r: Decoded)
    ensures r.DColl? <==> v.DColl?
    ensures !v.DColl? ==> r == v
    ensures v.DColl? ==> forall e :: e in r.elems ==> e in v.elems && !Dropped(skipBlank, e)
    ensures v.DColl? ==> forall e :: e in v.elems && !Dropped(skipBlank, e) ==> e in r.elems
  {
    match v
    case DColl(es) =>
      var r := DColl(KeptElems(skipBlank, es));
      forall e | e in es && !Dropped(skipBlank, e) ensures e in r.elems {
        KeptElemsCount(skipBlank, es, e);
      }
      r
    case _ => v
  }

  // ---- arrays ----

  /**
   * The copying loop of the array wrapper: every element that is neither
   * `null` nor (with the flag) blank is appended, in index order.
   */
  method CopyKept(skipBlank: bool, arr: seq<Elem>) returns (tmp: seq<Elem>)
    ensures tmp == KeptElems(skipBlank, arr)
    ensures forall e :: e in tmp ==> !Dropped(skipBlank, e)
  {
    tmp := [];
    var i := 0;
    while i < |arr|
      invariant 0 <= i <= |arr|
      invariant tmp == KeptElems(skipBlank, arr[..i])
    {
      var e := arr[i];
      if !Dropped(skipBlank, e) {
        tmp := tmp + [e];
      }
      assert arr[..i + 1] == arr[..i] + [e];
      KeptElemsConcat(skipBlank, arr[..i], [e]);
      assert KeptElems(skipBlank, [e]) == if Dropped(skipBlank, e) then [] else [e] by {
        assert [e][1..] == [];
      }
      i := i + 1;
    }
    assert arr[..|arr|] == arr;
  }

  /**
   * The array wrapper as the Jackson 2 code writes it: `arr.getClass()` fails
   * on a `null` result, a non-array is returned unchanged, and an array is
   * copied element by element into a new array of the same component type.
   */
  function FilterArray(skipBlank: bool, v: Decoded): (r: Completion<Decoded, Thrown>)
    ensures v.DNull? <==> r.Abrupt?
    ensures r.Abrupt? ==> r.thrown == NullPointer
    ensures !v.DNull? && !v.DArray? ==> r == Normal(v)
    ensures v.DArray? ==> r.Normal? && r.value.DArray? && r.value.component == v.component
    ensures v.DArray? ==> forall e :: e in r.value.elems ==> e in v.elems && !Dropped(skipBlank, e)
  {
    match v
    case DNull => Abrupt(NullPointer)
    case DArray(c, es) => Normal(DArray(c, KeptElems(skipBlank, es)))
    case _ => Normal(v)
  }

  /**
   * The array wrapper's `deserialize` with its loops: the kept elements are
   * collected by `CopyKept`, then copied into a new array of the decoded
   * array's component type. It computes exactly `FilterArray`.
   */
  method FilterArrayLoop(skipBlank: bool, v: Decoded) returns (r: Completion<Decoded, Thrown>)
    ensures r == FilterArray(skipBlank, v)
  {
    match v {
      case DNull =>
        r := Abrupt(NullPointer);
      case DArray(c, es) =>
        var tmp := CopyKept(skipBlank, es);
        r := Normal(DArray(c, tmp));
      case _ =>
        r := Normal(v);
    }
  }

  /**
   * The Jackson 3 array wrapper as written: the new array is created with the
   * runtime component type and then cast to `Object[]` to receive the kept
   * elements, a cast that fails when the component type is primitive.
   */
  function FilterArrayAsWritten3(skipBlank: bool, v: Decoded): (r: Completion<Decoded, Thrown>)
    ensures v.DArray? && v.component.Primitive? ==> r == Abrupt(ClassCast)
    ensures !(v.DArray? && v.component.Primitive?) ==> r == FilterArray(skipBlank, v)
  {
    match v
    case DNull => Abrupt(NullPointer)
    case DArray(c, es) =>
      if c.Primitive? then Abrupt(ClassCast) else Normal(DArray(c, KeptElems(skipBlank, es)))
    case _ => Normal(v)
  }

  /**
   * The array filter the Jackson 3 code evidently intends: the same as the
   * Jackson 2 wrapper, which fills the new array element by element and so
   * works for primitive component types too.
   */
  function FilterArray3(skipBlank: bool, v: Decoded): (r: Completion<Decoded, Thrown>)
    ensures v.DArray? ==> r.Normal? && r.value == DArray(v.component, KeptElems(skipBlank, v.elems))
    ensures r == FilterArray(skipBlank, v)
  {
    FilterArray(skipBlank, v)
  }

  /** A primitive array, `null`-free by nature, makes the as-written filter throw and the intended one succeed. */
  lemma PrimitiveArrayCastFails(skipBlank: bool, es: seq<Elem>)
    ensures FilterArrayAsWritten3(skipBlank, DArray(Primitive, es)) == Abrupt(ClassCast)
    ensures FilterArray3(skipBlank, DArray(Primitive, es)) == Normal(DArray(Primitive, KeptElems(skipBlank, es)))
  {
  }

  /** The intended filter and the as-written one agree on every value that is not a primitive array. */
  lemma ReferenceArraysUnaffected(skipBlank: bool, v: Decoded)
    requires !(v.DArray? && v.component.Primitive?)
    ensures FilterArrayAsWritten3(skipBlank, v) == FilterArray3(skipBlank, v)
  {
  }

  // ---- maps ----

  /** `map.values().removeIf(Objects::isNull)`: the entries whose value is `null` go, keys are never looked at. */
  function RemoveNullValues<K>(entries: seq<(K, Elem)>): (r: seq<(K, Elem)>)
    ensures forall p :: p in r ==> p in entries && !p.1.ENull?
    ensures forall i :: 0 <= i < |entries| && !entries[i].1.ENull? ==> entries[i] in r
  {
    var r := Filter((p: (K, Elem)) => !p.1.ENull?, entries);
    forall i | 0 <= i < |entries| && !entries[i].1.ENull? ensures entries[i] in r {
      FilterCount((p: (K, Elem)) => !p.1.ENull?, entries, entries[i]);
    }
    r
  }

  /** A map without `null` values is left exactly as it is. */
  lemma RemoveNullValuesKeepsClean<K>(entries: seq<(K, Elem)>)
    requires forall i :: 0 <= i < |entries| ==> !entries[i].1.ENull?
    ensures RemoveNullValues(entries) == entries
  {
    FilterKeepsAccepted((p: (K, Elem)) => !p.1.ENull?, entries);
  }

  /** The map wrapper of the map modifiers: a `Map` loses its `null`-valued entries; anything else is returned as it is. */
  function FilterMap(v: Decoded): (r: Decoded)
    ensures r.DMap? <==> v.DMap?
    ensures !v.DMap? ==> r == v
    ensures v.DMap? ==> forall p :: p in r.entries ==> p in v.entries && !p.1.ENull?
    ensures v.DMap? ==> forall p :: p in v.entries && !p.1.ENull? ==> p in r.entries
  {
    match v
    case DMap(entries) => DMap(RemoveNullValues(entries))
    case _ => v
  }

  /** The Jackson 2 `FilteringMapDeserializer`: the same removal, but only when `skipNullValues` is set. */
  function FilterMapIf(skipNullValues: bool, v: Decoded): (r: Decoded)
    ensures !skipNullValues ==> r == v
    ensures skipNullValues ==> r == FilterMap(v)
  {
    if skipNullValues && v.DMap? then DMap(RemoveNullValues(v.entries)) else v
  }

  /**
   * The map filters look only at whether a value is `null`: every other
   * entry, whatever its key and even with a blank string value, keeps its
   * multiplicity, and a `null`-valued entry disappears.
   */
  lemma MapFilterKeepsBlanks(entries: seq<(Elem, Elem)>, p: (Elem, Elem))
    ensures var r := FilterMap(DMap(entries));
      multiset(r.entries)[p] == if p.1.ENull? then 0 else multiset(entries)[p]
  {
    FilterCount((q: (Elem, Elem)) => !q.1.ENull?, entries, p);
  }

  // ---- modifier routing ----

  /** The kinds of declared type a deserializer modifier is asked about. */
  datatype ContainerType = CollectionType | CollectionLikeType | ArrayType | MapType | MapLikeType | KeyType

  /** What a modifier does with the decoder Jackson built for a declared type. */
  datatype Wrapping =
    | Unwrapped
    | CollectionFilterW(skipBlank: bool)
    | ArrayFilterW(skipBlank: bool)
    | MapFilterIfW(skipNullValues: bool)
    | MapFilterW

  /**
   * The Jackson 3 `FilteringCollectionsModifier`: collections and arrays are
   * wrapped, maps and keys are not. The Jackson 2 internal modifier of the
   * same name routes in exactly the same way.
   */
  function Route3Collections(t: ContainerType): (w: Wrapping)
    ensures (t == MapType || t == MapLikeType || t == KeyType) <==> w == Unwrapped
    ensures w.CollectionFilterW? || w.ArrayFilterW? ==> w.skipBlank
  {
    match t
    case CollectionType => CollectionFilterW(true)
    case CollectionLikeType => CollectionFilterW(true)
    case ArrayType => ArrayFilterW(true)
    case _ => Unwrapped
  }

  /**
   * The Jackson 2 `FilteringCollectionsModifier` the module registers: as the
   * Jackson 3 one, and maps too, with the map flag fixed at construction.
   */
  function Route2Collections(filterNullValuesInMaps: bool, t: ContainerType): (w: Wrapping)
    ensures t == MapType <==> w.MapFilterIfW?
    ensures w.MapFilterIfW? ==> w.skipNullValues == filterNullValuesInMaps
    ensures t != MapType ==> w == Route3Collections(t)
  {
    match t
    case MapType => MapFilterIfW(filterNullValuesInMaps)
    case _ => Route3Collections(t)
  }

  /** The Jackson 2 `FilteringMapModifier`: only `Map` types are wrapped. */
  function Route2Maps(t: ContainerType): (w: Wrapping)
    ensures w != Unwrapped <==> t == MapType
    ensures w != Unwrapped ==> w == MapFilterW
  {
    if t == MapType then MapFilterW else Unwrapped
  }

  /** The Jackson 3 `FilteringMapModifier`: `Map` and map-like types are wrapped. */
  function Route3Maps(t: ContainerType): (w: Wrapping)
    ensures w != Unwrapped <==> (t == MapType || t == MapLikeType)
    ensures w != Unwrapped ==> w == MapFilterW
  {
    if t == MapType || t == MapLikeType then MapFilterW else Unwrapped
  }

  /** Running a wrapped decoder: the inner decoder's result, then the wrapper's filter. */
  function Apply(f: Flavour, w: Wrapping, v: Decoded): Completion<Decoded, Thrown>
  {
    match w
    case Unwrapped => Normal(v)
    case CollectionFilterW(skip) => Normal(FilterCollection(skip, v))
    case ArrayFilterW(skip) => if f == Jackson2 then FilterArray(skip, v) else FilterArray3(skip, v)
    case MapFilterIfW(skip) => Normal(FilterMapIf(skip, v))
    case MapFilterW => Normal(FilterMap(v))
  }

  /** No `null` and no blank string survives as an element of a wrapped collection or array. */
  predicate Clean(v: Decoded)
  {
    match v
    case DColl(es) => forall e :: e in es ==> !Dropped(true, e)
    case DArray(_, es) => forall e :: e in es ==> !Dropped(true, e)
    case DMap(entries) => forall p :: p in entries ==> !p.1.ENull?
    case _ => true
  }

  /**
   * Whatever a collection or array decoder produces, the Jackson 3 collections
   * modifier leaves it clean; a map decoder's output passes through untouched.
   */
  lemma Routed3CollectionsClean(t: ContainerType, v: Decoded)
    ensures var r := Apply(Jackson3, Route3Collections(t), v);
      && ((t == CollectionType || t == CollectionLikeType) && v.DColl? ==> r.Normal? && Clean(r.value))
      && (t == ArrayType && v.DArray? ==> r.Normal? && Clean(r.value))
      && ((t == MapType || t == MapLikeType || t == KeyType) ==> r == Normal(v))
  {
  }

  /**
   * `Apply` runs the corrected Jackson 3 array filter. As written, the
   * modifier's array wrapper throws `ClassCastException` on a primitive
   * array and otherwise does exactly what `Apply` does.
   */
  lemma Routed3ArraysAsWritten(v: Decoded)
    ensures var w := Route3Collections(ArrayType);
      && w.ArrayFilterW?
      && FilterArrayAsWritten3(w.skipBlank, v)
           == if v.DArray? && v.component.Primitive? then Abrupt(ClassCast) else Apply(Jackson3, w, v)
  {
  }

  /**
   * The Jackson 2 module's collections modifier cleans collections and arrays,
   * and cleans maps exactly when its map flag is set.
   */
  lemma Routed2CollectionsClean(mapFlag: bool, t: ContainerType, v: Decoded)
    ensures var r := Apply(Jackson2, Route2Collections(mapFlag, t), v);
      && ((t == CollectionType || t == CollectionLikeType) && v.DColl? ==> r.Normal? && Clean(r.value))
      && (t == ArrayType && v.DArray? ==> r.Normal? && Clean(r.value))
      && (t == MapType && v.DMap? && mapFlag ==> r.Normal? && Clean(r.value))
      && (t == MapType && !mapFlag ==> r == Normal(v))
  {
  }

  /** Both map modifiers leave every `Map` result without `null` values. */
  lemma RoutedMapsClean(t: ContainerType, v: Decoded)
    requires t == MapType && v.DMap?
    ensures var r2 := Apply(Jackson2, Route2Maps(t), v);
      r2.Normal? && Clean(r2.value)
    ensures var r3 := Apply(Jackson3, Route3Maps(t), v);
      r3.Normal? && Clean(r3.value)
  {
  }
}
