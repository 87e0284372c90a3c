/**
 * The object graph a null-path walk inspects. Every Java object the walk can
 * reach is a node in a heap keyed by its identity; a slot holding an object
 * is a `Ref`, and a slot holding Java `null` is `Null`.
 */
module ObjectGraph {
  import opened Wrappers

  /** Object identity, as `System.identityHashCode` is meant to provide it. */
  type NodeId = nat

  datatype Ref = Null | Ptr(id: NodeId)

  /** A declared field of a plain object, with the two modifiers the walk skips on. */
  datatype Field = Field(name: string, isStatic: bool, isSynthetic: bool, value: Ref)

  /**
   * The runtime shapes the walk distinguishes. `levels` lists the declared
   * fields class by class, from the runtime class up to (not including)
   * `java.lang.Object`, each class's fields in declaration order.
   */
  datatype Node =
      /** A primitive wrapper, a `Number` subtype, `Void` or `String`. */
    | Leaf
      /** `java.util.Optional`: empty, or holding one object (an `Optional` never holds `null`). */
    | Opt(present: Option<NodeId>)
      /** A `java.util.Collection`, its elements in iteration order. */
    | Coll(elems: seq<Ref>)
      /** A Java array; primitive arrays hold boxed `Leaf` elements. */
    | Arr(elems: seq<Ref>)
      /** A `java.util.Map`, its (key, value) entries in iteration order. */
    | MapN(entries: seq<(Ref, Ref)>)
      /** A record, its components in declaration order. */
    | Rec(components: seq<(string, Ref)>)
      /** Any other object: its class name, whether it is an enum, and its fields. */
    | Obj(className: string, isEnum: bool, levels: seq<seq<Field>>)
      /** A Vavr `Map`: its (key, value) entries, and its own fields. */
    | VMap(pairs: seq<(Ref, Ref)>, vlevels: seq<seq<Field>>)
      /** Any other Vavr `Traversable` (List, Set, Stream, ...). */
    | VTraversable(items: seq<Ref>, vlevels: seq<seq<Field>>)
      /** A Vavr `Value` that is not a `Traversable` (Option, Try, ...). */
    | VValue(contents: seq<Ref>, vlevels: seq<seq<Field>>)

  /**
   * The heap: every live node by identity, and the `toString` of every node,
   * which map-key paths embed.
   */
  datatype Heap = Heap(nodes: map<NodeId, Node>, text: NodeId -> string)

  /** String conversion of a reference, as string concatenation performs it. */
  function Show(h: Heap, r: Ref): (s: string)
    ensures r.Null? ==> s == "null"
  {
    match r
    case Null => "null"
    case Ptr(id) => h.text(id)
  }
}
