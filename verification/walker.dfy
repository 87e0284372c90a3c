/**
 * The null-path walk shared by both validators: a depth-first, pre-order
 * traversal that threads the set of visited identities and the list of
 * paths at which a `null` slot was met.
 *
 * `Current` is the `validator` package's walker, with its plug-in handler
 * registry and its leaf rule for `java*` classes and enums; `Legacy` is the
 * older `validation` package's walker, which has neither.
 */
module Walker {
  import opened Wrappers
  import opened Text
  import opened ObjectGraph
  import opened Edges

  datatype Version = Current(registry: seq<Handler>) | Legacy

  /** The accumulators of the walk: identities already entered, and the null paths so far. */
  datatype State = State(visited: set<NodeId>, found: seq<string>)

  /** The first handler, from position `from` on, whose class test accepts the node. */
  function FirstHandlerFrom(hs: seq<Handler>, n: Node, from: nat): (k: Option<nat>)
    requires from <= |hs|
    ensures k.Some? ==>
      && from <= k.value < |hs|
      && hs[k.value].canHandle(n)
      && forall j :: from <= j < k.value ==> !hs[j].canHandle(n)
    ensures k.None? ==> forall j :: from <= j < |hs| ==> !hs[j].canHandle(n)
    decreases |hs| - from
  {
    if from == |hs| then None
    else if hs[from].canHandle(n) then Some(from)
    else FirstHandlerFrom(hs, n, from + 1)
  }

  /** Registry order decides: the first handler that can handle the node's class. */
  function FirstHandler(hs: seq<Handler>, n: Node): Option<nat>
  {
    FirstHandlerFrom(hs, n, 0)
  }

  /** A class whose name starts with "java": its innards are not inspected. */
  predicate IsJdkClass(className: string)
  {
    StartsWith(className, "java")
  }

  /** The walker's own dispatch, used when no handler claims a non-leaf node. */
  function BuiltIn(v: Version, h: Heap, n: Node): seq<Edge>
  {
    match n
    case Leaf => []
    case Opt(present) => if present.Some? then [Edge(Ptr(present.value), "")] else []
    case Coll(elems) => IndexEdges(elems)
    case MapN(entries) => MapEdges(h, entries)
    case Rec(components) => RecordEdges(components)
    case Obj(className, isEnum, levels) =>
      if v.Current? && (IsJdkClass(className) || isEnum) then [] else FieldEdges(levels)
    case Arr(elems) => IndexEdges(elems)
    case VMap(_, levels) => FieldEdges(levels)
    case VTraversable(_, levels) => FieldEdges(levels)
    case VValue(_, levels) => FieldEdges(levels)
  }

  /**
   * What the walk visits below node `id`: nothing for a leaf; otherwise the
   * callback invocations of the first handler that claims it (`Current` only),
   * or else the built-in dispatch.
   */
  function Children(v: Version, h: Heap, id: NodeId, n: Node): seq<Edge>
  {
    if n.Leaf? then []
    else if v.Current? && FirstHandler(v.registry, n).Some? then
      v.registry[FirstHandler(v.registry, n).value].validate(h, id, n)
    else BuiltIn(v, h, n)
  }

  /**
   * `collectNullPaths(r, path, visited, nullPaths)`. A `null` slot records its
   * path and stops; an identity already entered contributes nothing; any other
   * object is marked before its children are walked, which is what stops cycles.
   * An identity the heap does not hold cannot arise in Java and contributes nothing.
   */
  function Walk(v: Version, h: Heap, r: Ref, path: string, st: State): (st': State)
    ensures st.visited <= st'.visited
    ensures st'.visited - st.visited <= h.nodes.Keys
    ensures st.found <= st'.found
    ensures forall i :: |st.found| <= i < |st'.found| ==> StartsWith(st'.found[i], path)
    decreases h.nodes.Keys - st.visited, 0
  {
    match r
    case Null => State(st.visited, st.found + [path])
    case Ptr(id) =>
      if id in st.visited || id !in h.nodes then st
      else
        var marked := State(st.visited + {id}, st.found);
        WalkEdges(v, h, Children(v, h, id, h.nodes[id]), path, marked)
  }

  /** The children of one node, walked in order, each at `path + step`, sharing the accumulators. */
  function WalkEdges(v: Version, h: Heap, es: seq<Edge>, path: string, st: State): (st': State)
    ensures st.visited <= st'.visited
    ensures st'.visited - st.visited <= h.nodes.Keys
    ensures st.found <= st'.found
    ensures forall i :: |st.found| <= i < |st'.found| ==> StartsWith(st'.found[i], path)
    decreases h.nodes.Keys - st.visited, |es|
  {
    if es == [] then st
    else
      var st1 := Walk(v, h, es[0].target, path + es[0].step, st);
      assert forall i :: |st.found| <= i < |st1.found| ==> StartsWith(st1.found[i], path) by {
        forall i | |st.found| <= i < |st1.found|
          ensures StartsWith(st1.found[i], path)
        {
          assert path <= path + es[0].step;
        }
      }
      WalkEdges(v, h, es[1..], path, st1)
  }

  /** `findNullPaths`: the walk from the root slot at path "root" with fresh accumulators. */
  function FindNullPaths(v: Version, h: Heap, root: Ref): (paths: seq<string>)
    ensures forall i :: 0 <= i < |paths| ==> StartsWith(paths[i], "root")
  {
    Walk(v, h, root, "root", State({}, [])).found
  }
}
