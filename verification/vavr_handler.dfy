/**
 * The plug-in handler for Vavr types (`VavrTypeValidator`, identical in the
 * `validator-vavr` and `vavr-support` modules). It claims every Vavr
 * `Traversable` or `Value` and re-enters the walk through the callback for
 * each contained item.
 */
module VavrHandler {
  import opened Wrappers
  import opened Text
  import opened ObjectGraph
  import opened Edges
  import opened Walker

  /** `canHandle`: the class is a Vavr `Traversable` or `Value`. */
  predicate CanHandle(n: Node)
  {
    n.VMap? || n.VTraversable? || n.VValue?
  }

  /** `".key[" + index + "]"`: a Vavr map key, by its position rather than its text. */
  function KeyPositionStep(i: nat): string
  {
    ".key" + IndexStep(i)
  }

  /** Entry `start + i`: its key at `.key[start + i]`, then its value at `[key]`. */
  function VavrMapEdgesFrom(h: Heap, pairs: seq<(Ref, Ref)>, start: nat): (es: seq<Edge>)
    ensures |es| == 2 * |pairs|
    ensures forall i :: 0 <= i < |pairs| ==>
      && es[2 * i] == Edge(pairs[i].0, KeyPositionStep(start + i))
      && es[2 * i + 1] == Edge(pairs[i].1, ValueStep(h, pairs[i].0))
  {
    if pairs == [] then []
    else
      [Edge(pairs[0].0, KeyPositionStep(start)), Edge(pairs[0].1, ValueStep(h, pairs[0].0))]
      + VavrMapEdgesFrom(h, pairs[1..], start + 1)
  }

  /** Every contained item at the unchanged path. */
  function SameSlotEdges(items: seq<Ref>): (es: seq<Edge>)
    ensures |es| == |items|
    ensures forall i :: 0 <= i < |es| ==> es[i] == Edge(items[i], "")
  {
    if items == [] then [] else [Edge(items[0], "")] + SameSlotEdges(items[1..])
  }

  /**
   * `validate`: the callback invocations, in order. A map is matched before
   * the general traversable case; anything else is handed back unchanged.
   */
  function Validate(h: Heap, id: NodeId, n: Node): seq<Edge>
  {
    match n
    case VMap(pairs, _) => VavrMapEdgesFrom(h, pairs, 0)
    case VTraversable(items, _) => IndexEdges(items)
    case VValue(contents, _) => SameSlotEdges(contents)
    case _ => [Edge(Ptr(id), "")]
  }

  /** The handler as registered. */
  function VavrTypeValidator(): Handler
  {
    Handler(CanHandle, Validate)
  }

  /**
   * With the Vavr handler first in the registry, a Vavr map's key `i` is
   * visited at `.key[i]` and its value at `[key]`, whatever the map's fields.
   */
  lemma VavrMapChildren(hs: seq<Handler>, h: Heap, id: NodeId, pairs: seq<(Ref, Ref)>, levels: seq<seq<Field>>, i: nat)
    requires |hs| > 0 && hs[0] == VavrTypeValidator()
    requires i < |pairs|
    ensures var es := Children(Current(hs), h, id, VMap(pairs, levels));
      && |es| == 2 * |pairs|
      && es[2 * i] == Edge(pairs[i].0, ".key[" + NatToString(i) + "]")
      && es[2 * i + 1] == Edge(pairs[i].1, "[" + Show(h, pairs[i].0) + "]")
  {
    assert FirstHandler(hs, VMap(pairs, levels)) == Some(0);
    assert ".key" + ("[" + NatToString(i) + "]") == ".key[" + NatToString(i) + "]";
  }

  /** A Vavr traversable's element `i` is visited at `[i]`. */
  lemma VavrTraversableChildren(hs: seq<Handler>, h: Heap, id: NodeId, items: seq<Ref>, levels: seq<seq<Field>>)
    requires |hs| > 0 && hs[0] == VavrTypeValidator()
    ensures var es := Children(Current(hs), h, id, VTraversable(items, levels));
      && |es| == |items|
      && forall i :: 0 <= i < |items| ==> es[i] == Edge(items[i], "[" + NatToString(i) + "]")
  {
    assert FirstHandler(hs, VTraversable(items, levels)) == Some(0);
  }

  /** A Vavr value (Option, Try) is path-transparent: each item is visited at the same path. */
  lemma VavrValueTransparent(hs: seq<Handler>, h: Heap, id: NodeId, contents: seq<Ref>, levels: seq<seq<Field>>, path: string, st: State)
    requires |hs| > 0 && hs[0] == VavrTypeValidator()
    requires id in h.nodes && h.nodes[id] == VValue(contents, levels) && id !in st.visited
    ensures Walk(Current(hs), h, Ptr(id), path, st)
      == WalkEdges(Current(hs), h, SameSlotEdges(contents), path, State(st.visited + {id}, st.found))
  {
    assert FirstHandler(hs, VValue(contents, levels)) == Some(0);
  }

  /** An empty Vavr value (`None`, a failed `Try`) contributes no path. */
  lemma EmptyVavrValueSilent(hs: seq<Handler>, h: Heap, id: NodeId, levels: seq<seq<Field>>, path: string, st: State)
    requires |hs| > 0 && hs[0] == VavrTypeValidator()
    requires id in h.nodes && h.nodes[id] == VValue([], levels)
    ensures Walk(Current(hs), h, Ptr(id), path, st).found == st.found
  {
    assert FirstHandler(hs, VValue([], levels)) == Some(0);
  }

  /**
   * The fallback branch re-enters the walk with the object the walker has
   * just marked, so it contributes nothing.
   */
  lemma FallbackContributesNothing(v: Version, h: Heap, id: NodeId, n: Node, path: string, st: State)
    requires !CanHandle(n)
    requires id in st.visited
    ensures WalkEdges(v, h, Validate(h, id, n), path, st) == st
  {
    assert Validate(h, id, n) == [Edge(Ptr(id), "")];
    assert Walk(v, h, Ptr(id), path + "", st) == st;
  }

  /** The handler is never offered a node it does not claim, so only its three real branches matter. */
  lemma ClaimsExactlyVavr(hs: seq<Handler>, n: Node)
    requires |hs| > 0 && hs[0] == VavrTypeValidator()
    ensures FirstHandler(hs, n) == Some(0) <==> (n.VMap? || n.VTraversable? || n.VValue?)
  {
  }
}
