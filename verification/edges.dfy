/**
 * How the walk descends: every container shape yields an ordered list of
 * edges, each naming a child slot and the text appended to the path for it.
 * A plug-in handler is described by the same edges: the callback
 * invocations it makes, in order.
 */
module Edges {
  import opened Wrappers
  import opened Text
  import opened ObjectGraph

  /** Visit `target` at the current path followed by `step`. */
  datatype Edge = Edge(target: Ref, step: string)

  /** A plug-in type handler: a class test, and the callback invocations it makes for a node. */
  datatype Handler = Handler(canHandle: Node -> bool, validate: (Heap, NodeId, Node) -> seq<Edge>)

  /** `"[" + i + "]"`: an element position. */
  function IndexStep(i: nat): string
  {
    "[" + NatToString(i) + "]"
  }

  /** `".key[" + key + "]"`: a map key, by its text. */
  function KeyStep(h: Heap, key: Ref): string
  {
    ".key[" + Show(h, key) + "]"
  }

  /** `"[" + key + "]"`: the value stored under a map key. */
  function ValueStep(h: Heap, key: Ref): string
  {
    "[" + Show(h, key) + "]"
  }

  /** `"." + name`: a record component or a field. */
  function MemberStep(name: string): string
  {
    "." + name
  }

  /** Element `i` at `[start + i]`: an indexed iteration whose counter starts at `start`. */
  function IndexEdgesFrom(elems: seq<Ref>, start: nat): (es: seq<Edge>)
    ensures |es| == |elems|
    ensures forall i :: 0 <= i < |es| ==> es[i] == Edge(elems[i], IndexStep(start + i))
  {
    if elems == [] then []
    else [Edge(elems[0], IndexStep(start))] + IndexEdgesFrom(elems[1..], start + 1)
  }

  /** Elements of a collection, an array or a Vavr traversable, counted from 0. */
  function IndexEdges(elems: seq<Ref>): seq<Edge>
  {
    IndexEdgesFrom(elems, 0)
  }

  /** Each map entry's key at `.key[k]`, then its value at `[k]`. */
  function MapEdges(h: Heap, entries: seq<(Ref, Ref)>): (es: seq<Edge>)
    ensures |es| == 2 * |entries|
    ensures forall i :: 0 <= i < |entries| ==>
      && es[2 * i] == Edge(entries[i].0, KeyStep(h, entries[i].0))
      && es[2 * i + 1] == Edge(entries[i].1, ValueStep(h, entries[i].0))
  {
    if entries == [] then []
    else
      var (k, v) := entries[0];
      [Edge(k, KeyStep(h, k)), Edge(v, ValueStep(h, k))] + MapEdges(h, entries[1..])
  }

  /** Record components in declaration order at `.name`. */
  function RecordEdges(components: seq<(string, Ref)>): (es: seq<Edge>)
    ensures |es| == |components|
    ensures forall i :: 0 <= i < |es| ==> es[i] == Edge(components[i].1, MemberStep(components[i].0))
  {
    if components == [] then []
    else [Edge(components[0].1, MemberStep(components[0].0))] + RecordEdges(components[1..])
  }

  /** Whether the reflective walk reads a field: static and synthetic ones are skipped. */
  predicate Walked(f: Field)
  {
    !f.isStatic && !f.isSynthetic
  }

  /** The walked fields of one class, in declaration order. */
  function LevelEdges(fields: seq<Field>): seq<Edge>
  {
    if fields == [] then []
    else
      (if Walked(fields[0]) then [Edge(fields[0].value, MemberStep(fields[0].name))] else [])
      + LevelEdges(fields[1..])
  }

  /** The walked fields of every class from the runtime class upwards. */
  function FieldEdges(levels: seq<seq<Field>>): seq<Edge>
  {
    if levels == [] then [] else LevelEdges(levels[0]) + FieldEdges(levels[1..])
  }

  /** A walked field, in any class of the hierarchy, becomes an edge, and a skipped field does not. */
  lemma {:induction false} LevelEdgesExactly(fields: seq<Field>, e: Edge)
    ensures e in LevelEdges(fields) <==>
      exists j :: 0 <= j < |fields| && Walked(fields[j]) && e == Edge(fields[j].value, MemberStep(fields[j].name))
  {
    if fields != [] {
      LevelEdgesExactly(fields[1..], e);
      if e in LevelEdges(fields[1..]) {
        var j :| 0 <= j < |fields[1..]| && Walked(fields[1..][j])
          && e == Edge(fields[1..][j].value, MemberStep(fields[1..][j].name));
        assert fields[j + 1] == fields[1..][j];
      }
      if exists j :: 0 <= j < |fields| && Walked(fields[j]) && e == Edge(fields[j].value, MemberStep(fields[j].name)) {
        var j :| 0 <= j < |fields| && Walked(fields[j]) && e == Edge(fields[j].value, MemberStep(fields[j].name));
        if j > 0 {
          assert fields[1..][j - 1] == fields[j];
        }
      }
    }
  }

  /**
   * The field walk covers every class of the hierarchy: an edge arises exactly
   * from a non-static, non-synthetic field of some level, named by that field.
   */
  lemma {:induction false} FieldEdgesExactly(levels: seq<seq<Field>>, e: Edge)
    ensures e in FieldEdges(levels) <==>
      exists l, j :: 0 <= l < |levels| && 0 <= j < |levels[l]| && Walked(levels[l][j])
        && e == Edge(levels[l][j].value, MemberStep(levels[l][j].name))
  {
    if levels != [] {
      LevelEdgesExactly(levels[0], e);
      FieldEdgesExactly(levels[1..], e);
      if e in FieldEdges(levels[1..]) {
        var l, j :| 0 <= l < |levels[1..]| && 0 <= j < |levels[1..][l]| && Walked(levels[1..][l][j])
          && e == Edge(levels[1..][l][j].value, MemberStep(levels[1..][l][j].name));
        assert levels[l + 1] == levels[1..][l];
      }
      if (exists l, j :: 0 <= l < |levels| && 0 <= j < |levels[l]| && Walked(levels[l][j])
            && e == Edge(levels[l][j].value, MemberStep(levels[l][j].name)))
      {
        var l, j :| 0 <= l < |levels| && 0 <= j < |levels[l]| && Walked(levels[l][j])
          && e == Edge(levels[l][j].value, MemberStep(levels[l][j].name));
        if l > 0 {
          assert levels[1..][l - 1] == levels[l];
        }
      }
    }
  }

  /** Distinct positions get distinct index steps, so element paths never collide. */
  lemma IndexStepInjective(i: nat, j: nat)
    ensures IndexStep(i) == IndexStep(j) ==> i == j
  {
    if IndexStep(i) == IndexStep(j) {
      var a := NatToString(i);
      var b := NatToString(j);
      assert |a| == |b|;
      assert a == IndexStep(i)[1..|a| + 1];
      assert b == IndexStep(j)[1..|b| + 1];
      NatToStringInjective(i, j);
    }
  }
}
