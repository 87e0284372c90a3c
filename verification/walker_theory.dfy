/**
 * What the null-path walk computes, stated independently of how it threads
 * its accumulators: it reports nothing exactly when no `null` slot can be
 * reached from the root along the edges the walk follows, and every path it
 * reports spells out the steps to a `null` slot.
 */
module WalkerTheory {
  import opened Wrappers
  import opened Text
  import opened ObjectGraph
  import opened Edges
  import opened Walker

  /** A `null` slot can be reached from `r` in at most `n` descents. */
  ghost predicate ReachesNull(v: Version, h: Heap, r: Ref, n: nat)
    decreases n
  {
    || r.Null?
    || (&& n > 0 && r.Ptr? && r.id in h.nodes
        && exists e :: e in Children(v, h, r.id, h.nodes[r.id]) && ReachesNull(v, h, e.target, n - 1))
  }

  /** Some `null` slot is reachable from the root. */
  ghost predicate NullReachable(v: Version, h: Heap, root: Ref)
  {
    exists n: nat :: ReachesNull(v, h, root, n)
  }

  /**
   * Following `suffix` step by step from `r`, in at most `n` descents, ends
   * at a `null` slot: `suffix` is the concatenation of the steps taken.
   */
  ghost predicate PathToNull(v: Version, h: Heap, r: Ref, suffix: string, n: nat)
    decreases n
  {
    || (r.Null? && suffix == "")
    || (&& n > 0 && r.Ptr? && r.id in h.nodes
        && exists e, rest :: e in Children(v, h, r.id, h.nodes[r.id]) && suffix == e.step + rest
             && PathToNull(v, h, e.target, rest, n - 1))
  }

  /** An object slot whose node has been entered (or that names no node of the heap). */
  predicate Settled(h: Heap, r: Ref, visited: set<NodeId>)
  {
    r.Ptr? && (r.id in visited || r.id !in h.nodes)
  }

  /** Every child of every node in `s` is settled with respect to `visited`. */
  ghost predicate Closed(v: Version, h: Heap, s: set<NodeId>, visited: set<NodeId>)
  {
    forall id :: id in s && id in h.nodes ==>
      forall e :: e in Children(v, h, id, h.nodes[id]) ==> Settled(h, e.target, visited)
  }

  lemma ClosedGrows(v: Version, h: Heap, s: set<NodeId>, visited: set<NodeId>, more: set<NodeId>)
    requires Closed(v, h, s, visited)
    requires visited <= more
    ensures Closed(v, h, s, more)
  {
  }

  /**
   * A walk that reports nothing has met no `null`: the slot it started from
   * is settled, and every node it entered has only settled children.
   */
  lemma {:induction false} WalkSilent(v: Version, h: Heap, r: Ref, path: string, st: State)
    ensures var st' := Walk(v, h, r, path, st);
      st'.found == st.found ==>
        Settled(h, r, st'.visited) && Closed(v, h, st'.visited - st.visited, st'.visited)
    decreases h.nodes.Keys - st.visited, 0
  {
    var st' := Walk(v, h, r, path, st);
    if r.Ptr? && r.id !in st.visited && r.id in h.nodes {
      var id := r.id;
      var es := Children(v, h, id, h.nodes[id]);
      var marked := State(st.visited + {id}, st.found);
      WalkEdgesSilent(v, h, es, path, marked);
      if st'.found == st.found {
        forall x | x in st'.visited - st.visited && x in h.nodes
          ensures forall e :: e in Children(v, h, x, h.nodes[x]) ==> Settled(h, e.target, st'.visited)
        {
          if x != id {
            assert x in st'.visited - marked.visited;
          }
        }
      }
    }
  }

  /** `WalkSilent` for a list of children. */
  lemma {:induction false} WalkEdgesSilent(v: Version, h: Heap, es: seq<Edge>, path: string, st: State)
    ensures var st' := WalkEdges(v, h, es, path, st);
      st'.found == st.found ==>
        && (forall e :: e in es ==> Settled(h, e.target, st'.visited))
        && Closed(v, h, st'.visited - st.visited, st'.visited)
    decreases h.nodes.Keys - st.visited, |es|
  {
    if es != [] {
      var st1 := Walk(v, h, es[0].target, path + es[0].step, st);
      var st2 := WalkEdges(v, h, es[1..], path, st1);
      assert st2 == WalkEdges(v, h, es, path, st);
      WalkSilent(v, h, es[0].target, path + es[0].step, st);
      WalkEdgesSilent(v, h, es[1..], path, st1);
      if st2.found == st.found {
        assert |st1.found| == |st.found|;
        assert st1.found == st.found;
        ClosedGrows(v, h, st1.visited - st.visited, st1.visited, st2.visited);
        forall e | e in es
          ensures Settled(h, e.target, st2.visited)
        {
          if e != es[0] {
            assert e in es[1..];
          }
        }
      }
    }
  }

  /** From a settled slot in a closed visited set, no `null` can be reached. */
  lemma {:induction false} SettledReachesNoNull(v: Version, h: Heap, r: Ref, visited: set<NodeId>, n: nat)
    requires Settled(h, r, visited)
    requires Closed(v, h, visited, visited)
    ensures !ReachesNull(v, h, r, n)
    decreases n
  {
    if n > 0 && r.id in h.nodes {
      forall e | e in Children(v, h, r.id, h.nodes[r.id])
        ensures !ReachesNull(v, h, e.target, n - 1)
      {
        SettledReachesNoNull(v, h, e.target, visited, n - 1);
      }
    }
  }

  /**
   * Every path a walk adds is `path` followed by the steps that lead from
   * `r` to a `null` slot.
   */
  lemma {:induction false} WalkPathGenuine(v: Version, h: Heap, r: Ref, path: string, st: State, i: nat)
    returns (n: nat)
    requires |st.found| <= i < |Walk(v, h, r, path, st).found|
    ensures var p := Walk(v, h, r, path, st).found[i];
      |path| <= |p| && PathToNull(v, h, r, p[|path|..], n)
    decreases h.nodes.Keys - st.visited, 0
  {
    var p := Walk(v, h, r, path, st).found[i];
    if r.Null? {
      n := 0;
    } else {
      var id := r.id;
      var es := Children(v, h, id, h.nodes[id]);
      var marked := State(st.visited + {id}, st.found);
      var k, m := WalkEdgesPathGenuine(v, h, es, path, marked, i);
      var e := es[k];
      var rest := p[|path + e.step|..];
      assert p[|path|..] == e.step + rest by {
        assert p[..|path + e.step|] == path + e.step;
      }
      n := m + 1;
    }
  }

  /** `WalkPathGenuine` for a list of children: the path runs through one of them. */
  lemma {:induction false} WalkEdgesPathGenuine(v: Version, h: Heap, es: seq<Edge>, path: string, st: State, i: nat)
    returns (k: nat, n: nat)
    requires |st.found| <= i < |WalkEdges(v, h, es, path, st).found|
    ensures k < |es|
    ensures var p := WalkEdges(v, h, es, path, st).found[i];
      && StartsWith(p, path + es[k].step)
      && PathToNull(v, h, es[k].target, p[|path + es[k].step|..], n)
    decreases h.nodes.Keys - st.visited, |es|
  {
    var st1 := Walk(v, h, es[0].target, path + es[0].step, st);
    var st2 := WalkEdges(v, h, es[1..], path, st1);
    assert st2 == WalkEdges(v, h, es, path, st);
    if i < |st1.found| {
      assert st2.found[i] == st1.found[i];
      k := 0;
      n := WalkPathGenuine(v, h, es[0].target, path + es[0].step, st, i);
    } else {
      var k1;
      k1, n := WalkEdgesPathGenuine(v, h, es[1..], path, st1, i);
      k := k1 + 1;
      assert es[k] == es[1..][k1];
    }
  }

  /** A spelled-out path to `null` witnesses reachability. */
  lemma {:induction false} PathToNullReaches(v: Version, h: Heap, r: Ref, suffix: string, n: nat)
    requires PathToNull(v, h, r, suffix, n)
    ensures ReachesNull(v, h, r, n)
    decreases n
  {
    if !r.Null? {
      var e, rest :| e in Children(v, h, r.id, h.nodes[r.id]) && suffix == e.step + rest
        && PathToNull(v, h, e.target, rest, n - 1);
      PathToNullReaches(v, h, e.target, rest, n - 1);
    }
  }

  /**
   * `findNullPaths` is empty exactly when no `null` slot is reachable from
   * the root: the walk neither misses a null (despite skipping entered
   * identities) nor reports one that is not there.
   */
  lemma FindNullPathsEmptyIff(v: Version, h: Heap, root: Ref)
    ensures FindNullPaths(v, h, root) == [] <==> !NullReachable(v, h, root)
  {
    var st0 := State({}, []);
    var st' := Walk(v, h, root, "root", st0);
    if st'.found == [] {
      WalkSilent(v, h, root, "root", st0);
      assert st'.visited - st0.visited == st'.visited;
      forall n: nat
        ensures !ReachesNull(v, h, root, n)
      {
        SettledReachesNoNull(v, h, root, st'.visited, n);
      }
    } else {
      var n := WalkPathGenuine(v, h, root, "root", st0, 0);
      PathToNullReaches(v, h, root, st'.found[0][4..], n);
    }
  }

  /** Every reported path is "root" followed by the steps to a `null` slot reachable from the root. */
  lemma FindNullPathsGenuine(v: Version, h: Heap, root: Ref, i: nat) returns (n: nat)
    requires i < |FindNullPaths(v, h, root)|
    ensures var p := FindNullPaths(v, h, root)[i];
      && StartsWith(p, "root")
      && PathToNull(v, h, root, p[4..], n)
  {
    n := WalkPathGenuine(v, h, root, "root", State({}, []), i);
  }

  /** A `null` root is reported as exactly "root" and nothing else is visited. */
  lemma NullRootReported(v: Version, h: Heap)
    ensures FindNullPaths(v, h, Null) == ["root"]
  {
  }

  /** An identity already entered contributes nothing, whatever the path. */
  lemma VisitedContributesNothing(v: Version, h: Heap, id: NodeId, path: string, st: State)
    requires id in st.visited
    ensures Walk(v, h, Ptr(id), path, st) == st
  {
  }

  /** Two versions that agree on every node's children walk identically. */
  lemma {:induction false} WalkAgrees(v1: Version, v2: Version, h: Heap, r: Ref, path: string, st: State)
    requires forall id :: id in h.nodes ==> Children(v1, h, id, h.nodes[id]) == Children(v2, h, id, h.nodes[id])
    ensures Walk(v1, h, r, path, st) == Walk(v2, h, r, path, st)
    decreases h.nodes.Keys - st.visited, 0
  {
    if r.Ptr? && r.id !in st.visited && r.id in h.nodes {
      var es := Children(v1, h, r.id, h.nodes[r.id]);
      WalkEdgesAgrees(v1, v2, h, es, path, State(st.visited + {r.id}, st.found));
    }
  }

  lemma {:induction false} WalkEdgesAgrees(v1: Version, v2: Version, h: Heap, es: seq<Edge>, path: string, st: State)
    requires forall id :: id in h.nodes ==> Children(v1, h, id, h.nodes[id]) == Children(v2, h, id, h.nodes[id])
    ensures WalkEdges(v1, h, es, path, st) == WalkEdges(v2, h, es, path, st)
    decreases h.nodes.Keys - st.visited, |es|
  {
    if es != [] {
      WalkAgrees(v1, v2, h, es[0].target, path + es[0].step, st);
      var st1 := Walk(v1, h, es[0].target, path + es[0].step, st);
      WalkEdgesAgrees(v1, v2, h, es[1..], path, st1);
    }
  }

  /** No plain object of the heap is a `java*` class or an enum. */
  predicate NoJdkOrEnumObjects(h: Heap)
  {
    forall id :: id in h.nodes && h.nodes[id].Obj? ==>
      !IsJdkClass(h.nodes[id].className) && !h.nodes[id].isEnum
  }

  /**
   * The older walker is the newer one with an empty registry, except that it
   * descends into `java*` classes and enums: on a heap with none of those the
   * two report the same paths.
   */
  lemma LegacyIsCurrentWithoutHandlers(h: Heap, root: Ref)
    requires NoJdkOrEnumObjects(h)
    ensures FindNullPaths(Legacy, h, root) == FindNullPaths(Current([]), h, root)
  {
    WalkAgrees(Legacy, Current([]), h, root, "root", State({}, []));
  }

  /** The newer walker does not look inside a `java*` object or an enum; the older one walks its fields. */
  lemma JdkAndEnumAreLeaves(h: Heap, hs: seq<Handler>, id: NodeId, className: string, isEnum: bool, levels: seq<seq<Field>>)
    requires IsJdkClass(className) || isEnum
    requires FirstHandler(hs, Obj(className, isEnum, levels)).None?
    ensures Children(Current(hs), h, id, Obj(className, isEnum, levels)) == []
    ensures Children(Legacy, h, id, Obj(className, isEnum, levels)) == FieldEdges(levels)
  {
  }

  /** The first handler in registry order that accepts a node handles it alone. */
  lemma HandlerPrecedence(hs: seq<Handler>, h: Heap, id: NodeId, n: Node, k: nat)
    requires !n.Leaf?
    requires k < |hs| && hs[k].canHandle(n)
    requires forall j :: 0 <= j < k ==> !hs[j].canHandle(n)
    ensures Children(Current(hs), h, id, n) == hs[k].validate(h, id, n)
  {
  }

  /** Leaves are never offered to a handler: their only check is their own slot. */
  lemma LeafHasNoChildren(v: Version, h: Heap, id: NodeId)
    ensures Children(v, h, id, Leaf) == []
  {
  }

  /** A node no handler accepts is dispatched as with an empty registry. */
  lemma UnclaimedUsesBuiltIn(hs: seq<Handler>, h: Heap, id: NodeId, n: Node)
    requires forall j :: 0 <= j < |hs| ==> !hs[j].canHandle(n)
    ensures Children(Current(hs), h, id, n) == Children(Current([]), h, id, n)
  {
  }
}
