/**
 * Concrete object graphs and the paths the walk reports for them, one per
 * documented scenario of the validators.
 */
module WalkerExamples {
  import opened Wrappers
  import opened Text
  import opened ObjectGraph
  import opened Edges
  import opened Walker
  import opened VavrHandler

  /** `toString` of the string nodes the examples use. */
  function Texts(id: NodeId): string
  {
    if id == 1 then "a" else if id == 2 then "k" else if id == 3 then "x" else if id == 4 then "b" else "obj"
  }

  /** A plain object whose only field points back at itself. */
  lemma SelfReferenceTerminates(v: Version)
    requires v == Legacy || v == Current([])
    ensures FindNullPaths(v, Heap(map[0 := Obj("Node", false, [[Field("self", false, false, Ptr(0))]])], Texts), Ptr(0)) == []
  {
    var h := Heap(map[0 := Obj("Node", false, [[Field("self", false, false, Ptr(0))]])], Texts);
    var f := Field("self", false, false, Ptr(0));
    var es := [Edge(Ptr(0), ".self")];
    assert [f][1..] == [];
    assert Walked(f);
    assert MemberStep("self") == ".self";
    assert LevelEdges([]) == [];
    assert LevelEdges([f]) == [Edge(f.value, MemberStep(f.name))] + LevelEdges([]);
    assert LevelEdges([f]) == es;
    assert [[f]][1..] == [];
    assert FieldEdges([[f]]) == es;
    assert !IsJdkClass("Node") by {
      assert "Node"[0] != "java"[0];
    }
    assert Children(v, h, 0, h.nodes[0]) == es;
    var marked := State({0}, []);
    assert Walk(v, h, Ptr(0), "root.self", marked) == marked;
    assert WalkEdges(v, h, es[1..], "root", marked) == marked;
    assert WalkEdges(v, h, es, "root", marked) == marked;
    assert State({} + {0}, []) == marked;
    assert Walk(v, h, Ptr(0), "root", State({}, [])) == marked;
  }

  /** Unfolds one step of a child list whose first edge leads to `p`. */
  lemma Step(v: Version, h: Heap, e: Edge, rest: seq<Edge>, path: string, st: State, p: string)
    requires p == path + e.step
    ensures WalkEdges(v, h, [e] + rest, path, st) == WalkEdges(v, h, rest, path, Walk(v, h, e.target, p, st))
  {
    assert ([e] + rest)[1..] == rest;
  }

  /** Entering a leaf only marks it. */
  lemma WalkLeaf(v: Version, h: Heap, id: NodeId, path: string, st: State)
    requires id in h.nodes && h.nodes[id] == Leaf && id !in st.visited
    ensures Walk(v, h, Ptr(id), path, st) == State(st.visited + {id}, st.found)
  {
  }

  /** Entering node `id` from fresh accumulators walks its children with `id` marked. */
  lemma WalkRoot(v: Version, h: Heap, id: NodeId, es: seq<Edge>)
    requires id in h.nodes && Children(v, h, id, h.nodes[id]) == es
    ensures FindNullPaths(v, h, Ptr(id)) == WalkEdges(v, h, es, "root", State({id}, [])).found
  {
    assert State({} + {id}, []) == State({id}, []);
  }

  lemma ListChildren(v: Version, h: Heap)
    requires v == Legacy || v == Current([])
    requires 0 in h.nodes && h.nodes[0] == Coll([Ptr(1), Null, Ptr(3)])
    ensures Children(v, h, 0, h.nodes[0]) == [Edge(Ptr(1), "[0]"), Edge(Null, "[1]"), Edge(Ptr(3), "[2]")]
  {
    assert NatToString(0) == "0" && NatToString(1) == "1" && NatToString(2) == "2";
    assert IndexStep(0) == "[0]" && IndexStep(1) == "[1]" && IndexStep(2) == "[2]";
  }

  /** `["a", null, "x"]` as a list reports the null at its index. */
  lemma ListWithNull(v: Version)
    requires v == Legacy || v == Current([])
    ensures FindNullPaths(v, Heap(map[0 := Coll([Ptr(1), Null, Ptr(3)]), 1 := Leaf, 3 := Leaf], Texts), Ptr(0)) == ["root[1]"]
  {
    var h := Heap(map[0 := Coll([Ptr(1), Null, Ptr(3)]), 1 := Leaf, 3 := Leaf], Texts);
    var e0, e1, e2 := Edge(Ptr(1), "[0]"), Edge(Null, "[1]"), Edge(Ptr(3), "[2]");
    ListChildren(v, h);
    WalkRoot(v, h, 0, [e0, e1, e2]);
    var s0 := State({0}, []);
    var s1 := State({0, 1}, []);
    var s2 := State({0, 1}, ["root[1]"]);
    var s3 := State({0, 1, 3}, ["root[1]"]);
    assert [e0, e1, e2] == [e0] + [e1, e2] && [e1, e2] == [e1] + [e2] && [e2] == [e2] + [];
    assert WalkEdges(v, h, [e0, e1, e2], "root", s0) == WalkEdges(v, h, [e1, e2], "root", s1) by {
      Step(v, h, e0, [e1, e2], "root", s0, "root[0]");
      WalkLeaf(v, h, 1, "root[0]", s0);
      assert s0.visited + {1} == s1.visited;
    }
    assert WalkEdges(v, h, [e1, e2], "root", s1) == WalkEdges(v, h, [e2], "root", s2) by {
      Step(v, h, e1, [e2], "root", s1, "root[1]");
      assert s1.found + ["root[1]"] == s2.found;
    }
    assert WalkEdges(v, h, [e2], "root", s2) == s3 by {
      Step(v, h, e2, [], "root", s2, "root[2]");
      WalkLeaf(v, h, 3, "root[2]", s2);
      assert s2.visited + {3} == s3.visited;
    }
  }

  lemma MapChildren(v: Version, h: Heap)
    requires v == Legacy || v == Current([])
    requires 0 in h.nodes && h.nodes[0] == MapN([(Null, Ptr(3)), (Ptr(2), Null)]) && h.text(2) == "k"
    ensures Children(v, h, 0, h.nodes[0])
      == [Edge(Null, ".key[null]"), Edge(Ptr(3), "[null]"), Edge(Ptr(2), ".key[k]"), Edge(Null, "[k]")]
  {
    var entries := [(Null, Ptr(3)), (Ptr(2), Null)];
    assert KeyStep(h, Null) == ".key[null]" && ValueStep(h, Null) == "[null]";
    assert KeyStep(h, Ptr(2)) == ".key[k]" && ValueStep(h, Ptr(2)) == "[k]";
    assert entries[1..] == [(Ptr(2), Null)] && entries[1..][1..] == [];
    assert MapEdges(h, entries[1..][1..]) == [];
    assert MapEdges(h, entries[1..]) == [Edge(Ptr(2), ".key[k]"), Edge(Null, "[k]")];
    assert MapEdges(h, entries) == [Edge(Null, ".key[null]"), Edge(Ptr(3), "[null]")] + MapEdges(h, entries[1..]);
  }

  /** A map with a null key and a null value reports the key at `.key[null]` and the value at `[k]`. */
  lemma MapWithNullKeyAndValue(v: Version)
    requires v == Legacy || v == Current([])
    ensures FindNullPaths(v, Heap(map[0 := MapN([(Null, Ptr(3)), (Ptr(2), Null)]), 2 := Leaf, 3 := Leaf], Texts), Ptr(0))
      == ["root.key[null]", "root[k]"]
  {
    MapWalk(v, Heap(map[0 := MapN([(Null, Ptr(3)), (Ptr(2), Null)]), 2 := Leaf, 3 := Leaf], Texts));
  }

  lemma MapWalk(v: Version, h: Heap)
    requires v == Legacy || v == Current([])
    requires 0 in h.nodes && h.nodes[0] == MapN([(Null, Ptr(3)), (Ptr(2), Null)]) && h.text(2) == "k"
    requires 2 in h.nodes && h.nodes[2] == Leaf && 3 in h.nodes && h.nodes[3] == Leaf
    ensures FindNullPaths(v, h, Ptr(0)) == ["root.key[null]", "root[k]"]
  {
    var e0, e1, e2, e3 := Edge(Null, ".key[null]"), Edge(Ptr(3), "[null]"), Edge(Ptr(2), ".key[k]"), Edge(Null, "[k]");
    MapChildren(v, h);
    WalkRoot(v, h, 0, [e0, e1, e2, e3]);
    var s0 := State({0}, []);
    var s1 := State({0}, ["root.key[null]"]);
    var s2 := State({0, 3}, ["root.key[null]"]);
    assert [e0, e1, e2, e3] == [e0] + [e1, e2, e3] && [e1, e2, e3] == [e1] + [e2, e3];
    assert WalkEdges(v, h, [e0, e1, e2, e3], "root", s0) == WalkEdges(v, h, [e1, e2, e3], "root", s1) by {
      Step(v, h, e0, [e1, e2, e3], "root", s0, "root.key[null]");
      assert s0.found + ["root.key[null]"] == s1.found;
    }
    assert WalkEdges(v, h, [e1, e2, e3], "root", s1) == WalkEdges(v, h, [e2, e3], "root", s2) by {
      Step(v, h, e1, [e2, e3], "root", s1, "root[null]");
      WalkLeaf(v, h, 3, "root[null]", s1);
      assert s1.visited + {3} == s2.visited;
    }
    MapWalkTail(v, h);
  }

  /** The second entry of the map example: key "k" is fine, its null value is reported. */
  lemma MapWalkTail(v: Version, h: Heap)
    requires 2 in h.nodes && h.nodes[2] == Leaf
    ensures WalkEdges(v, h, [Edge(Ptr(2), ".key[k]"), Edge(Null, "[k]")], "root", State({0, 3}, ["root.key[null]"]))
      == State({0, 2, 3}, ["root.key[null]", "root[k]"])
  {
    var e2, e3 := Edge(Ptr(2), ".key[k]"), Edge(Null, "[k]");
    var s2 := State({0, 3}, ["root.key[null]"]);
    var s3 := State({0, 2, 3}, ["root.key[null]"]);
    assert [e2, e3] == [e2] + [e3] && [e3] == [e3] + [];
    assert WalkEdges(v, h, [e2, e3], "root", s2) == WalkEdges(v, h, [e3], "root", s3) by {
      Step(v, h, e2, [e3], "root", s2, "root.key[k]");
      WalkLeaf(v, h, 2, "root.key[k]", s2);
      assert s2.visited + {2} == s3.visited;
    }
    assert WalkEdges(v, h, [e3], "root", s3) == State(s3.visited, ["root.key[null]", "root[k]"]) by {
      Step(v, h, e3, [], "root", s3, "root[k]");
      assert s3.found + ["root[k]"] == ["root.key[null]", "root[k]"];
    }
  }

  lemma VavrMapEntryChildren(v: Version, h: Heap)
    requires v == Current([VavrTypeValidator()])
    requires 0 in h.nodes && h.nodes[0] == VMap([(Ptr(1), Ptr(5))], []) && h.text(1) == "a"
    ensures Children(v, h, 0, h.nodes[0]) == [Edge(Ptr(1), ".key[0]"), Edge(Ptr(5), "[a]")]
  {
    assert FirstHandler(v.registry, VMap([(Ptr(1), Ptr(5))], [])) == Some(0);
    assert NatToString(0) == "0";
    assert KeyPositionStep(0) == ".key[0]" && ValueStep(h, Ptr(1)) == "[a]";
  }

  lemma RecChildren(v: Version, h: Heap, fa: Field, fb: Field)
    requires v == Current([VavrTypeValidator()])
    requires fa == Field("a", false, false, Ptr(6)) && fb == Field("b", false, false, Null)
    requires 5 in h.nodes && h.nodes[5] == Obj("Rec", false, [[fa, fb]])
    ensures Children(v, h, 5, h.nodes[5]) == [Edge(Ptr(6), ".a"), Edge(Null, ".b")]
  {
    assert FirstHandler(v.registry, h.nodes[5]) == None;
    assert !IsJdkClass("Rec") by {
      assert "Rec"[0] != "java"[0];
    }
    assert [fa, fb][1..] == [fb] && [fb][1..] == [] && [[fa, fb]][1..] == [];
    assert LevelEdges([]) == [] && FieldEdges([]) == [];
    assert MemberStep("a") == ".a" && MemberStep("b") == ".b";
    assert LevelEdges([fb]) == [Edge(Null, ".b")] + LevelEdges([]);
    assert LevelEdges([fa, fb]) == [Edge(Ptr(6), ".a")] + LevelEdges([fb]);
    assert FieldEdges([[fa, fb]]) == LevelEdges([fa, fb]) + FieldEdges([]);
  }

  /**
   * A Vavr map `{"a": Rec("ok", null)}` under the Vavr handler: the value is
   * reported under its key text, `root[a].b`.
   */
  lemma VavrMapValuePath()
    ensures FindNullPaths(
      Current([VavrTypeValidator()]),
      Heap(map[0 := VMap([(Ptr(1), Ptr(5))], []), 1 := Leaf, 5 := Obj("Rec", false, [[Field("a", false, false, Ptr(6)), Field("b", false, false, Null)]]), 6 := Leaf], Texts),
      Ptr(0)) == ["root[a].b"]
  {
    var fa := Field("a", false, false, Ptr(6));
    var fb := Field("b", false, false, Null);
    VavrMapWalk(Current([VavrTypeValidator()]),
      Heap(map[0 := VMap([(Ptr(1), Ptr(5))], []), 1 := Leaf, 5 := Obj("Rec", false, [[fa, fb]]), 6 := Leaf], Texts), fa, fb);
  }

  lemma VavrMapWalk(v: Version, h: Heap, fa: Field, fb: Field)
    requires v == Current([VavrTypeValidator()])
    requires fa == Field("a", false, false, Ptr(6)) && fb == Field("b", false, false, Null)
    requires 0 in h.nodes && h.nodes[0] == VMap([(Ptr(1), Ptr(5))], []) && h.text(1) == "a"
    requires 5 in h.nodes && h.nodes[5] == Obj("Rec", false, [[fa, fb]])
    requires 1 in h.nodes && h.nodes[1] == Leaf && 6 in h.nodes && h.nodes[6] == Leaf
    ensures FindNullPaths(v, h, Ptr(0)) == ["root[a].b"]
  {
    var e0, e1 := Edge(Ptr(1), ".key[0]"), Edge(Ptr(5), "[a]");
    var f0, f1 := Edge(Ptr(6), ".a"), Edge(Null, ".b");
    VavrMapEntryChildren(v, h);
    RecChildren(v, h, fa, fb);
    WalkRoot(v, h, 0, [e0, e1]);
    var s0 := State({0}, []);
    var s1 := State({0, 1}, []);
    var r0 := State({0, 1, 5}, []);
    var r1 := State({0, 1, 5, 6}, []);
    var r2 := State({0, 1, 5, 6}, ["root[a].b"]);
    assert [e0, e1] == [e0] + [e1] && [e1] == [e1] + [];
    assert [f0, f1] == [f0] + [f1] && [f1] == [f1] + [];
    assert WalkEdges(v, h, [e0, e1], "root", s0) == WalkEdges(v, h, [e1], "root", s1) by {
      Step(v, h, e0, [e1], "root", s0, "root.key[0]");
      WalkLeaf(v, h, 1, "root.key[0]", s0);
      assert s0.visited + {1} == s1.visited;
    }
    assert WalkEdges(v, h, [f0, f1], "root[a]", r0) == WalkEdges(v, h, [f1], "root[a]", r1) by {
      Step(v, h, f0, [f1], "root[a]", r0, "root[a].a");
      WalkLeaf(v, h, 6, "root[a].a", r0);
      assert r0.visited + {6} == r1.visited;
    }
    assert WalkEdges(v, h, [f1], "root[a]", r1) == r2 by {
      Step(v, h, f1, [], "root[a]", r1, "root[a].b");
      assert r1.found + ["root[a].b"] == r2.found;
    }
    assert Walk(v, h, Ptr(5), "root[a]", s1) == r2 by {
      assert s1.visited + {5} == r0.visited;
    }
    assert WalkEdges(v, h, [e1], "root", s1) == r2 by {
      Step(v, h, e1, [], "root", s1, "root[a]");
    }
  }

  /**
   * `Option.of(new Holder(null))`: a Vavr `Some` (node 0) whose one field
   * `value` holds a `Holder` (node 7) whose field `held` is `null`.
   */
  function SomeHolderHeap(): Heap
  {
    Heap(map[0 := VValue([Ptr(7)], [[Field("value", false, false, Ptr(7))]]),
             7 := Obj("Holder", false, [[Field("held", false, false, Null)]])], Texts)
  }

  /** The `Holder` is a plain object under either walker: its one field is walked at `.held`. */
  lemma HolderChildren(v: Version)
    requires v == Legacy || v == Current([VavrTypeValidator()])
    ensures Children(v, SomeHolderHeap(), 7, SomeHolderHeap().nodes[7]) == [Edge(Null, ".held")]
  {
    var f := Field("held", false, false, Null);
    assert FirstHandler([VavrTypeValidator()], SomeHolderHeap().nodes[7]) == None;
    assert !IsJdkClass("Holder") by {
      assert "Holder"[0] != "java"[0];
    }
    assert [f][1..] == [] && [[f]][1..] == [];
    assert MemberStep("held") == ".held";
    assert LevelEdges([f]) == [Edge(Null, ".held")] + LevelEdges([]);
  }

  /**
   * The older walker, which has no handler registry, walks the `Some` by its
   * fields, so the `null` is reported at `root.value.held`, not at the
   * `root.held` the older Vavr module's tests expect.
   */
  lemma LegacyVavrSomeByFields()
    ensures FindNullPaths(Legacy, SomeHolderHeap(), Ptr(0)) == ["root.value.held"]
    ensures FindNullPaths(Legacy, SomeHolderHeap(), Ptr(0)) != ["root.held"]
  {
    var h := SomeHolderHeap();
    var fv := Field("value", false, false, Ptr(7));
    var e0, e1 := Edge(Ptr(7), ".value"), Edge(Null, ".held");
    assert [fv][1..] == [] && [[fv]][1..] == [];
    assert MemberStep("value") == ".value";
    assert LevelEdges([fv]) == [e0] + LevelEdges([]);
    assert Children(Legacy, h, 0, h.nodes[0]) == [e0];
    HolderChildren(Legacy);
    WalkRoot(Legacy, h, 0, [e0]);
    var s0 := State({0}, []);
    var s1 := State({0, 7}, []);
    var s2 := State({0, 7}, ["root.value.held"]);
    assert WalkEdges(Legacy, h, [e1], "root.value", s1) == s2 by {
      Step(Legacy, h, e1, [], "root.value", s1, "root.value.held");
      assert s1.found + ["root.value.held"] == s2.found;
    }
    assert Walk(Legacy, h, Ptr(7), "root.value", s0) == s2 by {
      assert s0.visited + {7} == s1.visited;
    }
    assert WalkEdges(Legacy, h, [e0], "root", s0) == s2 by {
      Step(Legacy, h, e0, [], "root", s0, "root.value");
    }
    assert "root.value.held"[5] != "root.held"[5];
  }

  /**
   * The newer walker with the Vavr handler passes through the `Some` at the
   * same path, so the same graph reports `root.held`, as the tests expect.
   */
  lemma VavrSomeHeldPath()
    ensures FindNullPaths(Current([VavrTypeValidator()]), SomeHolderHeap(), Ptr(0)) == ["root.held"]
  {
    var v := Current([VavrTypeValidator()]);
    var h := SomeHolderHeap();
    var e0, e1 := Edge(Ptr(7), ""), Edge(Null, ".held");
    assert FirstHandler(v.registry, h.nodes[0]) == Some(0);
    assert SameSlotEdges([Ptr(7)]) == [e0];
    assert Children(v, h, 0, h.nodes[0]) == [e0];
    HolderChildren(v);
    WalkRoot(v, h, 0, [e0]);
    var s0 := State({0}, []);
    var s1 := State({0, 7}, []);
    var s2 := State({0, 7}, ["root.held"]);
    assert WalkEdges(v, h, [e1], "root", s1) == s2 by {
      Step(v, h, e1, [], "root", s1, "root.held");
      assert s1.found + ["root.held"] == s2.found;
    }
    assert Walk(v, h, Ptr(7), "root", s0) == s2 by {
      assert s0.visited + {7} == s1.visited;
    }
    assert WalkEdges(v, h, [e0], "root", s0) == s2 by {
      Step(v, h, e0, [], "root", s0, "root" + "");
      assert "root" + "" == "root";
    }
  }
}
