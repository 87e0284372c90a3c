/**
 * The public entry points of both validators. The newer `validator` package
 * returns its argument from `assertNoNulls` and consults the handler
 * registry; the older `validation` package's `assertNoNulls` returns nothing
 * and its `hasNoNulls` catches the exception.
 */
module Validators {
  import opened Wrappers
  import opened ObjectGraph
  import opened Edges
  import opened Walker
  import opened WalkerTheory
  import opened Exceptions

  /** Throws the collected paths, or completes normally when there are none. */
  function RaiseIfAny(paths: seq<string>): (r: Completion<(), NullsFoundException>)
    ensures r.Normal? <==> paths == []
    ensures r.Abrupt? ==> r.thrown.nullPaths == paths
  {
    if paths == [] then Normal(())
    else
      match NewNullsFoundException(Some(paths))
      case Normal(e) => Abrupt(e)
      case Abrupt(_) => assert false; Normal(())
  }

  /** `findNullPaths` of the newer validator, whose registry is the handlers found at class load. */
  function FindNullPaths(registry: seq<Handler>, h: Heap, obj: Ref): seq<string>
  {
    Walker.FindNullPaths(Current(registry), h, obj)
  }

  /**
   * `assertNoNulls` of the newer validator: the argument itself when no null
   * is found (it is then never `null`), otherwise a `NullsFoundException`
   * with every path.
   */
  function AssertNoNulls(registry: seq<Handler>, h: Heap, obj: Ref): (r: Completion<Ref, NullsFoundException>)
    ensures r.Normal? <==> !NullReachable(Current(registry), h, obj)
    ensures r.Normal? ==> r.value == obj && obj.Ptr?
    ensures r.Abrupt? ==> r.thrown.nullPaths == FindNullPaths(registry, h, obj) && r.thrown.nullPaths != []
  {
    FindNullPathsEmptyIff(Current(registry), h, obj);
    match RaiseIfAny(FindNullPaths(registry, h, obj))
    case Normal(_) => Normal(obj)
    case Abrupt(e) => Abrupt(e)
  }

  /** `hasNoNulls` of the newer validator. */
  function HasNoNulls(registry: seq<Handler>, h: Heap, obj: Ref): (b: bool)
    ensures b <==> !NullReachable(Current(registry), h, obj)
    ensures b <==> AssertNoNulls(registry, h, obj).Normal?
  {
    FindNullPathsEmptyIff(Current(registry), h, obj);
    FindNullPaths(registry, h, obj) == []
  }

  /** `assertNoNulls` of the older validator: returns nothing, or throws with every path. */
  function LegacyAssertNoNulls(h: Heap, obj: Ref): (r: Completion<(), NullsFoundException>)
    ensures r.Normal? <==> !NullReachable(Legacy, h, obj)
    ensures r.Abrupt? ==> r.thrown.nullPaths == Walker.FindNullPaths(Legacy, h, obj)
  {
    FindNullPathsEmptyIff(Legacy, h, obj);
    RaiseIfAny(Walker.FindNullPaths(Legacy, h, obj))
  }

  /** `hasNoNulls` of the older validator: true when the assertion does not throw. */
  function LegacyHasNoNulls(h: Heap, obj: Ref): (b: bool)
    ensures b <==> Walker.FindNullPaths(Legacy, h, obj) == []
    ensures b <==> !NullReachable(Legacy, h, obj)
  {
    match LegacyAssertNoNulls(h, obj)
    case Normal(_) => true
    case Abrupt(_) => false
  }

  /** A `null` argument is never accepted, by either validator, whatever the registry. */
  lemma NullArgumentRejected(registry: seq<Handler>, h: Heap)
    ensures AssertNoNulls(registry, h, Null) == Abrupt(NullsFoundException(["root"]))
    ensures !HasNoNulls(registry, h, Null)
    ensures LegacyAssertNoNulls(h, Null) == Abrupt(NullsFoundException(["root"]))
    ensures !LegacyHasNoNulls(h, Null)
  {
    NullRootReported(Current(registry), h);
    NullRootReported(Legacy, h);
  }
}
