/**
 * The Vavr-friendly wrappers: instead of throwing, they return a Vavr `Try`,
 * `Either`, `Option` or `Validation`. The `validator-vavr` module wraps the
 * newer validator; the `vavr-support` module wraps the older one.
 */
module VavrAdapters {
  import opened Wrappers
  import opened ObjectGraph
  import opened Edges
  import opened Walker
  import opened WalkerTheory
  import opened Exceptions
  import opened Validators

  /** `io.vavr.control.Try`, whose failures here always carry the Vavr `NullsFoundException`. */
  datatype Try<+T> = Success(value: T) | Failure(cause: NullsFoundException)
  {
    /** `fold(ifFailure, ifSuccess)`. */
    function Fold<U>(ifFailure: NullsFoundException -> U, ifSuccess: T -> U): (u: U)
      ensures Success? ==> u == ifSuccess(value)
      ensures Failure? ==> u == ifFailure(cause)
    {
      match this
      case Success(v) => ifSuccess(v)
      case Failure(e) => ifFailure(e)
    }
  }

  /** `io.vavr.control.Either`. */
  datatype Either<+L, +R> = Left(left: L) | Right(right: R)

  /** `io.vavr.control.Validation`. */
  datatype Validation<+E, +T> = Valid(value: T) | Invalid(error: E)

  /** `Option.of`: `null` becomes `None`. */
  function OptionOf(r: Ref): (o: Option<Ref>)
    ensures o.Some? <==> r.Ptr?
    ensures o.Some? ==> o.value == r
  {
    if r.Null? then None else Some(r)
  }

  // ---- validator-vavr: wraps the newer validator ----

  /** `assertNoNulls`: `Success(value)` when there are no null paths, else `Failure` with all of them. */
  function TryAssertNoNulls(registry: seq<Handler>, h: Heap, value: Ref): (t: Try<Ref>)
    ensures t.Success? <==> Validators.FindNullPaths(registry, h, value) == []
    ensures t.Success? ==> t.value == value
    ensures t.Failure? ==> t.cause.nullPaths == Validators.FindNullPaths(registry, h, value)
  {
    var paths := Validators.FindNullPaths(registry, h, value);
    if paths == [] then Success(value) else Failure(NullsFoundException(paths))
  }

  /** `assertNoNullsEither`: `Right(value)` when there are no null paths, else `Left(paths)`. */
  function AssertNoNullsEither(registry: seq<Handler>, h: Heap, value: Ref): (e: Either<seq<string>, Ref>)
    ensures e.Right? <==> Validators.FindNullPaths(registry, h, value) == []
    ensures e.Right? ==> e.right == value
    ensures e.Left? ==> e.left == Validators.FindNullPaths(registry, h, value)
  {
    var paths := Validators.FindNullPaths(registry, h, value);
    if paths == [] then Right(value) else Left(paths)
  }

  /** `whenNoNulls`: `Option.of(value)` when `hasNoNulls`, else `None`. */
  function WhenNoNulls(registry: seq<Handler>, h: Heap, value: Ref): (o: Option<Ref>)
    ensures o.Some? <==> HasNoNulls(registry, h, value)
    ensures o.Some? ==> o.value == value
  {
    if HasNoNulls(registry, h, value) then
      NullRootReported(Current(registry), h);
      OptionOf(value)
    else None
  }

  /** `validate`: `Valid(value)` when there are no null paths, else `Invalid(paths)`. */
  function Validate(registry: seq<Handler>, h: Heap, value: Ref): (v: Validation<seq<string>, Ref>)
    ensures v.Valid? <==> Validators.FindNullPaths(registry, h, value) == []
    ensures v.Valid? ==> v.value == value
    ensures v.Invalid? ==> v.error == Validators.FindNullPaths(registry, h, value)
  {
    var paths := Validators.FindNullPaths(registry, h, value);
    if paths == [] then Valid(value) else Invalid(paths)
  }

  /**
   * The four adapters agree: all succeed with the value itself, or all fail,
   * and the failures carry the same paths; success means no null is reachable.
   */
  lemma AdaptersAgree(registry: seq<Handler>, h: Heap, value: Ref)
    ensures var t := TryAssertNoNulls(registry, h, value);
      && (t.Success? <==> AssertNoNullsEither(registry, h, value).Right?)
      && (t.Success? <==> WhenNoNulls(registry, h, value).Some?)
      && (t.Success? <==> Validate(registry, h, value).Valid?)
      && (t.Success? <==> !NullReachable(Current(registry), h, value))
      && (t.Failure? ==>
            && AssertNoNullsEither(registry, h, value).left == t.cause.nullPaths
            && Validate(registry, h, value).error == t.cause.nullPaths)
  {
    FindNullPathsEmptyIff(Current(registry), h, value);
  }

  /** A `null` argument always fails, reported at "root". */
  lemma NullArgumentFails(registry: seq<Handler>, h: Heap)
    ensures TryAssertNoNulls(registry, h, Null) == Failure(NullsFoundException(["root"]))
    ensures AssertNoNullsEither(registry, h, Null) == Left(["root"])
    ensures WhenNoNulls(registry, h, Null) == None
    ensures Validate(registry, h, Null) == Invalid(["root"])
  {
    NullRootReported(Current(registry), h);
  }

  // ---- vavr-support: wraps the older validator ----

  /**
   * `assertNoNulls`: runs the older assertion; on success returns the value,
   * and on a `NullsFoundException` returns a `Failure` carrying a Vavr
   * `NullsFoundException` with the same paths.
   */
  function LegacyTryAssertNoNulls(h: Heap, value: Ref): (t: Try<Ref>)
    ensures t.Success? <==> LegacyAssertNoNulls(h, value).Normal?
    ensures t.Success? ==> t.value == value
    ensures t.Failure? ==> t.cause.nullPaths == LegacyAssertNoNulls(h, value).thrown.nullPaths
  {
    match LegacyAssertNoNulls(h, value)
    case Normal(_) => Success(value)
    case Abrupt(e) => Failure(NullsFoundException(e.nullPaths))
  }

  /** `whenNoNulls`: `Option.some(value)` when the older `hasNoNulls` holds, else `None`. */
  function LegacyWhenNoNulls(h: Heap, value: Ref): (o: Option<Ref>)
    ensures o.Some? <==> LegacyHasNoNulls(h, value)
    ensures o.Some? ==> o.value == value
  {
    if LegacyHasNoNulls(h, value) then Some(value) else None
  }

  /** The failure paths of a `Try`, as `validate` reads them back from the exception. */
  function FailurePaths(e: NullsFoundException): seq<string>
  {
    e.nullPaths
  }

  /** `validate`: a fold of `assertNoNulls`, `Invalid` with the failure's paths or `Valid` with the value. */
  function LegacyValidate(h: Heap, value: Ref): (v: Validation<seq<string>, Ref>)
    ensures v.Valid? <==> LegacyTryAssertNoNulls(h, value).Success?
    ensures v.Valid? ==> v.value == value
    ensures v.Invalid? ==> v.error == LegacyTryAssertNoNulls(h, value).cause.nullPaths
  {
    LegacyTryAssertNoNulls(h, value).Fold(
      (e: NullsFoundException) => Invalid(FailurePaths(e)),
      (x: Ref) => Valid(x))
  }

  /**
   * The older adapters agree with each other and with reachability, and they
   * fail with exactly the older walker's paths.
   */
  lemma LegacyAdaptersAgree(h: Heap, value: Ref)
    ensures var t := LegacyTryAssertNoNulls(h, value);
      && (t.Success? <==> LegacyWhenNoNulls(h, value).Some?)
      && (t.Success? <==> LegacyValidate(h, value).Valid?)
      && (t.Success? <==> !NullReachable(Legacy, h, value))
      && (t.Failure? ==> t.cause.nullPaths == Walker.FindNullPaths(Legacy, h, value))
      && (t.Failure? ==> LegacyValidate(h, value).error == Walker.FindNullPaths(Legacy, h, value))
  {
  }

  /**
   * On a heap with no `java*` or enum objects, the older adapters give the
   * same answers as the newer ones with an empty handler registry.
   */
  lemma LegacyMatchesCurrentWithoutHandlers(h: Heap, value: Ref)
    requires NoJdkOrEnumObjects(h)
    ensures LegacyTryAssertNoNulls(h, value) == TryAssertNoNulls([], h, value)
    ensures LegacyValidate(h, value) == Validate([], h, value)
    ensures LegacyWhenNoNulls(h, value) == WhenNoNulls([], h, value)
  {
    LegacyIsCurrentWithoutHandlers(h, value);
    NullRootReported(Legacy, h);
  }
}
