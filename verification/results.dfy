/**
 * The `Result` wrapper of both Jackson modules, the decoder that produces it
 * (decode, then validate, then exactly one of three outcomes) and the
 * null-validating decoder that fails instead.
 */
module Results {
  import opened Wrappers
  import opened Text
  import opened ObjectGraph
  import opened Edges
  import opened Walker
  import opened WalkerTheory
  import opened Exceptions
  import opened Validators

  /**
   * `Success` holds the decoded value; the two `Failure`s hold the Jackson
   * exception that stopped decoding or the validator's exception.
   */
  datatype Result =
    | Success(value: Ref)
    | InvalidJson(jacksonException: Thrown)
    | NullsFound(nullsException: NullsFoundException)
  {
    predicate IsSuccess()
    {
      Success?
    }

    /** Implementing the sealed `Failure` interface: both failure variants, nothing else. */
    predicate IsFailure()
    {
      InvalidJson? || NullsFound?
    }

    /** `Failure.exception()`: the carried exception, as thrown. */
    function Exception(): (e: Thrown)
      requires IsFailure()
      ensures InvalidJson? ==> e == jacksonException
      ensures NullsFound? ==> e == Thrown.NullsFound(nullsException)
    {
      if InvalidJson? then jacksonException else Thrown.NullsFound(nullsException)
    }
  }

  /** The Jackson 3 `Success` constructor: `requireNonNull` rejects a `null` value. */
  function NewSuccess(value: Ref): (r: Completion<Result, Thrown>)
    ensures r.Normal? <==> value.Ptr?
    ensures r.Normal? ==> r.value == Success(value)
    ensures r.Abrupt? ==> r.thrown == NullPointer
  {
    if value.Null? then Abrupt(NullPointer) else Normal(Success(value))
  }

  /**
   * `toOptional` (Jackson 3) and `get` (Jackson 2): `Optional.of` the value of
   * a `Success`, empty for a `Failure`. `Optional.of` fails on `null`, which
   * only a Jackson 2 `Success` can hold.
   */
  function ToOptional(r: Result): (o: Completion<Option<Ref>, Thrown>)
    ensures o.Normal? && o.value.Some? <==> r.Success? && r.value.Ptr?
    ensures o.Normal? && o.value.Some? ==> o.value.value == r.value
    ensures o.Normal? && o.value.None? <==> r.IsFailure()
    ensures o.Abrupt? <==> r == Success(Null)
    ensures o.Abrupt? ==> o.thrown == NullPointer
  {
    match r
    case Success(v) => if v.Null? then Abrupt(NullPointer) else Normal(Some(v))
    case _ => Normal(None)
  }

  /**
   * The exceptions both modules catch as invalid JSON (`JacksonException` in
   * Jackson 3, `JsonProcessingException` in Jackson 2): wrong-token reports,
   * other processing failures and the mapping exception of a null-validating
   * decoder. `NullsFoundException` and the JDK's runtime exceptions are not.
   */
  predicate IsJacksonException(t: Thrown)
  {
    t.WrongToken? || t.JacksonFailure? || t.ValidationFailed?
  }

  /** A value-returning `assertNoNulls` over the walker of the given version. */
  function ValidateWith(v: Version, h: Heap, obj: Ref): (r: Completion<Ref, NullsFoundException>)
    ensures r.Normal? <==> !NullReachable(v, h, obj)
    ensures r.Normal? ==> r.value == obj && obj.Ptr?
    ensures r.Abrupt? ==> r.thrown.nullPaths == Walker.FindNullPaths(v, h, obj) && r.thrown.nullPaths != []
  {
    FindNullPathsEmptyIff(v, h, obj);
    NullRootReported(v, h);
    match RaiseIfAny(Walker.FindNullPaths(v, h, obj))
    case Normal(_) => Normal(obj)
    case Abrupt(e) => Abrupt(e)
  }

  /** With the current walker, this is exactly the newer validator's `assertNoNulls`. */
  lemma ValidateWithCurrentIsAssertNoNulls(registry: seq<Handler>, h: Heap, obj: Ref)
    ensures ValidateWith(Current(registry), h, obj) == AssertNoNulls(registry, h, obj)
  {
  }

  /**
   * `ResultDeserializer.deserialize`, given what the element decoder did:
   * a Jackson exception becomes `InvalidJson`, a `NullsFoundException` (from
   * the validator or from the decoder) becomes `NullsFound`, any other
   * exception propagates, and a value is validated and wrapped in `Success`.
   */
  function DeserializeResult(v: Version, h: Heap, decoded: Completion<Ref, Thrown>): (r: Completion<Result, Thrown>)
  {
    match decoded
    case Abrupt(t) =>
      if IsJacksonException(t) then Normal(InvalidJson(t))
      else if t.NullsFound? then Normal(Result.NullsFound(t.exception))
      else Abrupt(t)
    case Normal(obj) =>
      match ValidateWith(v, h, obj)
      case Abrupt(e) => Normal(Result.NullsFound(e))
      case Normal(value) => NewSuccess(value)
  }

  /** The Jackson 3 decoder validates with the newer validator and its handler registry. */
  function DeserializeResult3(registry: seq<Handler>, h: Heap, decoded: Completion<Ref, Thrown>): (r: Completion<Result, Thrown>)
    ensures r.Normal? && r.value.Success? ==> r.value.value.Ptr?
  {
    DeserializeResult(Current(registry), h, decoded)
  }

  /** The Jackson 2 decoder validates with the older validator, which consults no handler. */
  function DeserializeResult2(h: Heap, decoded: Completion<Ref, Thrown>): (r: Completion<Result, Thrown>)
    ensures r.Normal? && r.value.Success? ==> r.value.value.Ptr?
  {
    DeserializeResult(Legacy, h, decoded)
  }

  /**
   * Every outcome characterised by its cause: `Success` exactly for a decoded
   * value with no reachable `null`, holding that very value; `NullsFound`
   * exactly for a decoded value with one (carrying every path) or a thrown
   * `NullsFoundException`; `InvalidJson` exactly for a Jackson exception; and
   * propagation exactly for any other exception.
   */
  lemma ResultOutcomes(v: Version, h: Heap, decoded: Completion<Ref, Thrown>)
    ensures var r := DeserializeResult(v, h, decoded);
      && (r.Normal? && r.value.Success? <==> decoded.Normal? && !NullReachable(v, h, decoded.value))
      && (r.Normal? && r.value.Success? ==> r.value.value == decoded.value && r.value.value.Ptr?)
      && (r.Normal? && r.value.NullsFound? <==>
            (decoded.Normal? && NullReachable(v, h, decoded.value)) || (decoded.Abrupt? && decoded.thrown.NullsFound?))
      && (r.Normal? && r.value.NullsFound? && decoded.Normal? ==>
            r.value.nullsException.nullPaths == Walker.FindNullPaths(v, h, decoded.value))
      && (r.Normal? && r.value.InvalidJson? <==> decoded.Abrupt? && IsJacksonException(decoded.thrown))
      && (r.Normal? && r.value.InvalidJson? ==> r.value.jacksonException == decoded.thrown)
      && (r.Abrupt? <==> decoded.Abrupt? && !IsJacksonException(decoded.thrown) && !decoded.thrown.NullsFound?)
      && (r.Abrupt? ==> r.thrown == decoded.thrown)
  {
  }

  /**
   * An element decoder that returns `null` for a non-`null` token: the
   * validator reports that `null` at the root. (Jackson never hands a JSON
   * `null` to `deserialize`; see `ReadResultAsWritten`.)
   */
  lemma NullDecodeIsNullAtRoot(v: Version, h: Heap)
    ensures DeserializeResult(v, h, Normal(Null)) == Normal(Result.NullsFound(NullsFoundException(["root"])))
  {
    NullRootReported(v, h);
  }

  /**
   * How Jackson reaches a `Result` decoder, as written: a JSON `null` (the
   * whole input, or a `Result` property set to `null`) goes to
   * `getNullValue`, anything else to `deserialize`. Neither
   * `ResultDeserializer` overrides `getNullValue`, whose inherited default is
   * Java `null`; that `null` is `None` here, which is no `Result` at all.
   */
  function ReadResultAsWritten(v: Version, h: Heap, jsonNull: bool, decoded: Completion<Ref, Thrown>): (r: Completion<Option<Result>, Thrown>)
    ensures jsonNull ==> r == Normal(None)
    ensures !jsonNull ==> (r.Normal? <==> DeserializeResult(v, h, decoded).Normal?)
    ensures !jsonNull && r.Normal? ==> r.value.Some? && r.value.value == DeserializeResult(v, h, decoded).value
    ensures !jsonNull && r.Abrupt? ==> r.thrown == decoded.thrown
  {
    if jsonNull then Normal(None)
    else
      match DeserializeResult(v, h, decoded)
      case Normal(res) => Normal(Some(res))
      case Abrupt(t) => Abrupt(t)
  }

  /**
   * The evidently intended read: a JSON `null` is the `null` value it stands
   * for and goes through the same validation, so every read that returns
   * yields a `Success` or a `Failure`, and a JSON `null` is a `null` at the
   * root.
   */
  function ReadResult(v: Version, h: Heap, jsonNull: bool, decoded: Completion<Ref, Thrown>): (r: Completion<Result, Thrown>)
    ensures jsonNull ==> r == Normal(Result.NullsFound(NullsFoundException(["root"])))
    ensures r.Normal? ==> r.value.IsSuccess() != r.value.IsFailure()
    ensures r.Abrupt? <==> !jsonNull && decoded.Abrupt? && !IsJacksonException(decoded.thrown) && !decoded.thrown.NullsFound?
    ensures !jsonNull && r.Normal? && r.value.Success? ==>
      decoded.Normal? && r.value.value == decoded.value && !NullReachable(v, h, decoded.value)
  {
    NullDecodeIsNullAtRoot(v, h);
    ResultOutcomes(v, h, decoded);
    DeserializeResult(v, h, if jsonNull then Normal(Null) else decoded)
  }

  /**
   * The discrepancy: on a JSON `null` the decoder as written yields no
   * `Result`, where the intended one yields `NullsFound(["root"])`; on every
   * other input the two agree.
   */
  lemma JsonNullGivesNoResult(v: Version, h: Heap, decoded: Completion<Ref, Thrown>)
    ensures ReadResultAsWritten(v, h, true, decoded) == Normal(None)
    ensures ReadResult(v, h, true, decoded).Normal? && ReadResult(v, h, true, decoded).value.IsFailure()
    ensures ReadResultAsWritten(v, h, false, decoded).Normal? <==> ReadResult(v, h, false, decoded).Normal?
    ensures ReadResultAsWritten(v, h, false, decoded).Normal? ==>
      ReadResultAsWritten(v, h, false, decoded).value == Some(ReadResult(v, h, false, decoded).value)
  {
  }

  /** A decoded result is never a `Success` holding `null`, so `toOptional` and `get` never fail on it. */
  lemma ResultsNeverHoldNull(v: Version, h: Heap, decoded: Completion<Ref, Thrown>)
    ensures var r := DeserializeResult(v, h, decoded);
      r.Normal? ==> ToOptional(r.value).Normal? && (r.value.IsSuccess() != r.value.IsFailure())
  {
  }

  /** Jackson 2's `Success` has no `null` check, and `get` is where that surfaces. */
  lemma UncheckedSuccessFailsOnGet()
    ensures ToOptional(Success(Null)) == Abrupt(NullPointer)
    ensures NewSuccess(Null) == Abrupt(NullPointer)
  {
  }

  const ValidationPrefix: string := "Null validation failed: "

  /**
   * `NullValidatingDeserializer.deserialize` (both modules, both with the
   * newer validator): a decode failure propagates; a decoded value is
   * returned unchanged when no `null` is reachable and otherwise replaced by
   * a mapping exception whose message prefixes the validator's.
   */
  function DeserializeValidating(registry: seq<Handler>, h: Heap, decoded: Completion<Ref, Thrown>): (r: Completion<Ref, Thrown>)
    ensures decoded.Abrupt? ==> r == decoded
    ensures decoded.Normal? ==> (r.Normal? <==> !NullReachable(Current(registry), h, decoded.value))
    ensures r.Normal? ==> r == decoded && r.value.Ptr?
    ensures decoded.Normal? && r.Abrupt? ==>
      r.thrown == ValidationFailed(ValidationPrefix + NullsFoundException(Validators.FindNullPaths(registry, h, decoded.value)).Message())
  {
    match decoded
    case Abrupt(t) => Abrupt(t)
    case Normal(obj) =>
      match AssertNoNulls(registry, h, obj)
      case Normal(_) => Normal(obj)
      case Abrupt(e) => Abrupt(ValidationFailed(ValidationPrefix + e.Message()))
  }

  /**
   * The failure message of the validating decoder names every null path: it
   * starts with both prefixes, and path `i` sits right after them at its
   * offset in the ", "-joined list.
   */
  lemma ValidatingMessageListsPaths(registry: seq<Handler>, h: Heap, obj: Ref, i: nat)
    requires NullReachable(Current(registry), h, obj)
    requires i < |Validators.FindNullPaths(registry, h, obj)|
    ensures var paths := Validators.FindNullPaths(registry, h, obj);
      var r := DeserializeValidating(registry, h, Normal(obj));
      var start := |ValidationPrefix| + |MessagePrefix| + JoinOffset(PathSeparator, paths, i);
      && r.Abrupt? && r.thrown.ValidationFailed?
      && StartsWith(r.thrown.message, ValidationPrefix + MessagePrefix)
      && start + |paths[i]| <= |r.thrown.message|
      && r.thrown.message[start..start + |paths[i]|] == paths[i]
  {
    var e := NullsFoundException(Validators.FindNullPaths(registry, h, obj));
    MessageStartsWithPrefix(e);
    MessageListsEveryPath(e, i);
    var x := |MessagePrefix| + JoinOffset(PathSeparator, e.nullPaths, i);
    SliceAfterPrefix(ValidationPrefix, e.Message(), x, x + |e.nullPaths[i]|);
    assert (ValidationPrefix + MessagePrefix) <= ValidationPrefix + e.Message();
  }

  /**
   * Stacking the two: a `Result` over a null-validating decoder never reports
   * `NullsFound` for a decoded value, because the validating decoder turns
   * the finding into a Jackson exception first; such a value becomes
   * `InvalidJson`, and a clean one is a `Success` either way.
   */
  lemma ResultOverValidating(registry: seq<Handler>, h: Heap, decoded: Completion<Ref, Thrown>)
    requires !(decoded.Abrupt? && decoded.thrown.NullsFound?)
    ensures var r := DeserializeResult3(registry, h, DeserializeValidating(registry, h, decoded));
      && !(r.Normal? && r.value.NullsFound?)
      && (decoded.Normal? && NullReachable(Current(registry), h, decoded.value) ==>
            r.Normal? && r.value.InvalidJson? && r.value.jacksonException.ValidationFailed?)
      && (decoded.Normal? && !NullReachable(Current(registry), h, decoded.value) ==>
            r == DeserializeResult3(registry, h, decoded) && r == Normal(Success(decoded.value)))
  {
    ResultOutcomes(Current(registry), h, decoded);
    ResultOutcomes(Current(registry), h, DeserializeValidating(registry, h, decoded));
  }
}
