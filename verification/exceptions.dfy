/**
 * `NullsFoundException` and the other exceptions the model's operations can
 * throw. The `validation` and `validation.vavr` classes share their logic;
 * the `validator` and `validator.vavr` classes that the newer walker, the
 * newer adapters and the Jackson modules use are taken to behave the same.
 */
module Exceptions {
  import opened Wrappers
  import opened Text

  const MessagePrefix: string := "Null value(s) found at: "
  const PathSeparator: string := ", "

  /** The exception carrying every null path, in the order they were found. */
  datatype NullsFoundException = NullsFoundException(nullPaths: seq<string>)
  {
    /** `getMessage`: the prefix, then the paths joined with ", ". */
    function Message(): (m: string)
    {
      MessagePrefix + Join(PathSeparator, nullPaths)
    }
  }

  /** The exceptions thrown across the modelled code. */
  datatype Thrown =
    | NullPointer
    | ClassCast
      /** Jackson's wrong-token report: the input does not start with the expected token. */
    | WrongToken
      /** Any other Jackson processing failure (malformed input, a value of the wrong shape). */
    | JacksonFailure(detail: nat)
    | NullsFound(exception: NullsFoundException)
      /** The mapping exception a null-validating decoder raises. */
    | ValidationFailed(message: string)
      /** A runtime exception of some other kind, raised by a delegate decoder. */
    | OtherRuntime(detail: nat)

  /**
   * The constructor: `Objects.requireNonNull` rejects a `null` list; otherwise
   * the exception stores the list (an immutable copy, which a value sequence
   * is by construction).
   */
  function NewNullsFoundException(paths: Option<seq<string>>): (r: Completion<NullsFoundException, Thrown>)
    ensures r.Normal? <==> paths.Some?
    ensures r.Normal? ==> r.value.nullPaths == paths.value
    ensures r.Abrupt? ==> r.thrown == NullPointer
  {
    match paths
    case None => Abrupt(NullPointer)
    case Some(ps) => Normal(NullsFoundException(ps))
  }

  /** The message always starts with the fixed prefix, and with no paths it is exactly the prefix. */
  lemma MessageStartsWithPrefix(e: NullsFoundException)
    ensures StartsWith(e.Message(), MessagePrefix)
    ensures e.nullPaths == [] ==> e.Message() == MessagePrefix
  {
  }

  /** Every path appears in the message, in list order, at its join offset after the prefix. */
  lemma MessageListsEveryPath(e: NullsFoundException, i: nat)
    requires i < |e.nullPaths|
    ensures var start := |MessagePrefix| + JoinOffset(PathSeparator, e.nullPaths, i);
      && start + |e.nullPaths[i]| <= |e.Message()|
      && e.Message()[start..start + |e.nullPaths[i]|] == e.nullPaths[i]
  {
    var j := Join(PathSeparator, e.nullPaths);
    JoinPartAt(PathSeparator, e.nullPaths, i);
    var o := JoinOffset(PathSeparator, e.nullPaths, i);
    SliceAfterPrefix(MessagePrefix, j, o, o + |e.nullPaths[i]|);
  }

  /** Consecutive paths in the message are separated by exactly ", ". */
  lemma MessageSeparatesPaths(e: NullsFoundException, i: nat)
    requires i + 1 < |e.nullPaths|
    ensures var stop := |MessagePrefix| + JoinOffset(PathSeparator, e.nullPaths, i) + |e.nullPaths[i]|;
      && stop + 2 <= |e.Message()|
      && e.Message()[stop..stop + 2] == ", "
  {
    var j := Join(PathSeparator, e.nullPaths);
    JoinSeparatorAt(PathSeparator, e.nullPaths, i);
    var o := JoinOffset(PathSeparator, e.nullPaths, i) + |e.nullPaths[i]|;
    SliceAfterPrefix(MessagePrefix, j, o, o + 2);
  }

  /** The message holds the prefix, every path and one separator between neighbours, nothing more. */
  lemma MessageLength(e: NullsFoundException)
    requires e.nullPaths != []
    ensures |e.Message()| == |MessagePrefix| + JoinOffset(PathSeparator, e.nullPaths, |e.nullPaths| - 1)
      + |e.nullPaths[|e.nullPaths| - 1]|
  {
    JoinLength(PathSeparator, e.nullPaths);
  }
}
