/**
 * The "empty-aware" `Optional` decoders and the `Optional<String>` decoder:
 * a JSON `null` and, for strings, an empty or whitespace-only text become an
 * empty `Optional`.
 */
module OptionalDecoders {
  import opened Wrappers
  import opened Text
  import opened JsonValues
  import opened Exceptions

  /** An inner decoder for the `Optional`'s content type: it may return `null` or throw. */
  type Decoder = Tok -> Completion<Elem, Thrown>

  /** The content type of the `Optional`, as far as the decoders care. */
  datatype ContentType = StringContent | OtherContent

  /** `getValueAsString()`, then empty for `null` or blank text and present text otherwise. */
  function StringOrEmpty(t: Tok): (r: Option<Elem>)
    ensures r.Some? <==> ValueAsString(t).Some? && !IsBlank(ValueAsString(t).value)
    ensures r.Some? ==> r.value == EStr(ValueAsString(t).value)
  {
    match ValueAsString(t)
    case None => None
    case Some(s) => if IsBlank(s) then None else Some(EStr(s))
  }

  /**
   * The Jackson 2 internal and the Jackson 3 decoder: a `null` token is empty;
   * with no content type, asking for it fails; a `String` content type gives
   * empty or the text; any other type is decoded and wrapped with
   * `Optional.of`, which fails on a `null` decode.
   */
  function DecodeOptional(contentType: Option<ContentType>, dec: Decoder, t: Tok): (r: Completion<Option<Elem>, Thrown>)
    ensures t.TNull? ==> r == Normal(None)
    ensures !t.TNull? && contentType.None? ==> r == Abrupt(NullPointer)
    ensures !t.TNull? && contentType == Some(StringContent) ==> r == Normal(StringOrEmpty(t))
    ensures !t.TNull? && contentType == Some(OtherContent) && dec(t).Abrupt? ==> r == Abrupt(dec(t).thrown)
    ensures !t.TNull? && contentType == Some(OtherContent) && dec(t).Normal? ==>
      if dec(t).value.ENull? then r == Abrupt(NullPointer) else r == Normal(Some(dec(t).value))
    ensures r.Normal? && r.value.Some? ==> !r.value.value.ENull?
  {
    if t.TNull? then Normal(None)
    else
      match contentType
      case None => Abrupt(NullPointer)
      case Some(StringContent) => Normal(StringOrEmpty(t))
      case Some(OtherContent) =>
        match dec(t)
        case Abrupt(thrown) => Abrupt(thrown)
        case Normal(v) => if v.ENull? then Abrupt(NullPointer) else Normal(Some(v))
  }

  /**
   * The public Jackson 2 decoder: the same for `null` tokens and strings, but
   * with no content type the result is empty, and a `null` decode is wrapped
   * with `Optional.ofNullable`.
   */
  function DecodeOptionalLenient(contentType: Option<ContentType>, dec: Decoder, t: Tok): (r: Completion<Option<Elem>, Thrown>)
    ensures t.TNull? || contentType.None? ==> r == Normal(None)
    ensures !t.TNull? && contentType == Some(StringContent) ==> r == Normal(StringOrEmpty(t))
    ensures !t.TNull? && contentType == Some(OtherContent) && dec(t).Abrupt? ==> r == Abrupt(dec(t).thrown)
    ensures !t.TNull? && contentType == Some(OtherContent) && dec(t).Normal? ==>
      r == Normal(if dec(t).value.ENull? then None else Some(dec(t).value))
    ensures r.Abrupt? ==> contentType == Some(OtherContent) && dec(t).Abrupt?
  {
    if t.TNull? then Normal(None)
    else
      match contentType
      case None => Normal(None)
      case Some(StringContent) => Normal(StringOrEmpty(t))
      case Some(OtherContent) =>
        match dec(t)
        case Abrupt(thrown) => Abrupt(thrown)
        case Normal(v) => Normal(if v.ENull? then None else Some(v))
  }

  /** The `Optional<String>` decoder: empty for `null`, empty or blank text, the exact text otherwise. */
  function DecodeOptionalString(t: Tok): (r: Option<string>)
    ensures r.Some? ==> !IsBlank(r.value) && Some(r.value) == ValueAsString(t)
    ensures r.None? ==> ValueAsString(t).None? || IsBlank(ValueAsString(t).value)
  {
    match ValueAsString(t)
    case None => None
    case Some(s) => if IsBlank(s) then None else Some(s)
  }

  /** An `Optional` with a `String` content type is never a present blank string, whichever decoder runs. */
  lemma NeverPresentBlank(contentType: Option<ContentType>, dec: Decoder, t: Tok)
    requires contentType == Some(StringContent)
    ensures var r := DecodeOptional(contentType, dec, t);
      r.Normal? && (r.value.Some? ==> r.value.value.EStr? && !IsBlank(r.value.value.s))
    ensures var r := DecodeOptionalLenient(contentType, dec, t);
      r.Normal? && (r.value.Some? ==> r.value.value.EStr? && !IsBlank(r.value.value.s))
  {
  }

  /** The three string paths agree: the `Optional` decoders with a `String` content type and `Optional<String>`. */
  lemma StringPathsAgree(dec: Decoder, t: Tok)
    ensures var s := DecodeOptionalString(t);
      var e := if s.Some? then Some(EStr(s.value)) else None;
      && DecodeOptional(Some(StringContent), dec, t) == Normal(e)
      && DecodeOptionalLenient(Some(StringContent), dec, t) == Normal(e)
  {
  }

  /**
   * Where the decoders agree: with a content type, on every token whose inner
   * decode does not yield `null`; they part only on a missing content type
   * and on a `null` decode, where the strict one fails and the lenient one is empty.
   */
  lemma StrictAndLenientAgree(contentType: Option<ContentType>, dec: Decoder, t: Tok)
    ensures contentType.Some? && (t.TNull? || dec(t) != Normal(ENull)) ==>
      DecodeOptional(contentType, dec, t) == DecodeOptionalLenient(contentType, dec, t)
    ensures contentType == Some(OtherContent) && !t.TNull? && dec(t) == Normal(ENull) ==>
      DecodeOptional(contentType, dec, t) == Abrupt(NullPointer)
      && DecodeOptionalLenient(contentType, dec, t) == Normal(None)
  {
  }
}
