/**
 * What the Jackson-facing decoders see and produce, reduced to what their
 * filtering logic inspects: whether a token or a decoded element is `null`,
 * whether it is a string and what its text is.
 */
module JsonValues {
  import opened Wrappers
  import opened Text
  import opened Sequences

  /**
   * One element of the input, already positioned on by the parser: a JSON
   * `null`, a JSON string, or anything else (a number, a boolean, a nested
   * array or object). `asText` is what the parser's `getValueAsString`
   * returns for it: the text of a scalar, nothing for a structure.
   */
  datatype Tok = TNull | TStr(s: string) | TOther(raw: nat, asText: Option<string>)

  /** The token the decoder is started on, with the content that follows it. */
  datatype Start =
    | StartArray(items: seq<Tok>)
    | StartObject(fields: seq<(string, Tok)>)
    | StartScalar(t: Tok)

  /** A decoded Java value as the filters see it: `null`, a `String`, or some other object. */
  datatype Elem = ENull | EStr(s: string) | EObj(id: nat)

  /** `getValueAsString` of the current token. */
  function ValueAsString(t: Tok): (r: Option<string>)
    ensures t.TNull? ==> r.None?
    ensures t.TStr? ==> r == Some(t.s)
  {
    match t
    case TNull => None
    case TStr(s) => Some(s)
    case TOther(_, text) => text
  }

  /** A `null` token, or a string token whose text is empty or whitespace only. */
  predicate SkippedToken(t: Tok)
  {
    t.TNull? || (t.TStr? && IsBlank(t.s))
  }

  /** `e == null || (skipEmptyStrings && e instanceof String s && s.isBlank())`. */
  predicate Dropped(skipBlank: bool, e: Elem)
  {
    e.ENull? || (skipBlank && e.EStr? && IsBlank(e.s))
  }

  /** `value instanceof String s && s.isBlank()`. */
  predicate BlankString(e: Elem)
  {
    e.EStr? && IsBlank(e.s)
  }

  /** The elements a collection filter keeps, in order. */
  function KeptElems(skipBlank: bool, es: seq<Elem>): (r: seq<Elem>)
    ensures forall e :: e in r ==> e in es && !Dropped(skipBlank, e)
  {
    Filter((e: Elem) => !Dropped(skipBlank, e), es)
  }

  /** Filtering again removes nothing; with blank strings skipped, nothing blank or null remains. */
  lemma KeptElemsIdempotent(skipBlank: bool, es: seq<Elem>)
    ensures KeptElems(skipBlank, KeptElems(skipBlank, es)) == KeptElems(skipBlank, es)
  {
    FilterIdempotent((e: Elem) => !Dropped(skipBlank, e), es);
  }

  /**
   * Exactly the dropped elements are removed: each kept value occurs as often
   * as in the input, each dropped value not at all.
   */
  lemma KeptElemsCount(skipBlank: bool, es: seq<Elem>, x: Elem)
    ensures multiset(KeptElems(skipBlank, es))[x] == if Dropped(skipBlank, x) then 0 else multiset(es)[x]
  {
    FilterCount((e: Elem) => !Dropped(skipBlank, e), es, x);
  }

  /** The filter works element by element, so it preserves relative order across any split. */
  lemma KeptElemsConcat(skipBlank: bool, a: seq<Elem>, b: seq<Elem>)
    ensures KeptElems(skipBlank, a + b) == KeptElems(skipBlank, a) + KeptElems(skipBlank, b)
  {
    FilterConcat((e: Elem) => !Dropped(skipBlank, e), a, b);
  }

  /**
   * The flag decides only about blank strings: without it exactly the `null`s
   * go, and with it the blank strings go as well, from what is left.
   */
  lemma {:induction false} BlankSurvivesWithoutFlag(es: seq<Elem>)
    ensures KeptElems(false, es) == Filter((e: Elem) => !e.ENull?, es)
    ensures KeptElems(true, es) == Filter((e: Elem) => !BlankString(e), KeptElems(false, es))
  {
    if es != [] {
      BlankSurvivesWithoutFlag(es[1..]);
      assert KeptElems(false, es[1..]) == Filter((e: Elem) => !Dropped(false, e), es[1..]);
    }
  }
}
