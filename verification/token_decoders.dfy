/**
 * The token-level `List`, `Set` and `Map` decoders: they walk the tokens of a
 * JSON array or object, skip `null`s and blank strings before decoding, and
 * hand every other token to the element (or value) decoder.
 */
module TokenDecoders {
  import opened Wrappers
  import opened Text
  import opened Sequences
  import opened JsonValues
  import opened Exceptions
  import opened CollectionFilters

  /** An element or value decoder Jackson looked up for the declared type: it may return `null` or throw. */
  type Decoder = Tok -> Completion<Elem, Thrown>

  // ---- lists ----

  /**
   * The array loop: skipped tokens are passed over without decoding; every
   * other token is decoded in order, the first failure ends the loop, and a
   * `null` decode is kept or dropped as `dropNullDecodes` says.
   */
  function DecodeItems(dec: Decoder, dropNullDecodes: bool, items: seq<Tok>): (r: Completion<seq<Elem>, Thrown>)
    ensures r.Normal? ==> |r.value| <= |items|
    ensures r.Normal? && dropNullDecodes ==> ENull !in r.value
    ensures r.Normal? ==> forall e :: e in r.value ==> exists t :: t in items && !SkippedToken(t) && dec(t) == Normal(e)
  {
    if items == [] then Normal([])
    else if SkippedToken(items[0]) then DecodeItems(dec, dropNullDecodes, items[1..])
    else
      match dec(items[0])
      case Abrupt(thrown) => Abrupt(thrown)
      case Normal(e) =>
        match DecodeItems(dec, dropNullDecodes, items[1..])
        case Abrupt(thrown) => Abrupt(thrown)
        case Normal(rest) =>
          assert forall x :: x in rest ==> exists t :: t in items && !SkippedToken(t) && dec(t) == Normal(x) by {
            forall x | x in rest ensures exists t :: t in items && !SkippedToken(t) && dec(t) == Normal(x) {
              var t :| t in items[1..] && !SkippedToken(t) && dec(t) == Normal(x);
              assert t in items;
            }
          }
          Normal(if dropNullDecodes && e.ENull? then rest else [e] + rest)
  }

  /** The decoded value of a token whose decoder succeeds (and `null` where it does not). */
  function DecodedOrNull(dec: Decoder, t: Tok): Elem
  {
    if dec(t).Normal? then dec(t).value else ENull
  }

  /**
   * When no decode fails, the loop is a filter, a map and a filter: drop the
   * skipped tokens, decode the rest, and (when asked) drop the `null`s.
   */
  lemma {:induction false} DecodeItemsReference(dec: Decoder, dropNullDecodes: bool, items: seq<Tok>)
    requires forall i :: 0 <= i < |items| && !SkippedToken(items[i]) ==> dec(items[i]).Normal?
    ensures DecodeItems(dec, dropNullDecodes, items)
      == Normal(Filter((e: Elem) => !(dropNullDecodes && e.ENull?),
                MapSeq((t: Tok) => DecodedOrNull(dec, t),
                  Filter((t: Tok) => !SkippedToken(t), items))))
  {
    var keepTok := (t: Tok) => !SkippedToken(t);
    var decode := (t: Tok) => DecodedOrNull(dec, t);
    var keepElem := (e: Elem) => !(dropNullDecodes && e.ENull?);
    if items != [] {
      DecodeItemsReference(dec, dropNullDecodes, items[1..]);
      var tail := Filter(keepTok, items[1..]);
      if !SkippedToken(items[0]) {
        assert Filter(keepTok, items) == [items[0]] + tail;
        assert MapSeq(decode, [items[0]] + tail) == [decode(items[0])] + MapSeq(decode, tail);
        var ds := MapSeq(decode, tail);
        assert ([decode(items[0])] + ds)[1..] == ds;
      }
    }
  }

  /**
   * A decode failure aborts the whole decode with that exception, provided
   * every earlier non-skipped token decoded.
   */
  lemma {:induction false} DecodeItemsFailure(dec: Decoder, dropNullDecodes: bool, items: seq<Tok>, k: nat)
    requires k < |items| && !SkippedToken(items[k]) && dec(items[k]).Abrupt?
    requires forall i :: 0 <= i < k && !SkippedToken(items[i]) ==> dec(items[i]).Normal?
    ensures DecodeItems(dec, dropNullDecodes, items) == Abrupt(dec(items[k]).thrown)
  {
    if k > 0 {
      DecodeItemsFailure(dec, dropNullDecodes, items[1..], k - 1);
    }
  }

  /**
   * The list decoders: anything but an array start is a wrong-token error;
   * without an element decoder nothing is ever added.
   */
  function DecodeList(elemDec: Option<Decoder>, dropNullDecodes: bool, input: Start): (r: Completion<seq<Elem>, Thrown>)
    ensures !input.StartArray? ==> r == Abrupt(WrongToken)
    ensures input.StartArray? && elemDec.None? ==> r == Normal([])
    ensures input.StartArray? && elemDec.Some? ==> r == DecodeItems(elemDec.value, dropNullDecodes, input.items)
  {
    match input
    case StartArray(items) =>
      (match elemDec
       case None => Normal([])
       case Some(dec) => DecodeItems(dec, dropNullDecodes, items))
    case _ => Abrupt(WrongToken)
  }

  /** The Jackson 2 list decoder: it also drops elements that decode to `null`. */
  function DecodeList2(elemDec: Option<Decoder>, input: Start): (r: Completion<seq<Elem>, Thrown>)
    ensures r.Normal? ==> ENull !in r.value
    ensures r.Abrupt? && r.thrown == WrongToken <== !input.StartArray?
  {
    DecodeList(elemDec, true, input)
  }

  /** The Jackson 3 list decoder: the element decoder is always there, and a `null` decode is kept. */
  function DecodeList3(elemDec: Decoder, input: Start): (r: Completion<seq<Elem>, Thrown>)
    ensures input.StartArray? ==> r == DecodeItems(elemDec, false, input.items)
    ensures !input.StartArray? ==> r == Abrupt(WrongToken)
  {
    DecodeList(Some(elemDec), false, input)
  }

  /** `[null, "  ", x]` decodes to just `x`'s element; a token is never decoded once it is skipped. */
  lemma SkippedTokensNeverDecoded(dec: Decoder, t: Tok, e: Elem)
    requires !SkippedToken(t) && dec(t) == Normal(e) && !e.ENull?
    ensures DecodeList2(Some(dec), StartArray([TNull, TStr("  "), t])) == Normal([e])
    ensures DecodeList3(dec, StartArray([TNull, TStr("  "), t])) == Normal([e])
  {
    assert IsBlank("  ") by {
      assert forall i :: 0 <= i < |"  "| ==> "  "[i] == ' ';
    }
    var items := [TNull, TStr("  "), t];
    assert items[1..] == [TStr("  "), t] && items[1..][1..] == [t] && [t][1..] == [];
    assert SkippedToken(items[0]) && SkippedToken(items[1..][0]);
    forall drop: bool ensures DecodeItems(dec, drop, items) == Normal([e]) {
      assert DecodeItems(dec, drop, []) == Normal([]);
      assert DecodeItems(dec, drop, [t]) == Normal([e] + []);
      assert [e] + [] == [e];
      assert DecodeItems(dec, drop, items[1..]) == DecodeItems(dec, drop, items[1..][1..]);
      assert DecodeItems(dec, drop, items) == DecodeItems(dec, drop, items[1..]);
    }
    assert DecodeList2(Some(dec), StartArray(items)) == DecodeItems(dec, true, items);
    assert DecodeList3(dec, StartArray(items)) == DecodeItems(dec, false, items);
  }

  /** Jackson 3 keeps a `null` decode, Jackson 2 drops it. */
  lemma NullDecodeKeptOnlyBy3(dec: Decoder, t: Tok)
    requires !SkippedToken(t) && dec(t) == Normal(ENull)
    ensures DecodeList2(Some(dec), StartArray([t])) == Normal([])
    ensures DecodeList3(dec, StartArray([t])) == Normal([ENull])
  {
    assert [t][1..] == [];
    assert DecodeItems(dec, true, []) == Normal([]);
    assert DecodeItems(dec, false, []) == Normal([]);
    assert DecodeItems(dec, true, [t]) == Normal([]);
    assert DecodeItems(dec, false, [t]) == Normal([ENull] + []);
    assert DecodeList3(dec, StartArray([t])) == DecodeItems(dec, false, [t]);
    assert [ENull] + [] == [ENull];
    assert DecodeList3(dec, StartArray([t])) == Normal([ENull]);
  }

  // ---- sets ----

  /** `LinkedHashSet.add`: a new element goes last, an existing one leaves the set as it was. */
  function AddToSet(acc: seq<Elem>, e: Elem): (r: seq<Elem>)
    ensures e in r
    ensures e in acc ==> r == acc
    ensures e !in acc ==> r == acc + [e]
  {
    if e in acc then acc else acc + [e]
  }

  /** Every element of `es` added, in order. */
  function AddAll(acc: seq<Elem>, es: seq<Elem>): seq<Elem>
    decreases |es|
  {
    if es == [] then acc else AddAll(AddToSet(acc, es[0]), es[1..])
  }

  /** No element occurs twice. */
  predicate NoDuplicates(s: seq<Elem>)
  {
    forall i, j :: 0 <= i < j < |s| ==> s[i] != s[j]
  }

  /**
   * Adding keeps what was there as a prefix, never duplicates, and ends up
   * holding exactly the old elements and the added ones.
   */
  lemma {:induction false} AddAllLaws(acc: seq<Elem>, es: seq<Elem>)
    ensures acc <= AddAll(acc, es)
    ensures NoDuplicates(acc) ==> NoDuplicates(AddAll(acc, es))
    ensures forall x :: x in AddAll(acc, es) <==> x in acc || x in es
    decreases |es|
  {
    if es != [] {
      var next := AddToSet(acc, es[0]);
      AddAllLaws(next, es[1..]);
      if NoDuplicates(acc) && es[0] !in acc {
        assert NoDuplicates(next) by {
          forall i, j | 0 <= i < j < |next| ensures next[i] != next[j] {
            if j == |acc| {
              assert next[i] in acc;
            }
          }
        }
      }
      assert forall x :: x in es <==> x == es[0] || x in es[1..] by {
        assert es == [es[0]] + es[1..];
      }
    }
  }

  /**
   * The set loop: the same skipping and decoding as the list loop, but each
   * kept element is added to an insertion-ordered set.
   */
  function DecodeSetItems(dec: Decoder, dropNullDecodes: bool, items: seq<Tok>, acc: seq<Elem>): Completion<seq<Elem>, Thrown>
  {
    if items == [] then Normal(acc)
    else if SkippedToken(items[0]) then DecodeSetItems(dec, dropNullDecodes, items[1..], acc)
    else
      match dec(items[0])
      case Abrupt(thrown) => Abrupt(thrown)
      case Normal(e) =>
        DecodeSetItems(dec, dropNullDecodes, items[1..], if dropNullDecodes && e.ENull? then acc else AddToSet(acc, e))
  }

  /**
   * The set decoder yields the list decoder's elements with later duplicates
   * collapsed, in first-occurrence order, and fails exactly when it fails.
   */
  lemma {:induction false} SetIsDeduplicatedList(dec: Decoder, dropNullDecodes: bool, items: seq<Tok>, acc: seq<Elem>)
    ensures DecodeSetItems(dec, dropNullDecodes, items, acc)
      == match DecodeItems(dec, dropNullDecodes, items)
         case Normal(l) => Normal(AddAll(acc, l))
         case Abrupt(thrown) => Abrupt(thrown)
  {
    if items != [] && !SkippedToken(items[0]) {
      match dec(items[0])
      case Abrupt(_) =>
      case Normal(e) =>
        var acc' := if dropNullDecodes && e.ENull? then acc else AddToSet(acc, e);
        SetIsDeduplicatedList(dec, dropNullDecodes, items[1..], acc');
        match DecodeItems(dec, dropNullDecodes, items[1..])
        case Abrupt(_) =>
        case Normal(rest) =>
          if !(dropNullDecodes && e.ENull?) {
            assert ([e] + rest)[1..] == rest;
          }
    } else if items != [] {
      SetIsDeduplicatedList(dec, dropNullDecodes, items[1..], acc);
    }
  }

  /** The set decoders: a wrong-token error for anything but an array, otherwise the set loop from empty. */
  function DecodeSet(elemDec: Option<Decoder>, dropNullDecodes: bool, input: Start): (r: Completion<seq<Elem>, Thrown>)
    ensures !input.StartArray? ==> r == Abrupt(WrongToken)
    ensures r.Normal? <==> DecodeList(elemDec, dropNullDecodes, input).Normal?
    ensures r.Abrupt? ==> r == DecodeList(elemDec, dropNullDecodes, input)
    ensures r.Normal? ==> NoDuplicates(r.value)
    ensures r.Normal? ==> forall x :: x in r.value <==> x in DecodeList(elemDec, dropNullDecodes, input).value
  {
    match input
    case StartArray(items) =>
      (match elemDec
       case None => Normal([])
       case Some(dec) =>
         SetIsDeduplicatedList(dec, dropNullDecodes, items, []);
         var l := DecodeItems(dec, dropNullDecodes, items);
         AddAllLaws([], if l.Normal? then l.value else []);
         DecodeSetItems(dec, dropNullDecodes, items, []))
    case _ => Abrupt(WrongToken)
  }

  // ---- maps ----

  /** The value stored for `k` in an insertion-ordered map. */
  function Lookup(m: seq<(string, Elem)>, k: string): Option<Elem>
  {
    if m == [] then None else if m[0].0 == k then Some(m[0].1) else Lookup(m[1..], k)
  }

  /** A key has no value exactly when no entry carries it. */
  lemma {:induction false} LookupNoneIffAbsent(m: seq<(string, Elem)>, k: string)
    ensures Lookup(m, k).None? <==> forall p :: p in m ==> p.0 != k
  {
    if m != [] {
      LookupNoneIffAbsent(m[1..], k);
      assert forall p :: p in m <==> p == m[0] || p in m[1..] by {
        assert m == [m[0]] + m[1..];
      }
    }
  }

  /** No key occurs twice. */
  predicate DistinctKeys(m: seq<(string, Elem)>)
  {
    forall i, j :: 0 <= i < j < |m| ==> m[i].0 != m[j].0
  }

  /** `LinkedHashMap.put`: an existing key keeps its position and gets the new value; a new key goes last. */
  function Put(m: seq<(string, Elem)>, k: string, v: Elem): (r: seq<(string, Elem)>)
    ensures Lookup(r, k) == Some(v)
    ensures forall k' :: k' != k ==> Lookup(r, k') == Lookup(m, k')
    ensures forall p :: p in r ==> p in m || p == (k, v)
    ensures forall i :: 0 <= i < |m| && m[i].0 != k ==> m[i] in r
    ensures DistinctKeys(m) ==> DistinctKeys(r)
    ensures |r| == |m| || |r| == |m| + 1
  {
    if m == [] then [(k, v)]
    else if m[0].0 == k then [(k, v)] + m[1..]
    else
      var rest := Put(m[1..], k, v);
      assert forall i :: 1 <= i < |m| ==> m[i] == m[1..][i - 1];
      assert DistinctKeys(m) ==> DistinctKeys([m[0]] + rest) by {
        if DistinctKeys(m) {
          assert DistinctKeys(m[1..]);
          assert Lookup(rest, m[0].0) == Lookup(m[1..], m[0].0);
          LookupNoneIffAbsent(m[1..], m[0].0);
          LookupNoneIffAbsent(rest, m[0].0);
          forall j | 0 <= j < |rest| ensures rest[j].0 != m[0].0 {
            assert rest[j] in rest;
          }
        }
      }
      [m[0]] + rest
  }

  /** What the declared value type of the map is, as far as the decoder cares: `Optional` or not. */
  datatype ValueType = OptionalValues | OtherValues

  /**
   * What one field of the object loop writes, if anything. A `null` token,
   * and a blank string token, are skipped unless the value type is
   * `Optional`; looking at the value type fails when there is none.
   * Everything else is decoded and written unless the decoded value is a
   * blank string, or `null` when `storeNullDecodes` is off.
   */
  function FieldWrite(storeNullDecodes: bool, valueType: Option<ValueType>, valueDec: Decoder, objectDec: Decoder,
                      t: Tok): (r: Completion<Option<Elem>, Thrown>)
    ensures r.Normal? && r.value.Some? ==> !BlankString(r.value.value) && (storeNullDecodes || !r.value.value.ENull?)
    ensures SkippedToken(t) && valueType == Some(OtherValues) ==> r == Normal(None)
    ensures r.Abrupt? ==>
      (r == Abrupt(NullPointer) && (t.TNull? || t.TStr?) && valueType.None?)
      || (if valueType.Some? then valueDec(t) else objectDec(t)) == Abrupt(r.thrown)
  {
    if (t.TNull? || t.TStr?) && valueType.None? then Abrupt(NullPointer)
    else if t.TNull? && valueType != Some(OptionalValues) then Normal(None)
    else if t.TStr? && valueType != Some(OptionalValues) && IsBlank(t.s) then Normal(None)
    else
      match (if valueType.Some? then valueDec(t) else objectDec(t))
      case Abrupt(thrown) => Abrupt(thrown)
      case Normal(v) => Normal(if (storeNullDecodes || !v.ENull?) && !BlankString(v) then Some(v) else None)
  }

  /** One field of the object loop: its write, if any, is a `put` into the map so far. */
  function MapFieldStep(storeNullDecodes: bool, valueType: Option<ValueType>, valueDec: Decoder, objectDec: Decoder,
                        acc: seq<(string, Elem)>, field: (string, Tok)): (r: Completion<seq<(string, Elem)>, Thrown>)
    ensures r.Normal? && DistinctKeys(acc) ==> DistinctKeys(r.value)
    ensures r.Normal? ==> forall p :: p in r.value ==> p in acc || (p.0 == field.0 && !BlankString(p.1))
    ensures r.Normal? && !storeNullDecodes ==> forall p :: p in r.value ==> p in acc || !p.1.ENull?
  {
    match FieldWrite(storeNullDecodes, valueType, valueDec, objectDec, field.1)
    case Abrupt(thrown) => Abrupt(thrown)
    case Normal(w) => Normal(if w.Some? then Put(acc, field.0, w.value) else acc)
  }

  /** The object loop before its final clean-up: every field, in order, from `acc`. */
  function MapFields(storeNullDecodes: bool, valueType: Option<ValueType>, valueDec: Decoder, objectDec: Decoder,
                     acc: seq<(string, Elem)>, fields: seq<(string, Tok)>): (r: Completion<seq<(string, Elem)>, Thrown>)
    ensures r.Normal? && DistinctKeys(acc) ==> DistinctKeys(r.value)
    ensures r.Normal? ==> forall p :: p in r.value ==> p in acc || ((exists t :: (p.0, t) in fields) && !BlankString(p.1))
    ensures r.Normal? && !storeNullDecodes ==> forall p :: p in r.value ==> p in acc || !p.1.ENull?
    decreases |fields|
  {
    if fields == [] then Normal(acc)
    else
      match MapFieldStep(storeNullDecodes, valueType, valueDec, objectDec, acc, fields[0])
      case Abrupt(thrown) => Abrupt(thrown)
      case Normal(acc') =>
        var r := MapFields(storeNullDecodes, valueType, valueDec, objectDec, acc', fields[1..]);
        assert r.Normal? ==> forall p :: p in r.value ==> p in acc || ((exists t :: (p.0, t) in fields) && !BlankString(p.1)) by {
          if r.Normal? {
            forall p | p in r.value ensures p in acc || ((exists t :: (p.0, t) in fields) && !BlankString(p.1)) {
              if p !in acc {
                if p in acc' {
                  assert (p.0, fields[0].1) == fields[0];
                } else {
                  var t :| (p.0, t) in fields[1..];
                  assert (p.0, t) in fields;
                }
              }
            }
          }
        }
        r
  }

  /** The object loop processes a split field list one part after the other. */
  lemma {:induction false} MapFieldsAppend(storeNullDecodes: bool, valueType: Option<ValueType>, valueDec: Decoder, objectDec: Decoder,
                          acc: seq<(string, Elem)>, fields: seq<(string, Tok)>, last: (string, Tok))
    ensures MapFields(storeNullDecodes, valueType, valueDec, objectDec, acc, fields + [last])
      == match MapFields(storeNullDecodes, valueType, valueDec, objectDec, acc, fields)
         case Normal(m) => MapFieldStep(storeNullDecodes, valueType, valueDec, objectDec, m, last)
         case Abrupt(thrown) => Abrupt(thrown)
    decreases |fields|
  {
    if fields == [] {
      assert [last][1..] == [];
    } else {
      assert (fields + [last])[1..] == fields[1..] + [last];
      match MapFieldStep(storeNullDecodes, valueType, valueDec, objectDec, acc, fields[0])
      case Abrupt(_) =>
      case Normal(acc') =>
        MapFieldsAppend(storeNullDecodes, valueType, valueDec, objectDec, acc', fields[1..], last);
    }
  }

  // ---- the map decoders, specified key by key ----

  /**
   * The writes of the object loop, in field order: each written field's name
   * with its decoded value. The first failing field ends it with its exception.
   */
  function MapWrites(storeNullDecodes: bool, valueType: Option<ValueType>, valueDec: Decoder, objectDec: Decoder,
                     fields: seq<(string, Tok)>): (r: Completion<seq<(string, Elem)>, Thrown>)
    ensures r.Normal? ==> |r.value| <= |fields|
    ensures r.Normal? ==> forall w :: w in r.value ==> !BlankString(w.1) && (storeNullDecodes || !w.1.ENull?)
    decreases |fields|
  {
    if fields == [] then Normal([])
    else
      match FieldWrite(storeNullDecodes, valueType, valueDec, objectDec, fields[0].1)
      case Abrupt(thrown) => Abrupt(thrown)
      case Normal(w) =>
        match MapWrites(storeNullDecodes, valueType, valueDec, objectDec, fields[1..])
        case Abrupt(thrown) => Abrupt(thrown)
        case Normal(rest) => Normal((if w.Some? then [(fields[0].0, w.value)] else []) + rest)
  }

  /** The value last written for `k`, if any write names it. */
  function LastWrite(ws: seq<(string, Elem)>, k: string): (r: Option<Elem>)
    ensures r.Some? ==> (k, r.value) in ws
    decreases |ws|
  {
    if ws == [] then None
    else if ws[|ws| - 1].0 == k then Some(ws[|ws| - 1].1)
    else LastWrite(ws[..|ws| - 1], k)
  }

  /** The written keys, each once, in the order of their first write. */
  function FirstKeys(ws: seq<(string, Elem)>): (ks: seq<string>)
    ensures forall i, j :: 0 <= i < j < |ks| ==> ks[i] != ks[j]
    ensures forall k :: k in ks <==> LastWrite(ws, k).Some?
    decreases |ws|
  {
    if ws == [] then []
    else
      var ks := FirstKeys(ws[..|ws| - 1]);
      if ws[|ws| - 1].0 in ks then ks else ks + [ws[|ws| - 1].0]
  }

  /** One entry per key of `ks`, in that order, holding the value last written for it. */
  function LatestEntries(ws: seq<(string, Elem)>, ks: seq<string>): (m: seq<(string, Elem)>)
    requires forall k :: k in ks ==> LastWrite(ws, k).Some?
    ensures |m| == |ks|
    ensures forall i :: 0 <= i < |ks| ==> m[i] == (ks[i], LastWrite(ws, ks[i]).value)
  {
    if ks == [] then [] else [(ks[0], LastWrite(ws, ks[0]).value)] + LatestEntries(ws, ks[1..])
  }

  /**
   * The map decoders described key by key instead of as a loop: a
   * wrong-token error for anything but an object; the first failing field's
   * exception; otherwise every key some field wrote (blank keys included),
   * in the order of its first write, with the value of its last write, less
   * the keys whose last written value is `null`.
   */
  function MapByLastWrite(storeNullDecodes: bool, valueType: Option<ValueType>, valueDec: Decoder, objectDec: Decoder,
                          input: Start): Completion<seq<(string, Elem)>, Thrown>
  {
    match input
    case StartObject(fields) =>
      (match MapWrites(storeNullDecodes, valueType, valueDec, objectDec, fields)
       case Abrupt(thrown) => Abrupt(thrown)
       case Normal(ws) => Normal(RemoveNullValues(LatestEntries(ws, FirstKeys(ws)))))
    case _ => Abrupt(WrongToken)
  }

  /** `put` in turn for each write. */
  function PutAll(m: seq<(string, Elem)>, ws: seq<(string, Elem)>): seq<(string, Elem)>
    decreases |ws|
  {
    if ws == [] then m else PutAll(Put(m, ws[0].0, ws[0].1), ws[1..])
  }

  /** The object loop is `put` of its writes, in order, and fails exactly when they do. */
  lemma {:induction false} MapFieldsPutsWrites(storeNullDecodes: bool, valueType: Option<ValueType>, valueDec: Decoder,
                                               objectDec: Decoder, acc: seq<(string, Elem)>, fields: seq<(string, Tok)>)
    ensures MapFields(storeNullDecodes, valueType, valueDec, objectDec, acc, fields)
      == match MapWrites(storeNullDecodes, valueType, valueDec, objectDec, fields)
         case Normal(ws) => Normal(PutAll(acc, ws))
         case Abrupt(thrown) => Abrupt(thrown)
    decreases |fields|
  {
    if fields != [] {
      match FieldWrite(storeNullDecodes, valueType, valueDec, objectDec, fields[0].1)
      case Abrupt(_) =>
      case Normal(w) =>
        var acc' := if w.Some? then Put(acc, fields[0].0, w.value) else acc;
        MapFieldsPutsWrites(storeNullDecodes, valueType, valueDec, objectDec, acc', fields[1..]);
        match MapWrites(storeNullDecodes, valueType, valueDec, objectDec, fields[1..])
        case Abrupt(_) =>
        case Normal(rest) =>
          if w.Some? {
            assert ([(fields[0].0, w.value)] + rest)[1..] == rest;
          } else {
            assert [] + rest == rest;
          }
    }
  }

  /** A `put` of a new key appends it. */
  lemma {:induction false} PutNewKey(m: seq<(string, Elem)>, k: string, v: Elem)
    requires forall i :: 0 <= i < |m| ==> m[i].0 != k
    ensures Put(m, k, v) == m + [(k, v)]
  {
    if m != [] {
      PutNewKey(m[1..], k, v);
      assert m == [m[0]] + m[1..];
    }
  }

  /** A `put` of a present key replaces its entry in place. */
  lemma {:induction false} PutExistingKey(m: seq<(string, Elem)>, k: string, v: Elem, i: nat)
    requires i < |m| && m[i].0 == k
    requires forall j :: 0 <= j < i ==> m[j].0 != k
    ensures Put(m, k, v) == m[i := (k, v)]
  {
    if i == 0 {
      assert Put(m, k, v) == [(k, v)] + m[1..];
      assert m[0 := (k, v)] == [(k, v)] + m[1..];
    } else {
      assert m[0].0 != k;
      assert m[1..][i - 1] == m[i];
      assert forall j :: 0 <= j < i - 1 ==> m[1..][j] == m[j + 1];
      PutExistingKey(m[1..], k, v, i - 1);
      assert Put(m, k, v) == [m[0]] + Put(m[1..], k, v);
      assert m[i := (k, v)] == [m[0]] + m[1..][i - 1 := (k, v)];
    }
  }

  /** One more write is one more `put`. */
  lemma {:induction false} PutAllSnoc(m: seq<(string, Elem)>, ws: seq<(string, Elem)>, w: (string, Elem))
    ensures PutAll(m, ws + [w]) == Put(PutAll(m, ws), w.0, w.1)
    decreases |ws|
  {
    if ws == [] {
      assert [w][1..] == [];
    } else {
      assert (ws + [w])[1..] == ws[1..] + [w];
      PutAllSnoc(Put(m, ws[0].0, ws[0].1), ws[1..], w);
    }
  }

  /** A write to a key already written replaces that key's value where it stands. */
  lemma SnocExistingKey(init: seq<(string, Elem)>, k: string, v: Elem, i: nat)
    requires i < |FirstKeys(init)| && FirstKeys(init)[i] == k
    ensures Put(LatestEntries(init, FirstKeys(init)), k, v) == LatestEntries(init + [(k, v)], FirstKeys(init + [(k, v)]))
  {
    var ws := init + [(k, v)];
    assert ws[..|ws| - 1] == init;
    var ks := FirstKeys(init);
    var m := LatestEntries(init, ks);
    PutExistingKey(m, k, v, i);
    assert FirstKeys(ws) == ks;
    var rhs := LatestEntries(ws, ks);
    forall j | 0 <= j < |ks| ensures m[i := (k, v)][j] == rhs[j] {
      if j != i {
        assert LastWrite(ws, ks[j]) == LastWrite(init, ks[j]);
      }
    }
  }

  /** A write to a new key appends it with that value. */
  lemma SnocNewKey(init: seq<(string, Elem)>, k: string, v: Elem)
    requires k !in FirstKeys(init)
    ensures Put(LatestEntries(init, FirstKeys(init)), k, v) == LatestEntries(init + [(k, v)], FirstKeys(init + [(k, v)]))
  {
    var ws := init + [(k, v)];
    assert ws[..|ws| - 1] == init;
    var ks := FirstKeys(init);
    var m := LatestEntries(init, ks);
    forall i | 0 <= i < |m| ensures m[i].0 != k {
      assert m[i].0 == ks[i];
    }
    PutNewKey(m, k, v);
    var ks' := ks + [k];
    assert FirstKeys(ws) == ks';
    assert LastWrite(ws, k) == Some(v);
    var rhs := LatestEntries(ws, ks');
    forall j | 0 <= j < |ks'| ensures (m + [(k, v)])[j] == rhs[j] {
      if j < |ks| {
        assert ks'[j] == ks[j] != k;
        assert LastWrite(ws, ks[j]) == LastWrite(init, ks[j]);
      }
    }
  }

  /**
   * Insertion-ordered `put`s, started from an empty map, leave each written
   * key at the position of its first write with the value of its last one.
   */
  lemma {:induction false} PutAllIsLastWrite(ws: seq<(string, Elem)>)
    ensures PutAll([], ws) == LatestEntries(ws, FirstKeys(ws))
    decreases |ws|
  {
    if ws != [] {
      var init := ws[..|ws| - 1];
      var k, v := ws[|ws| - 1].0, ws[|ws| - 1].1;
      assert ws == init + [(k, v)];
      PutAllIsLastWrite(init);
      PutAllSnoc([], init, (k, v));
      if k in FirstKeys(init) {
        var i :| 0 <= i < |FirstKeys(init)| && FirstKeys(init)[i] == k;
        SnocExistingKey(init, k, v, i);
      } else {
        SnocNewKey(init, k, v);
      }
    }
  }

  /**
   * The map decoders: a wrong-token error for anything but an object;
   * otherwise the object loop from an empty map, then the removal of every
   * `null` value that slipped through.
   */
  function DecodeMap(storeNullDecodes: bool, valueType: Option<ValueType>, valueDec: Decoder, objectDec: Decoder,
                     input: Start): (r: Completion<seq<(string, Elem)>, Thrown>)
    ensures !input.StartObject? ==> r == Abrupt(WrongToken)
    ensures r.Normal? ==> DistinctKeys(r.value)
    ensures r.Normal? ==> forall p :: p in r.value ==> !p.1.ENull? && !BlankString(p.1)
    ensures r.Normal? ==> forall p :: p in r.value ==> exists t :: (p.0, t) in input.fields
  {
    match input
    case StartObject(fields) =>
      (match MapFields(storeNullDecodes, valueType, valueDec, objectDec, [], fields)
       case Abrupt(thrown) => Abrupt(thrown)
       case Normal(m) =>
         var r := RemoveNullValues(m);
         assert DistinctKeys(r) by {
           forall i, j | 0 <= i < j < |r| ensures r[i].0 != r[j].0 {
             FilterOrderKeepsDistinct(m, i, j);
           }
         }
         Normal(r))
    case _ => Abrupt(WrongToken)
  }

  /** Two positions of the filtered map come from two distinct, identically ordered positions of the map. */
  lemma {:induction false} FilterOrderKeepsDistinct(m: seq<(string, Elem)>, i: nat, j: nat)
    requires DistinctKeys(m)
    requires i < j < |RemoveNullValues(m)|
    ensures RemoveNullValues(m)[i].0 != RemoveNullValues(m)[j].0
  {
    var keep := (p: (string, Elem)) => !p.1.ENull?;
    assert RemoveNullValues(m) == Filter(keep, m);
    var rest := Filter(keep, m[1..]);
    assert DistinctKeys(m[1..]) by {
      forall a, b | 0 <= a < b < |m[1..]| ensures m[1..][a].0 != m[1..][b].0 {
        assert m[1..][a] == m[a + 1] && m[1..][b] == m[b + 1];
      }
    }
    if keep(m[0]) {
      assert Filter(keep, m) == [m[0]] + rest;
      if i == 0 {
        var q := rest[j - 1];
        assert q in rest;
        assert q in m[1..];
        var b :| 0 <= b < |m[1..]| && m[1..][b] == q;
        assert m[b + 1] == q;
      } else {
        assert RemoveNullValues(m[1..]) == rest;
        FilterOrderKeepsDistinct(m[1..], i - 1, j - 1);
      }
    } else {
      assert RemoveNullValues(m[1..]) == rest;
      FilterOrderKeepsDistinct(m[1..], i, j);
    }
  }

  /**
   * The map decoders are the key-by-key description on every input, in both
   * versions: the loop and its final removal pass store exactly each written
   * key, in first-write order, with its last written value, unless that is `null`.
   */
  lemma DecodeMapIsLastWrite(storeNullDecodes: bool, valueType: Option<ValueType>, valueDec: Decoder, objectDec: Decoder,
                             input: Start)
    ensures DecodeMap(storeNullDecodes, valueType, valueDec, objectDec, input)
      == MapByLastWrite(storeNullDecodes, valueType, valueDec, objectDec, input)
  {
    if input.StartObject? {
      MapFieldsPutsWrites(storeNullDecodes, valueType, valueDec, objectDec, [], input.fields);
      var ws := MapWrites(storeNullDecodes, valueType, valueDec, objectDec, input.fields);
      if ws.Normal? {
        PutAllIsLastWrite(ws.value);
      }
    }
  }

  /** In a map with distinct keys, an entry is what its key looks up. */
  lemma {:induction false} LookupEntry(m: seq<(string, Elem)>, k: string, v: Elem)
    requires DistinctKeys(m) && (k, v) in m
    ensures Lookup(m, k) == Some(v)
  {
    if m[0] != (k, v) {
      assert (k, v) in m[1..];
      assert DistinctKeys(m[1..]) by {
        forall a, b | 0 <= a < b < |m[1..]| ensures m[1..][a].0 != m[1..][b].0 {
          assert m[1..][a] == m[a + 1] && m[1..][b] == m[b + 1];
        }
      }
      var b :| 0 <= b < |m[1..]| && m[1..][b] == (k, v);
      assert m[b + 1] == (k, v);
      LookupEntry(m[1..], k, v);
    }
  }

  /**
   * A key's value in the decoded map is the value of its last write, when
   * that is not `null`; a key never written, or last written `null`, is absent.
   */
  lemma DecodeMapLookup(storeNullDecodes: bool, valueType: Option<ValueType>, valueDec: Decoder, objectDec: Decoder,
                        fields: seq<(string, Tok)>, k: string)
    requires MapWrites(storeNullDecodes, valueType, valueDec, objectDec, fields).Normal?
    ensures var ws := MapWrites(storeNullDecodes, valueType, valueDec, objectDec, fields).value;
      var r := DecodeMap(storeNullDecodes, valueType, valueDec, objectDec, StartObject(fields));
      && r.Normal?
      && Lookup(r.value, k) == if LastWrite(ws, k).Some? && !LastWrite(ws, k).value.ENull? then LastWrite(ws, k) else None
  {
    var ws := MapWrites(storeNullDecodes, valueType, valueDec, objectDec, fields).value;
    DecodeMapIsLastWrite(storeNullDecodes, valueType, valueDec, objectDec, StartObject(fields));
    var m := LatestEntries(ws, FirstKeys(ws));
    var r := RemoveNullValues(m);
    assert DistinctKeys(r) by {
      assert DistinctKeys(m);
      forall i, j | 0 <= i < j < |r| ensures r[i].0 != r[j].0 {
        FilterOrderKeepsDistinct(m, i, j);
      }
    }
    if LastWrite(ws, k).Some? && !LastWrite(ws, k).value.ENull? {
      var i :| 0 <= i < |FirstKeys(ws)| && FirstKeys(ws)[i] == k;
      assert m[i] == (k, LastWrite(ws, k).value);
      LookupEntry(r, k, LastWrite(ws, k).value);
    } else {
      LookupNoneIffAbsent(r, k);
      forall p | p in r ensures p.0 != k {
        var i :| 0 <= i < |m| && m[i] == p;
        assert FirstKeys(ws)[i] == p.0;
      }
    }
  }

  /** Writes with no `null` value leave the final removal pass nothing to remove. */
  lemma NullFreeWritesKeepAllKeys(ws: seq<(string, Elem)>)
    requires forall w :: w in ws ==> !w.1.ENull?
    ensures RemoveNullValues(LatestEntries(ws, FirstKeys(ws))) == LatestEntries(ws, FirstKeys(ws))
  {
    var m := LatestEntries(ws, FirstKeys(ws));
    forall i | 0 <= i < |m| ensures !m[i].1.ENull? {
      assert (m[i].0, m[i].1) in ws;
    }
    RemoveNullValuesKeepsClean(m);
  }

  /**
   * The Jackson 2 map decoder: `null` decodes are never stored, and with no
   * value type it reads plain objects. No written value is `null`, so every
   * written key survives.
   */
  function DecodeMap2(valueType: Option<ValueType>, valueDec: Decoder, objectDec: Decoder, input: Start): (r: Completion<seq<(string, Elem)>, Thrown>)
    ensures r == MapByLastWrite(false, valueType, valueDec, objectDec, input)
    ensures r.Normal? ==>
      var ws := MapWrites(false, valueType, valueDec, objectDec, input.fields).value;
      r.value == LatestEntries(ws, FirstKeys(ws))
  {
    DecodeMapIsLastWrite(false, valueType, valueDec, objectDec, input);
    var ws := if input.StartObject? then MapWrites(false, valueType, valueDec, objectDec, input.fields) else Normal([]);
    NullFreeWritesKeepAllKeys(if ws.Normal? then ws.value else []);
    DecodeMap(false, valueType, valueDec, objectDec, input)
  }

  /**
   * The Jackson 3 map decoder: the value type is always known, and a `null`
   * decode is stored until the final pass removes its key.
   */
  function DecodeMap3(valueType: ValueType, valueDec: Decoder, input: Start): (r: Completion<seq<(string, Elem)>, Thrown>)
    ensures r == MapByLastWrite(true, Some(valueType), valueDec, valueDec, input)
  {
    DecodeMapIsLastWrite(true, Some(valueType), valueDec, valueDec, input);
    DecodeMap(true, Some(valueType), valueDec, valueDec, input)
  }

  /** In Jackson 2 nothing `null` is ever stored, so the final removal pass finds nothing to remove. */
  lemma FinalPassIdle2(valueType: Option<ValueType>, valueDec: Decoder, objectDec: Decoder, fields: seq<(string, Tok)>)
    requires MapFields(false, valueType, valueDec, objectDec, [], fields).Normal?
    ensures var m := MapFields(false, valueType, valueDec, objectDec, [], fields).value;
      DecodeMap2(valueType, valueDec, objectDec, StartObject(fields)) == Normal(m)
  {
    var m := MapFields(false, valueType, valueDec, objectDec, [], fields).value;
    assert forall i :: 0 <= i < |m| ==> !m[i].1.ENull? by {
      forall i | 0 <= i < |m| ensures !m[i].1.ENull? {
        assert m[i] in m;
      }
    }
    RemoveNullValuesKeepsClean(m);
  }

  /**
   * A repeated key overwrites: when the last field decodes to a value that is
   * stored, that value is what the Jackson 2 map holds for its key.
   */
  lemma LastFieldWins2(valueType: ValueType, valueDec: Decoder, objectDec: Decoder, fields: seq<(string, Tok)>, k: string, t: Tok, v: Elem)
    requires MapFields(false, Some(valueType), valueDec, objectDec, [], fields).Normal?
    requires !SkippedToken(t) && valueDec(t) == Normal(v) && !v.ENull? && !BlankString(v)
    ensures var r := DecodeMap2(Some(valueType), valueDec, objectDec, StartObject(fields + [(k, t)]));
      r.Normal? && Lookup(r.value, k) == Some(v)
  {
    MapFieldsAppend(false, Some(valueType), valueDec, objectDec, [], fields, (k, t));
    var m := MapFields(false, Some(valueType), valueDec, objectDec, [], fields + [(k, t)]);
    assert m.Normal? && m.value == Put(MapFields(false, Some(valueType), valueDec, objectDec, [], fields).value, k, v);
    FinalPassIdle2(Some(valueType), valueDec, objectDec, fields + [(k, t)]);
  }

  /**
   * Where the two versions part: a key whose later field decodes to `null`.
   * Jackson 2 keeps the earlier value; Jackson 3 overwrites it with `null`
   * and its final pass then removes the key altogether.
   */
  lemma LaterNullDecodeDiffers(valueDec: Decoder, objectDec: Decoder, x: Elem, t1: Tok, t2: Tok)
    requires !SkippedToken(t1) && !SkippedToken(t2)
    requires valueDec(t1) == Normal(x) && !x.ENull? && !BlankString(x)
    requires valueDec(t2) == Normal(ENull)
    ensures DecodeMap2(Some(OtherValues), valueDec, objectDec, StartObject([("a", t1), ("a", t2)])) == Normal([("a", x)])
    ensures DecodeMap3(OtherValues, valueDec, StartObject([("a", t1), ("a", t2)])) == Normal([])
  {
    var fields := [("a", t1), ("a", t2)];
    assert fields[1..] == [("a", t2)] && fields[1..][1..] == [];
    var kept: seq<(string, Elem)> := [("a", x)];
    var nulled: seq<(string, Elem)> := [("a", ENull)];
    assert Put([], "a", x) == kept;
    assert Put(kept, "a", ENull) == nulled;
    // Jackson 2: the second field decodes to null and is not stored.
    assert MapFieldStep(false, Some(OtherValues), valueDec, objectDec, [], fields[0]) == Normal(kept);
    assert MapFieldStep(false, Some(OtherValues), valueDec, objectDec, kept, fields[1]) == Normal(kept);
    assert MapFields(false, Some(OtherValues), valueDec, objectDec, kept, fields[1..]) == Normal(kept);
    assert MapFields(false, Some(OtherValues), valueDec, objectDec, [], fields) == Normal(kept);
    RemoveNullValuesKeepsClean(kept);
    // Jackson 3: the second field overwrites with null, which the final pass removes.
    assert MapFieldStep(true, Some(OtherValues), valueDec, valueDec, [], fields[0]) == Normal(kept);
    assert MapFieldStep(true, Some(OtherValues), valueDec, valueDec, kept, fields[1]) == Normal(nulled);
    assert MapFields(true, Some(OtherValues), valueDec, valueDec, nulled, fields[1..][1..]) == Normal(nulled);
    assert MapFields(true, Some(OtherValues), valueDec, valueDec, kept, fields[1..]) == Normal(nulled);
    assert MapFields(true, Some(OtherValues), valueDec, valueDec, [], fields) == Normal(nulled);
    var keep := (p: (string, Elem)) => !p.1.ENull?;
    assert nulled[1..] == [];
    assert Filter(keep, nulled) == Filter(keep, []);
  }

  /** With an `Optional` value type a `null` token is not skipped: the value decoder sees it and its result is stored. */
  lemma OptionalValuesSeeNulls(valueDec: Decoder, objectDec: Decoder, empty: Elem)
    requires valueDec(TNull) == Normal(empty) && !empty.ENull? && !BlankString(empty)
    ensures DecodeMap2(Some(OptionalValues), valueDec, objectDec, StartObject([("k", TNull)])) == Normal([("k", empty)])
    ensures DecodeMap3(OptionalValues, valueDec, StartObject([("k", TNull)])) == Normal([("k", empty)])
    ensures DecodeMap2(Some(OtherValues), valueDec, objectDec, StartObject([("k", TNull)])) == Normal([])
  {
    var fields := [("k", TNull)];
    assert fields[1..] == [];
    var kept: seq<(string, Elem)> := [("k", empty)];
    assert Put([], "k", empty) == kept;
    assert MapFieldStep(false, Some(OptionalValues), valueDec, objectDec, [], fields[0]) == Normal(kept);
    assert MapFields(false, Some(OptionalValues), valueDec, objectDec, [], fields) == Normal(kept);
    assert MapFieldStep(true, Some(OptionalValues), valueDec, valueDec, [], fields[0]) == Normal(kept);
    assert MapFields(true, Some(OptionalValues), valueDec, valueDec, [], fields) == Normal(kept);
    RemoveNullValuesKeepsClean(kept);
    assert MapFields(false, Some(OtherValues), valueDec, objectDec, [], fields) == Normal([]);
    RemoveNullValuesKeepsClean<string>([]);
  }

  /** Jackson 2 without a value type fails on the first `null` or string token, before anything is skipped. */
  lemma MissingValueTypeFails2(valueDec: Decoder, objectDec: Decoder, k: string, t: Tok)
    requires t.TNull? || t.TStr?
    ensures DecodeMap2(None, valueDec, objectDec, StartObject([(k, t)])) == Abrupt(NullPointer)
  {
  }
}
