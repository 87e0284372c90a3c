/**
 * Java string behaviour the model relies on: `String.isBlank`, decimal
 * rendering of an `int` index, `String.startsWith` and `String.join`.
 */
module Text {

  /**
   * `Character.isWhitespace` of the Java platform: the ASCII separators
   * U+0009..U+000D and U+001C..U+0020, and the Unicode space, line and
   * paragraph separators except the non-breaking ones (U+00A0, U+2007, U+202F).
   */
  predicate IsJavaWhitespace(c: char)
  {
    var k := c as int;
    || (0x09 <= k <= 0x0D)
    || (0x1C <= k <= 0x20)
    || k == 0x1680
    || (0x2000 <= k <= 0x2006)
    || (0x2008 <= k <= 0x200A)
    || k == 0x2028
    || k == 0x2029
    || k == 0x205F
    || k == 0x3000
  }

  /** `String.isBlank`: empty, or only whitespace code points. */
  predicate IsBlank(s: string)
  {
    forall i :: 0 <= i < |s| ==> IsJavaWhitespace(s[i])
  }

  /** `String.startsWith`. */
  predicate StartsWith(s: string, prefix: string)
  {
    prefix <= s
  }

  function DigitChar(d: nat): (c: char)
    requires d < 10
    ensures '0' <= c <= '9'
    ensures c as int - '0' as int == d
  {
    ['0', '1', '2', '3', '4', '5', '6', '7', '8', '9'][d]
  }

  /** Value of a string of decimal digits; the inverse of `NatToString`. */
  function DigitsValue(s: string): nat
    requires forall i :: 0 <= i < |s| ==> '0' <= s[i] <= '9'
  {
    if s == [] then 0
    else DigitsValue(s[..|s| - 1]) * 10 + (s[|s| - 1] as int - '0' as int)
  }

  /** Decimal rendering of a non-negative `int`, as `"" + i` produces it in Java. */
  function NatToString(n: nat): (s: string)
    ensures 1 <= |s|
    ensures forall i :: 0 <= i < |s| ==> '0' <= s[i] <= '9'
    ensures s[0] == '0' ==> n == 0
  {
    if n < 10 then [DigitChar(n)] else NatToString(n / 10) + [DigitChar(n % 10)]
  }

  /** Reading the digits back gives the number: the rendering loses nothing. */
  lemma {:induction false} NatToStringRoundTrip(n: nat)
    ensures DigitsValue(NatToString(n)) == n
  {
    var s := NatToString(n);
    if n >= 10 {
      NatToStringRoundTrip(n / 10);
      assert s[..|s| - 1] == NatToString(n / 10);
    }
  }

  /** Distinct indices render to distinct strings, so `[i]` path steps never collide. */
  lemma NatToStringInjective(m: nat, n: nat)
    ensures NatToString(m) == NatToString(n) ==> m == n
  {
    if NatToString(m) == NatToString(n) {
      NatToStringRoundTrip(m);
      NatToStringRoundTrip(n);
    }
  }

  /** `String.join(sep, parts)`. */
  function Join(sep: string, parts: seq<string>): string
  {
    if parts == [] then ""
    else if |parts| == 1 then parts[0]
    else parts[0] + sep + Join(sep, parts[1..])
  }

  /** Where `parts[i]` starts inside `Join(sep, parts)`. */
  function JoinOffset(sep: string, parts: seq<string>, i: nat): nat
    requires i <= |parts|
  {
    if i == 0 then 0 else JoinOffset(sep, parts, i - 1) + |parts[i - 1]| + |sep|
  }

  /** Slicing past a known prefix slices the rest. */
  lemma SliceAfterPrefix(a: string, b: string, x: nat, y: nat)
    requires x <= y <= |b|
    ensures (a + b)[|a| + x..|a| + y] == b[x..y]
  {
  }

  /** The joined text lays the parts out in list order: part `i` sits at `JoinOffset(i)`. */
  lemma {:induction false} JoinPartAt(sep: string, parts: seq<string>, i: nat)
    requires i < |parts|
    ensures JoinOffset(sep, parts, i) + |parts[i]| <= |Join(sep, parts)|
    ensures Join(sep, parts)[JoinOffset(sep, parts, i)..JoinOffset(sep, parts, i) + |parts[i]|] == parts[i]
  {
    if |parts| > 1 {
      var tail := parts[1..];
      var head := parts[0] + sep;
      assert Join(sep, parts) == head + Join(sep, tail);
      if i > 0 {
        JoinPartAt(sep, tail, i - 1);
        JoinOffsetShift(sep, parts, i);
        assert tail[i - 1] == parts[i];
        var o := JoinOffset(sep, tail, i - 1);
        SliceAfterPrefix(head, Join(sep, tail), o, o + |parts[i]|);
      }
    }
  }

  /** Consecutive parts are separated by exactly `sep`. */
  lemma {:induction false} JoinSeparatorAt(sep: string, parts: seq<string>, i: nat)
    requires i + 1 < |parts|
    ensures JoinOffset(sep, parts, i + 1) <= |Join(sep, parts)|
    ensures Join(sep, parts)[JoinOffset(sep, parts, i) + |parts[i]|..JoinOffset(sep, parts, i + 1)] == sep
  {
    var tail := parts[1..];
    var head := parts[0] + sep;
    assert Join(sep, parts) == head + Join(sep, tail);
    if i == 0 {
      assert Join(sep, parts)[|parts[0]|..|head|] == sep;
    } else {
      JoinSeparatorAt(sep, tail, i - 1);
      JoinOffsetShift(sep, parts, i);
      JoinOffsetShift(sep, parts, i + 1);
      assert tail[i - 1] == parts[i];
      var o := JoinOffset(sep, tail, i - 1) + |parts[i]|;
      SliceAfterPrefix(head, Join(sep, tail), o, JoinOffset(sep, tail, i));
    }
  }

  lemma {:induction false} JoinOffsetShift(sep: string, parts: seq<string>, i: nat)
    requires 1 <= i <= |parts|
    ensures JoinOffset(sep, parts, i) == |parts[0]| + |sep| + JoinOffset(sep, parts[1..], i - 1)
  {
    if i > 1 {
      JoinOffsetShift(sep, parts, i - 1);
    }
  }

  /** The length of the joined text: every part plus one separator between neighbours. */
  lemma {:induction false} JoinLength(sep: string, parts: seq<string>)
    requires parts != []
    ensures |Join(sep, parts)| == JoinOffset(sep, parts, |parts| - 1) + |parts[|parts| - 1]|
  {
    if |parts| > 1 {
      JoinLength(sep, parts[1..]);
      JoinOffsetShift(sep, parts, |parts| - 1);
    }
  }
}
