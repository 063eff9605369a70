/**
 * The JavaScript string operations the edge functions rely on:
 * `String.prototype.split` with a one-character separator, the inverse
 * `Array.prototype.join`, `toLowerCase` and the decimal rendering of a
 * non-negative integer in a template literal.
 */
module JsString {

  /** Index of the first occurrence of `c` in `s`. */
  function IndexOf(s: string, c: char): (i: nat)
    requires c in s
    ensures i < |s| && s[i] == c
    ensures c !in s[..i]
  {
    if s[0] == c then 0
    else
      assert c in s[1..] by { assert s == [s[0]] + s[1..]; }
      var j := IndexOf(s[1..], c);
      assert s[..j + 1] == [s[0]] + s[1..][..j];
      j + 1
  }

  /** `parts.join(sep)`: the parts with one `sep` between neighbours. */
  function Join(parts: seq<string>, sep: char): string
  {
    if parts == [] then ""
    else if |parts| == 1 then parts[0]
    else parts[0] + [sep] + Join(parts[1..], sep)
  }

  /**
   * `s.split(sep)`: the maximal pieces of `s` between occurrences of `sep`.
   * There is always at least one piece (`"".split('/')` is `[""]`), no piece
   * holds the separator, joining them back gives `s`, and the first piece is
   * the longest prefix of `s` without a separator.
   */
  function Split(s: string, sep: char): (parts: seq<string>)
    ensures |parts| >= 1
    ensures forall k :: 0 <= k < |parts| ==> sep !in parts[k]
    ensures Join(parts, sep) == s
    ensures parts[0] <= s
    ensures parts[0] == s || s[|parts[0]|] == sep
    decreases |s|
  {
    if sep !in s then [s]
    else
      var i := IndexOf(s, sep);
      var rest := Split(s[i + 1..], sep);
      assert ([s[..i]] + rest)[1..] == rest;
      assert s == s[..i] + [sep] + s[i + 1..];
      [s[..i]] + rest
  }

  /** Splitting a joined list of separator-free pieces gives the pieces back. */
  lemma {:induction false} SplitJoin(parts: seq<string>, sep: char)
    requires |parts| >= 1
    requires forall k :: 0 <= k < |parts| ==> sep !in parts[k]
    ensures Split(Join(parts, sep), sep) == parts
    decreases |parts|
  {
    if |parts| == 1 {
      assert Join(parts, sep) == parts[0];
    } else {
      var tail := parts[1..];
      var s := Join(parts, sep);
      assert s == parts[0] + [sep] + Join(tail, sep);
      SplitHeadOfJoined(parts[0], Join(tail, sep), sep);
      assert s[|parts[0]|] == sep;
      var i := IndexOf(s, sep);
      assert Split(s, sep) == [s[..i]] + Split(s[i + 1..], sep);
      assert i == |parts[0]|;
      assert s[i + 1..] == Join(tail, sep);
      SplitJoin(tail, sep);
      assert parts == [parts[0]] + tail;
    }
  }

  /** The first piece of `a + sep + b` is `a` whenever `a` holds no separator. */
  lemma SplitHeadOfJoined(a: string, b: string, sep: char)
    requires sep !in a
    ensures Split(a + [sep] + b, sep)[0] == a
  {
    var s := a + [sep] + b;
    var h := Split(s, sep)[0];
    assert sep !in h && s[|a|] == sep;
    assert |h| <= |a|;
    assert forall i :: 0 <= i < |a| ==> s[i] == a[i] != sep;
    assert |h| >= |a|;
    assert h == s[..|h|] == a;
  }

  /** A string with no separator is its own single piece. */
  lemma SplitWithoutSeparator(s: string, sep: char)
    requires sep !in s
    ensures Split(s, sep) == [s]
  {
  }

  /** `toLowerCase` on one character: only the ASCII capitals change. */
  function LowerChar(c: char): char
  {
    if 'A' <= c <= 'Z' then (c as int + ('a' as int - 'A' as int)) as char else c
  }

  /**
   * `s.toLowerCase()`, restricted to ASCII capitals. Full Unicode lower-casing
   * maps exactly two non-ASCII characters to text with ASCII letters in it:
   * U+0130 to "i" plus a combining dot, which no ASCII-only name can match,
   * and U+212A (the Kelvin sign) to "k", which none of the allowlisted
   * header names contains.
   */
  function ToLowerCase(s: string): (r: string)
    ensures |r| == |s|
    ensures forall i :: 0 <= i < |s| ==> r[i] == LowerChar(s[i])
  {
    if s == [] then "" else [LowerChar(s[0])] + ToLowerCase(s[1..])
  }

  /** Lower-casing twice is lower-casing once. */
  lemma LowerCaseIsIdempotent(s: string)
    ensures ToLowerCase(ToLowerCase(s)) == ToLowerCase(s)
  {
    var once := ToLowerCase(s);
    forall i | 0 <= i < |s|
      ensures ToLowerCase(once)[i] == once[i]
    {
      assert LowerChar(LowerChar(s[i])) == LowerChar(s[i]);
    }
  }

  /** `lower` is `s` with each ASCII capital lowered, character by character. */
  predicate LowersTo(s: string, lower: string)
  {
    |s| == |lower| && forall i :: 0 <= i < |s| ==> LowerChar(s[i]) == lower[i]
  }

  /** `toLowerCase` gives exactly the text `s` lowers to, character by character. */
  lemma LowersToLowerCase(s: string)
    ensures forall lower :: LowersTo(s, lower) <==> ToLowerCase(s) == lower
  {
    forall lower | LowersTo(s, lower)
      ensures ToLowerCase(s) == lower
    {
      assert forall i :: 0 <= i < |s| ==> ToLowerCase(s)[i] == lower[i];
    }
  }

  /** Text without ASCII capitals is its own lower case. */
  lemma LowerCaseKeepsLowerText(s: string)
    requires forall i :: 0 <= i < |s| ==> !('A' <= s[i] <= 'Z')
    ensures ToLowerCase(s) == s
  {
    assert forall i :: 0 <= i < |s| ==> ToLowerCase(s)[i] == s[i];
  }

  function Digit(d: nat): (c: char)
    requires d < 10
    ensures '0' <= c <= '9' && c as int - '0' as int == d
  {
    ('0' as int + d) as char
  }

  /** A run of decimal digits without a leading zero, as JavaScript renders a non-negative integer. */
  predicate IsCanonicalDecimal(s: string)
  {
    && |s| >= 1
    && (forall i :: 0 <= i < |s| ==> '0' <= s[i] <= '9')
    && (|s| > 1 ==> s[0] != '0')
  }

  /** The number a run of decimal digits denotes. */
  function DecimalValue(s: string): nat
    requires forall i :: 0 <= i < |s| ==> '0' <= s[i] <= '9'
  {
    if s == [] then 0
    else 10 * DecimalValue(s[..|s| - 1]) + (s[|s| - 1] as int - '0' as int)
  }

  /** `${n}` for a non-negative integer: the canonical decimal text that denotes `n`. */
  function NumberToString(n: nat): (s: string)
    ensures IsCanonicalDecimal(s)
    ensures DecimalValue(s) == n
  {
    if n < 10 then
      var s := [Digit(n)];
      assert s[..0] == [];
      s
    else
      var init := NumberToString(n / 10);
      var s := init + [Digit(n % 10)];
      assert s[..|s| - 1] == init;
      s
  }

  /** Every canonical decimal text is the rendering of the number it denotes. */
  lemma {:induction false} DecimalRoundTrip(s: string)
    requires IsCanonicalDecimal(s)
    ensures NumberToString(DecimalValue(s)) == s
    decreases |s|
  {
    var v := DecimalValue(s);
    if |s| == 1 {
      assert s[..|s| - 1] == [] && s[|s| - 1] == s[0];
      assert DecimalValue(s[..|s| - 1]) == 0;
      assert v == s[0] as int - '0' as int;
      assert NumberToString(v) == [Digit(v)];
    } else {
      var init := s[..|s| - 1];
      var last := s[|s| - 1] as int - '0' as int;
      assert init[0] == s[0];
      DecimalRoundTrip(init);
      var w := DecimalValue(init);
      assert w != 0 by {
        assert init != "0";
      }
      assert v == 10 * w + last && 0 <= last < 10;
      assert v / 10 == w && v % 10 == last;
      assert NumberToString(v) == NumberToString(w) + [Digit(last)];
      assert s == init + [s[|s| - 1]];
    }
  }
}
