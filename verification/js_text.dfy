/**
 * The JavaScript string operations the search filter relies on, stated over
 * `string` (a sequence of Unicode scalar values; JavaScript counts UTF-16 code
 * units instead, which differs only for characters outside the Basic
 * Multilingual Plane):
 * `indexOf`, `split` on one character, `includes`, `startsWith`, `endsWith`,
 * `toLowerCase`, the `\s` character class and `trim`.
 */
module JsText {

  /** Position of the first `c` in `s`, or `|s|` when `s` has none (`indexOf` with -1 read as `|s|`). */
  function IndexOf(s: string, c: char): (r: nat)
    ensures r <= |s|
    ensures r < |s| ==> s[r] == c
    ensures forall j :: 0 <= j < r ==> s[j] != c
  {
    if |s| == 0 then 0
    else if s[0] == c then 0
    else 1 + IndexOf(s[1..], c)
  }

  /** `s.split(sep)` for a one-character separator: the pieces between separators, never an empty list. */
  function Split(s: string, sep: char): (parts: seq<string>)
    ensures |parts| >= 1
    ensures parts[0] == s[..IndexOf(s, sep)]
    ensures forall p :: p in parts ==> sep !in p
    decreases |s|
  {
    var k := IndexOf(s, sep);
    if k == |s| then [s] else [s[..k]] + Split(s[k + 1..], sep)
  }

  /** `parts.join(sep)`: the inverse of `Split`. */
  function Join(parts: seq<string>, sep: char): string
  {
    if |parts| == 0 then ""
    else if |parts| == 1 then parts[0]
    else parts[0] + [sep] + Join(parts[1..], sep)
  }

  /** Splitting loses nothing: joining the pieces back with the separator gives the input. */
  lemma {:induction false} JoinSplit(s: string, sep: char)
    ensures Join(Split(s, sep), sep) == s
    decreases |s|
  {
    var k := IndexOf(s, sep);
    if k < |s| {
      var parts, rest := Split(s, sep), Split(s[k + 1..], sep);
      assert parts == [s[..k]] + rest;
      assert |parts| >= 2 && parts[0] == s[..k] && parts[1..] == rest;
      assert Join(parts, sep) == s[..k] + [sep] + Join(rest, sep);
      JoinSplit(s[k + 1..], sep);
      assert s == s[..k] + [sep] + s[k + 1..];
    }
  }

  /** `t` occurs in `s` starting at position `i`. */
  predicate OccursAt(s: string, t: string, i: nat)
  {
    i + |t| <= |s| && s[i..i + |t|] == t
  }

  /** `s.startsWith(prefix)`. */
  predicate StartsWith(s: string, prefix: string)
  {
    |prefix| <= |s| && s[..|prefix|] == prefix
  }

  /** `s.endsWith(suffix)`. */
  predicate EndsWith(s: string, suffix: string)
  {
    |suffix| <= |s| && s[|s| - |suffix|..] == suffix
  }

  /** `s.includes(t)`, searched from the left. */
  function Includes(s: string, t: string): (b: bool)
    ensures b <==> exists i: nat :: OccursAt(s, t, i)
    decreases |s|
  {
    if StartsWith(s, t) then
      assert OccursAt(s, t, 0);
      true
    else if |s| == 0 then
      false
    else
      var b := Includes(s[1..], t);
      forall i: nat | OccursAt(s[1..], t, i)
        ensures OccursAt(s, t, i + 1)
      {
        assert s[1..][i..i + |t|] == s[i + 1..i + 1 + |t|];
      }
      forall i: nat | OccursAt(s, t, i) && i > 0
        ensures OccursAt(s[1..], t, i - 1)
      {
        assert s[1..][i - 1..i - 1 + |t|] == s[i..i + |t|];
      }
      b
  }

  /** Where `a + t + b` occurs, `t` occurs `|a|` further on. */
  lemma OccursInside(s: string, a: string, t: string, b: string, i: nat)
    requires OccursAt(s, a + t + b, i)
    ensures OccursAt(s, t, i + |a|)
  {
    var w := a + t + b;
    assert s[i..i + |w|] == w;
    forall k | 0 <= k < |t|
      ensures s[i + |a| + k] == t[k]
    {
      assert s[i + |a| + k] == s[i..i + |w|][|a| + k] == w[|a| + k];
    }
  }

  /** A string that includes `a + t` includes `t`. */
  lemma InfixIncludes(s: string, a: string, t: string)
    requires Includes(s, a + t)
    ensures Includes(s, t)
  {
    var i: nat :| OccursAt(s, a + t, i);
    assert a + t + "" == a + t;
    OccursInside(s, a, t, "", i);
  }

  /** A string that ends with `t + b` includes `t`. */
  lemma SuffixIncludes(s: string, t: string, b: string)
    requires EndsWith(s, t + b)
    ensures Includes(s, t)
  {
    assert "" + t + b == t + b;
    OccursInside(s, "", t, b, |s| - |t + b|);
  }

  /** `a + b` ends with `b`. */
  lemma EndsWithAppended(s: string, a: string, b: string)
    requires s == a + b
    ensures EndsWith(s, b)
  {
    assert s[|a|..] == b;
  }

  /** A string that starts with, ends with or equals `t` includes it. */
  lemma OccurrenceIncludes(s: string, t: string)
    ensures StartsWith(s, t) ==> Includes(s, t)
    ensures EndsWith(s, t) ==> Includes(s, t)
  {
    if StartsWith(s, t) {
      assert OccursAt(s, t, 0);
    }
    if EndsWith(s, t) {
      assert OccursAt(s, t, |s| - |t|);
    }
  }

  /**
   * A character of the JavaScript class `\s`, which is also the set that
   * `trim` removes: the WhiteSpace and LineTerminator code points of ECMAScript.
   */
  predicate IsJsWhitespace(c: char)
  {
    var n := c as int;
    n == 0x09 || n == 0x0A || n == 0x0B || n == 0x0C || n == 0x0D || n == 0x20 ||
    n == 0xA0 || n == 0x1680 || (0x2000 <= n <= 0x200A) || n == 0x2028 || n == 0x2029 ||
    n == 0x202F || n == 0x205F || n == 0x3000 || n == 0xFEFF
  }

  /** `s.replace(/\s+/g, "")`: the characters of `s` that are not whitespace, in order. */
  function RemoveWhitespace(s: string): (r: string)
    ensures |r| <= |s|
    ensures forall c :: c in r <==> c in s && !IsJsWhitespace(c)
  {
    if |s| == 0 then ""
    else if IsJsWhitespace(s[0]) then RemoveWhitespace(s[1..])
    else [s[0]] + RemoveWhitespace(s[1..])
  }

  /** `replace(/\s+/g, "")` keeps the order: on a concatenation it works on each part. */
  lemma {:induction false} RemoveWhitespaceAppend(a: string, b: string)
    ensures RemoveWhitespace(a + b) == RemoveWhitespace(a) + RemoveWhitespace(b)
  {
    if a == [] {
      assert a + b == b;
    } else {
      assert (a + b)[0] == a[0];
      assert (a + b)[1..] == a[1..] + b;
      RemoveWhitespaceAppend(a[1..], b);
    }
  }

  /** On one character, `replace(/\s+/g, "")` drops it exactly when it is whitespace. */
  lemma RemoveWhitespaceOne(c: char)
    ensures RemoveWhitespace([c]) == if IsJsWhitespace(c) then "" else [c]
  {
  }

  /** `toLowerCase` on one character, for the ASCII letters. */
  function LowerChar(c: char): char
  {
    if 'A' <= c <= 'Z' then (c as int + 32) as char else c
  }

  /** `s.toLowerCase()`, with the letters A to Z mapped to a to z. */
  function ToLowerCase(s: string): (r: string)
    ensures |r| == |s|
    ensures forall i :: 0 <= i < |s| ==> r[i] == LowerChar(s[i])
    ensures forall i :: 0 <= i < |r| ==> !('A' <= r[i] <= 'Z')
  {
    if |s| == 0 then "" else [LowerChar(s[0])] + ToLowerCase(s[1..])
  }

  /** Lowering is idempotent. */
  lemma ToLowerCaseIdempotent(s: string)
    ensures ToLowerCase(ToLowerCase(s)) == ToLowerCase(s)
  {
  }

  /** The number of leading whitespace characters of `s`. */
  function TrimStartIndex(s: string): (i: nat)
    ensures i <= |s|
    ensures forall j :: 0 <= j < i ==> IsJsWhitespace(s[j])
    ensures i < |s| ==> !IsJsWhitespace(s[i])
  {
    if |s| == 0 || !IsJsWhitespace(s[0]) then 0 else 1 + TrimStartIndex(s[1..])
  }

  /** The length of `s` without its trailing whitespace. */
  function TrimEndIndex(s: string): (i: nat)
    ensures i <= |s|
    ensures forall j :: i <= j < |s| ==> IsJsWhitespace(s[j])
    ensures i > 0 ==> !IsJsWhitespace(s[i - 1])
  {
    if |s| == 0 || !IsJsWhitespace(s[|s| - 1]) then |s| else TrimEndIndex(s[..|s| - 1])
  }

  /** `s.trim()`: `s` without its leading and trailing whitespace. */
  function Trim(s: string): (r: string)
    ensures r == "" <==> forall j :: 0 <= j < |s| ==> IsJsWhitespace(s[j])
    ensures r != "" ==> !IsJsWhitespace(r[0]) && !IsJsWhitespace(r[|r| - 1])
    ensures (s == "" || (!IsJsWhitespace(s[0]) && !IsJsWhitespace(s[|s| - 1]))) ==> r == s
  {
    var a := TrimStartIndex(s);
    var b := TrimEndIndex(s);
    if a < b then s[a..b] else ""
  }

  /** What `trim` keeps is a piece of `s` with only whitespace around it. */
  lemma TrimIsInfix(s: string)
    requires Trim(s) != ""
    ensures exists a: nat :: OccursAt(s, Trim(s), a) &&
              (forall j :: 0 <= j < a ==> IsJsWhitespace(s[j])) &&
              (forall j :: a + |Trim(s)| <= j < |s| ==> IsJsWhitespace(s[j]))
  {
    var a := TrimStartIndex(s);
    assert OccursAt(s, Trim(s), a);
  }
}
