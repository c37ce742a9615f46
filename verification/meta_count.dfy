/**
 * The text rewrite behind `updateSearchMetaCount`: the summary line (such as
 * "12 matching documents") gets its first number, or failing that its first
 * `#`, replaced by the number of visible result items.
 */
module MetaCount {
  import opened Wrappers
  import opened JsText

  /** A character of the regular-expression class `\d`. */
  predicate IsDigit(c: char)
  {
    '0' <= c <= '9'
  }

  predicate AllDigits(s: string)
  {
    forall k :: 0 <= k < |s| ==> IsDigit(s[k])
  }

  /** `/\d+/.test(s)`. */
  predicate HasDigit(s: string)
  {
    exists k :: 0 <= k < |s| && IsDigit(s[k])
  }

  /** Where the leftmost match of `/\d+/` starts, or `|s|` when there is none. */
  function FirstDigitIndex(s: string): (i: nat)
    ensures i <= |s|
    ensures forall k :: 0 <= k < i ==> !IsDigit(s[k])
    ensures i < |s| <==> HasDigit(s)
    ensures i < |s| ==> IsDigit(s[i])
  {
    if |s| == 0 then 0
    else if IsDigit(s[0]) then 0
    else
      var i := 1 + FirstDigitIndex(s[1..]);
      assert forall k :: 1 <= k < |s| ==> s[k] == s[1..][k - 1];
      i
  }

  /** Where the greedy `\d+` that starts at `i` ends. */
  function DigitRunEnd(s: string, i: nat): (j: nat)
    requires i <= |s|
    ensures i <= j <= |s|
    ensures forall k :: i <= k < j ==> IsDigit(s[k])
    ensures j < |s| ==> !IsDigit(s[j])
    decreases |s| - i
  {
    if i < |s| && IsDigit(s[i]) then DigitRunEnd(s, i + 1) else i
  }

  /** The text of the leftmost match of `/\d+/`. */
  function FirstDigitRun(s: string): string
  {
    var i := FirstDigitIndex(s);
    s[i..DigitRunEnd(s, i)]
  }

  /**
   * `s.replace(/\d+/, rep)`, for a text that has a digit: `rep` stands where the
   * leftmost number stood, taken whole, and the text around it is kept.
   */
  function ReplaceFirstDigitRun(s: string, rep: string): (r: string)
    requires HasDigit(s)
    ensures var i := FirstDigitIndex(s);
            |r| == |s| - (DigitRunEnd(s, i) - i) + |rep| &&
            r[..i] == s[..i] && OccursAt(r, rep, i) && r[i + |rep|..] == s[DigitRunEnd(s, i)..]
    ensures var i := FirstDigitIndex(s);
            (forall k :: 0 <= k < i ==> !IsDigit(r[k])) && (i + |rep| < |r| ==> !IsDigit(r[i + |rep|]))
  {
    var i := FirstDigitIndex(s);
    s[..i] + rep + s[DigitRunEnd(s, i)..]
  }

  /**
   * `s.replace("#", rep)`, for a text that has a `#`: `rep` stands where the
   * first `#` stood, and the text around it is kept.
   */
  function ReplaceFirstHash(s: string, rep: string): (r: string)
    requires '#' in s
    ensures var i := IndexOf(s, '#');
            |r| == |s| - 1 + |rep| &&
            r[..i] == s[..i] && '#' !in r[..i] && OccursAt(r, rep, i) && r[i + |rep|..] == s[i + 1..]
  {
    var i := IndexOf(s, '#');
    s[..i] + rep + s[i + 1..]
  }

  function DigitChar(d: nat): (c: char)
    requires d < 10
    ensures IsDigit(c)
  {
    ('0' as int + d) as char
  }

  /** `String(n)`: the decimal digits of `n`, without leading zeros. */
  function DecimalString(n: nat): (r: string)
    ensures |r| >= 1 && AllDigits(r)
    ensures r[0] == '0' ==> n == 0
  {
    if n < 10 then [DigitChar(n)] else DecimalString(n / 10) + [DigitChar(n % 10)]
  }

  /** The number a string of decimal digits denotes. */
  function DigitsValue(s: string): nat
    requires AllDigits(s)
  {
    if s == [] then 0 else DigitsValue(s[..|s| - 1]) * 10 + (s[|s| - 1] as int - '0' as int)
  }

  /** `String(n)` reads back as `n`. */
  lemma {:induction false} DecimalRoundTrip(n: nat)
    ensures DigitsValue(DecimalString(n)) == n
  {
    if n >= 10 {
      DecimalRoundTrip(n / 10);
      var r := DecimalString(n);
      assert r[..|r| - 1] == DecimalString(n / 10);
    }
  }

  /**
   * The script's `nextText`: the trimmed text with its number, or else its
   * `#`, replaced; `None` (the script's `null`) exactly when it has neither.
   */
  function NextText(currentText: string, count: string): (r: Option<string>)
    ensures r.None? <==> !HasDigit(currentText) && '#' !in currentText
    ensures r.Some? ==> Includes(r.value, count)
  {
    if HasDigit(currentText) then
      var r := ReplaceFirstDigitRun(currentText, count);
      assert OccursAt(r, count, FirstDigitIndex(currentText));
      Some(r)
    else if '#' in currentText then
      var r := ReplaceFirstHash(currentText, count);
      assert OccursAt(r, count, IndexOf(currentText, '#'));
      Some(r)
    else None
  }

  /**
   * The text to write into the summary element, or `None` when nothing is
   * written: no number and no `#` in the trimmed text, or the rewrite would
   * leave it as it is. A text that is written differs from the trimmed text
   * and has `String(visibleItems)` as its first number.
   */
  function MetaUpdate(textContent: string, visibleItems: nat): (r: Option<string>)
    ensures r.Some? ==> r.value != Trim(textContent)
    ensures r.Some? ==> HasDigit(r.value) && FirstDigitRun(r.value) == DecimalString(visibleItems)
  {
    var currentText := Trim(textContent);
    var count := DecimalString(visibleItems);
    var nextText := NextText(currentText, count);
    if nextText.Some? && nextText.value != currentText then
      RewriteIsFixedPoint(currentText, count);
      nextText
    else None
  }

  /**
   * In a text `pre + digits + post` where `pre` has no digit and `post` does
   * not start with one, the leftmost number is exactly `digits`.
   */
  lemma FirstRunOf(pre: string, digits: string, post: string)
    requires forall k :: 0 <= k < |pre| ==> !IsDigit(pre[k])
    requires |digits| >= 1 && AllDigits(digits)
    requires post == "" || !IsDigit(post[0])
    ensures HasDigit(pre + digits + post)
    ensures FirstDigitIndex(pre + digits + post) == |pre|
    ensures DigitRunEnd(pre + digits + post, |pre|) == |pre| + |digits|
  {
    var s := pre + digits + post;
    assert IsDigit(s[|pre|]);
    assert forall k :: 0 <= k < |pre| ==> s[k] == pre[k];
    assert forall k :: |pre| <= k < |pre| + |digits| ==> s[k] == digits[k - |pre|];
    assert |post| > 0 ==> s[|pre| + |digits|] == post[0];
  }

  /** The span `[i, j)` of the trimmed text that the rewrite replaces. */
  lemma RewriteSpan(currentText: string, count: string) returns (i: nat, j: nat)
    requires NextText(currentText, count).Some?
    ensures i < j <= |currentText|
    ensures NextText(currentText, count).value == currentText[..i] + count + currentText[j..]
    ensures forall k :: 0 <= k < i ==> !IsDigit(currentText[k])
    ensures j == |currentText| || !IsDigit(currentText[j])
    ensures HasDigit(currentText) ==> currentText[i..j] == FirstDigitRun(currentText)
    ensures !HasDigit(currentText) ==> currentText[i] == '#' && j == i + 1 && '#' !in currentText[..i]
  {
    if HasDigit(currentText) {
      i := FirstDigitIndex(currentText);
      j := DigitRunEnd(currentText, i);
    } else {
      i := IndexOf(currentText, '#');
      j := i + 1;
      assert forall k :: 0 <= k < |currentText| ==> !IsDigit(currentText[k]);
    }
  }

  /** Replacing an inner span of a trimmed text by digits leaves it trimmed. */
  lemma RewriteStaysTrimmed(currentText: string, i: nat, j: nat, count: string)
    requires currentText == Trim(currentText)
    requires i < j <= |currentText|
    requires |count| >= 1 && AllDigits(count)
    ensures Trim(currentText[..i] + count + currentText[j..]) == currentText[..i] + count + currentText[j..]
  {
    var next := currentText[..i] + count + currentText[j..];
    assert currentText != "";
    assert !IsJsWhitespace(next[0]) by {
      if i > 0 { assert next[0] == currentText[0]; } else { assert next[0] == count[0]; }
    }
    assert !IsJsWhitespace(next[|next| - 1]) by {
      if j < |currentText| {
        assert next[|next| - 1] == currentText[|currentText| - 1];
      } else {
        assert next[|next| - 1] == count[|count| - 1];
      }
    }
  }

  /** The rewritten text, rewritten again with the same count, is unchanged. */
  lemma RewriteIsFixedPoint(currentText: string, count: string)
    requires NextText(currentText, count).Some?
    requires |count| >= 1 && AllDigits(count)
    ensures NextText(NextText(currentText, count).value, count) == NextText(currentText, count)
    ensures HasDigit(NextText(currentText, count).value)
    ensures FirstDigitRun(NextText(currentText, count).value) == count
  {
    var i, j := RewriteSpan(currentText, count);
    var pre, post := currentText[..i], currentText[j..];
    FirstRunOf(pre, count, post);
    var next := pre + count + post;
    assert next[..|pre|] == pre;
    assert next[|pre| + |count|..] == post;
    assert next[|pre|..|pre| + |count|] == count;
    assert ReplaceFirstDigitRun(next, count) == next;
  }

  /**
   * The rewrite settles in one step: once the new text is written, a second
   * update with the same count writes nothing.
   */
  lemma MetaUpdateSettles(textContent: string, visibleItems: nat)
    requires MetaUpdate(textContent, visibleItems).Some?
    ensures MetaUpdate(MetaUpdate(textContent, visibleItems).value, visibleItems) == None
  {
    var currentText := Trim(textContent);
    var count := DecimalString(visibleItems);
    var i, j := RewriteSpan(currentText, count);
    RewriteStaysTrimmed(currentText, i, j, count);
    RewriteIsFixedPoint(currentText, count);
  }

  /** After a rewrite, the first number in the summary reads the visible count. */
  lemma MetaUpdateShowsCount(textContent: string, visibleItems: nat)
    requires MetaUpdate(textContent, visibleItems).Some?
    ensures var t := MetaUpdate(textContent, visibleItems).value;
            HasDigit(t) && FirstDigitRun(t) == DecimalString(visibleItems) &&
            DigitsValue(FirstDigitRun(t)) == visibleItems
  {
    var currentText := Trim(textContent);
    var count := DecimalString(visibleItems);
    var i, j := RewriteSpan(currentText, count);
    FirstRunOf(currentText[..i], count, currentText[j..]);
    RewriteIsFixedPoint(currentText, count);
    DecimalRoundTrip(visibleItems);
  }

  /**
   * The rewrite of a trimmed text leaves it as it is, or does not apply,
   * exactly when the text has neither a number nor a `#`, or its first
   * number already is `count`.
   */
  lemma NextTextKeepsIff(currentText: string, count: string)
    requires |count| >= 1 && AllDigits(count)
    ensures NextText(currentText, count).None? || NextText(currentText, count).value == currentText <==>
              (!HasDigit(currentText) && '#' !in currentText) ||
              (HasDigit(currentText) && FirstDigitRun(currentText) == count)
  {
    if NextText(currentText, count).Some? {
      var i, j := RewriteSpan(currentText, count);
      var next := NextText(currentText, count).value;
      if HasDigit(currentText) {
        if currentText[i..j] == count {
          assert currentText == currentText[..i] + currentText[i..j] + currentText[j..];
        }
        if next == currentText {
          assert |count| == j - i;
          assert next[i..i + |count|] == count;
        }
      } else {
        assert next[i] == count[0];
      }
    }
  }

  /**
   * Nothing is written exactly when the trimmed summary has neither a number
   * nor a `#`, or its first number already is the count as `String` prints it.
   */
  lemma MetaUpdateNoneIff(textContent: string, visibleItems: nat)
    ensures var currentText := Trim(textContent);
            MetaUpdate(textContent, visibleItems).None? <==>
              (!HasDigit(currentText) && '#' !in currentText) ||
              (HasDigit(currentText) && FirstDigitRun(currentText) == DecimalString(visibleItems))
  {
    NextTextKeepsIff(Trim(textContent), DecimalString(visibleItems));
  }
}
