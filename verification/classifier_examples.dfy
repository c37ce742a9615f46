/**
 * The classifier on concrete paths and links: paths of a Russian, a German
 * and an English page, placeholder links, blank labels, and the loose locale
 * match that lets a locale in any segment count.
 */
module ClassifierExamples {
  import opened Wrappers
  import opened JsText
  import opened Locale
  import opened Classifier

  /** Splitting at a leading piece without separators. */
  lemma SplitCons(a: string, sep: char, b: string)
    requires sep !in a
    ensures Split(a + [sep] + b, sep) == [a] + Split(b, sep)
  {
    var s := a + [sep] + b;
    assert IndexOf(s, sep) == |a| by {
      assert s[|a|] == sep;
      assert forall j :: 0 <= j < |a| ==> s[j] == a[j];
    }
    assert s[..|a|] == a;
    assert s[|a| + 1..] == b;
  }

  /** A string without the separator is a single piece. */
  lemma SplitWhole(a: string, sep: char)
    requires sep !in a
    ensures Split(a, sep) == [a]
  {
    assert IndexOf(a, sep) == |a|;
  }

  /** The pieces of `/a/b` for `a`, `b` without `/`. */
  lemma SplitTwoSegments(a: string, b: string)
    requires '/' !in a && '/' !in b
    ensures Split("/" + a + "/" + b, '/') == ["", a, b]
  {
    var rest := a + "/" + b;
    assert "/" + a + "/" + b == "" + ['/'] + rest;
    SplitCons("", '/', rest);
    SplitCons(a, '/', b);
    SplitWhole(b, '/');
  }

  /** The pieces of `/a` for `a` without `/`. */
  lemma SplitOneSegment(a: string)
    requires '/' !in a
    ensures Split("/" + a, '/') == ["", a]
  {
    assert "/" + a == "" + ['/'] + a;
    SplitCons("", '/', a);
    SplitWhole(a, '/');
  }

  /** Lowering a string without capitals changes nothing. */
  lemma LowerOfLower(s: string)
    requires forall i :: 0 <= i < |s| ==> !('A' <= s[i] <= 'Z')
    ensures ToLowerCase(s) == s
  {
  }

  /** A value without query or fragment is kept whole by the marker test. */
  lemma StripPlain(s: string)
    requires '#' !in s && '?' !in s
    ensures StripQueryAndFragment(s) == s
  {
  }

  /** The pieces of a plain path `/a/b`. */
  lemma PlainTwoSegments(p: string, a: string, b: string)
    requires '/' !in a && '/' !in b && '#' !in p && '?' !in p
    requires p == "/" + a + "/" + b
    ensures Split(p, '/') == ["", a, b]
    ensures StripQueryAndFragment(p) == p
  {
    SplitTwoSegments(a, b);
  }

  /** The pieces of a plain path `/a`. */
  lemma PlainOneSegment(p: string, a: string)
    requires '/' !in a && '#' !in p && '?' !in p
    requires p == "/" + a
    ensures Split(p, '/') == ["", a]
    ensures StripQueryAndFragment(p) == p
  {
    SplitOneSegment(a);
  }

  /** A non-default locale rejects a link whose path carries no marker of it. */
  lemma RejectedWithoutMarker(p: string, locale: string)
    requires locale in NonDefaultLocales
    requires DetectLocaleFromPathname(p) != Some(locale) && !MarkedSegment(p, locale)
    ensures !IsAllowedPath(p, locale, p)
  {
  }

  /** A path `/a/b` whose first piece is a locale is detected as that locale. */
  lemma LeadingLocaleDetected(p: string, a: string, b: string)
    requires Split(p, '/') == ["", a, b] && a in Locales
    ensures DetectLocaleFromPathname(p) == Some(a)
  {
    DetectFindsFirstLocaleSegment(p, 1);
  }

  /** A path `/a` whose only piece is not a locale has no detected locale. */
  lemma NoLocaleDetected(p: string, a: string)
    requires Split(p, '/') == ["", a] && a !in Locales
    ensures DetectLocaleFromPathname(p) == None
  {
  }

  /** A plain path is marked only by its own pieces. */
  lemma MarkedOnlyByPieces(p: string, l: string, pieces: seq<string>)
    requires StripQueryAndFragment(p) == p && Split(p, '/') == pieces && l !in pieces
    ensures !MarkedSegment(p, l)
  {
  }

  /**
   * The pieces of the literal paths used below. Each literal gets its own
   * small lemma so that the proofs about the literal stay apart from the
   * proofs that use it.
   */
  lemma GuidePieces(p: string)
    requires p == "/guide"
    ensures '#' !in p && '?' !in p && StripQueryAndFragment(p) == p && Split(p, '/') == ["", "guide"]
  {
    PlainOneSegment(p, "guide");
  }

  /** The pieces of the plain path `/ru/guide`. */
  lemma RuGuidePieces(p: string)
    requires p == "/ru/guide"
    ensures StripQueryAndFragment(p) == p && Split(p, '/') == ["", "ru", "guide"]
  {
    PlainTwoSegments(p, "ru", "guide");
  }

  /** The pieces of the plain path `/de/guide`. */
  lemma DeGuidePieces(p: string)
    requires p == "/de/guide"
    ensures StripQueryAndFragment(p) == p && Split(p, '/') == ["", "de", "guide"]
  {
    PlainTwoSegments(p, "de", "guide");
  }

  /** The pieces of the plain path `/guide/de`. */
  lemma GuideDePieces(p: string)
    requires p == "/guide/de"
    ensures StripQueryAndFragment(p) == p && Split(p, '/') == ["", "guide", "de"]
  {
    PlainTwoSegments(p, "guide", "de");
  }

  /** With `ru` active, `/ru/guide` is allowed. */
  lemma RuAllowsRuPath(p: string)
    requires p == "/ru/guide"
    ensures IsAllowedPath(p, "ru", p)
  {
    RuGuidePieces(p);
    LeadingLocaleDetected(p, "ru", "guide");
  }

  /** `/de/guide` is detected as German. */
  lemma DeGuideIsGerman(p: string)
    requires p == "/de/guide"
    ensures DetectLocaleFromPathname(p) == Some("de")
  {
    DeGuidePieces(p);
    LeadingLocaleDetected(p, "de", "guide");
  }

  /** With `ru` active, `/de/guide` is not allowed. */
  lemma RuRejectsDePath(p: string)
    requires p == "/de/guide"
    ensures !IsAllowedPath(p, "ru", p)
  {
    DeGuideIsGerman(p);
    DeGuidePieces(p);
    MarkedOnlyByPieces(p, "ru", ["", "de", "guide"]);
    RejectedWithoutMarker(p, "ru");
  }

  /** With `ru` active, the unmarked `/guide` is not allowed. */
  lemma RuRejectsUnmarkedPath(p: string)
    requires p == "/guide"
    ensures DetectLocaleFromPathname(p) == None
    ensures !IsAllowedPath(p, "ru", p)
  {
    GuidePieces(p);
    NoLocaleDetected(p, "guide");
    MarkedOnlyByPieces(p, "ru", ["", "guide"]);
    RejectedWithoutMarker(p, "ru");
  }

  /** With the default locale active, the unmarked `/guide` is allowed. */
  lemma DefaultAllowsUnmarkedPath(p: string)
    requires p == "/guide"
    ensures IsAllowedPath(p, DefaultLocale, p)
  {
    GuidePieces(p);
    DefaultAllowsUnmarked(p, p);
  }

  /**
   * The locale match is loose: `/guide/de` counts as a German page although
   * `de` is not its first segment, so it is shown for `de` and hidden for `en`.
   */
  lemma LooseMatchAnySegment(p: string)
    requires p == "/guide/de"
    ensures IsAllowedPath(p, "de", p)
    ensures !IsAllowedPath(p, DefaultLocale, p)
  {
    GuideDePieces(p);
    DefaultRejectsForeignSegment(p, p, "de");
  }

  /** A path that reads `/undefined` once lowered, such as `/Undefined`, is broken, whatever its label. */
  lemma PlaceholderPathIsBroken(p: string, text: string)
    requires ToLowerCase(p) == "/" + Placeholder
    ensures IsBrokenSearchLink(p, p, text)
  {
  }

  /** A path under `/undefined/` (in any letter case) is broken, whatever its label. */
  lemma PathUnderPlaceholderIsBroken(p: string, rest: string, text: string)
    requires ToLowerCase(p) == "/" + Placeholder + "/" + rest
    ensures IsBrokenSearchLink(p, p, text)
  {
    var prefix := "/" + Placeholder + "/";
    assert ToLowerCase(p)[..|prefix|] == prefix;
  }

  /** An href that ends in `undefined?h=` (in any letter case) is broken, whatever its label. */
  lemma PlaceholderQueryIsBroken(p: string, h: string, before: string, text: string)
    requires ToLowerCase(h) == before + Placeholder + "?h="
    ensures IsBrokenSearchLink(p, h, text)
  {
    assert before + Placeholder + "?h=" == before + (Placeholder + "?h=");
    EndsWithAppended(ToLowerCase(h), before, Placeholder + "?h=");
  }

  /** A link whose label is only whitespace is broken. */
  lemma BlankLabelIsBroken(p: string, text: string)
    requires p == "/en/intro" && text == " \n\t"
    ensures IsBrokenSearchLink(p, p, text)
  {
    assert forall j :: 0 <= j < |text| ==> IsJsWhitespace(text[j]);
    BlankOrPlaceholderIsBroken(p, p, text);
  }

  /** A link labelled `Result` to `/en/intro` is not broken. */
  lemma LabelledLinkIsNotBroken(p: string, text: string)
    requires p == "/en/intro" && text == "Result"
    ensures !IsBrokenSearchLink(p, p, text)
  {
    IntroIsNoPlaceholder(p);
    assert !IsJsWhitespace(text[0]);
  }

  lemma IntroIsNoPlaceholder(p: string)
    requires p == "/en/intro"
    ensures !IsPlaceholderPath(ToLowerCase(p)) && !IsPlaceholderHref(ToLowerCase(p))
  {
    LowerOfLower(p);
    assert |p| < |"/" + Placeholder| && p != Placeholder && |p| < |Placeholder + "?h="|;
  }
}
