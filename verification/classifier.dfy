/**
 * The two per-link predicates of the filter pass: whether a result path
 * belongs to the active locale, and whether a result link is a placeholder
 * or has no visible label.
 */
module Classifier {
  import opened Wrappers
  import opened JsText
  import opened Locale

  /**
   * `toPathname(href)`: the pathname the browser's URL parser gives for `href`
   * (`parsed`), or `href` itself when the parser throws (`parsed == None`).
   */
  function ToPathname(href: string, parsed: Option<string>): (r: string)
    ensures parsed.None? ==> r == href
  {
    parsed.GetOr(href)
  }

  /**
   * The `hasLocale` closure: the path's detected locale is `locale`, or the
   * path or the raw href carries the locale marker, which is to say that
   * `locale` is one of their `/`-pieces once query and fragment are cut off.
   */
  function HasLocale(pathname: string, href: string, locale: string): (b: bool)
    requires locale in Locales
    ensures b <==> DetectLocaleFromPathname(pathname) == Some(locale) ||
                   MarkedSegment(pathname, locale) || MarkedSegment(href, locale)
  {
    DetectLocaleFromPathname(pathname) == Some(locale) ||
    HasLocaleSegment(pathname, locale) ||
    HasLocaleSegment(href, locale)
  }

  /**
   * `NON_DEFAULT_LOCALES.some(hasLocale)`: the path's detected locale is a
   * foreign one, or some foreign locale is a segment of the path or of the
   * raw href.
   */
  function HasForeignLocale(pathname: string, href: string): (b: bool)
    ensures b <==> (DetectLocaleFromPathname(pathname).Some? &&
                    DetectLocaleFromPathname(pathname) != Some(DefaultLocale)) ||
                   exists l :: l in NonDefaultLocales && (MarkedSegment(pathname, l) || MarkedSegment(href, l))
  {
    NonDefaultLocalesAreTheOthers();
    var d := DetectLocaleFromPathname(pathname);
    assert d.Some? && d.value != DefaultLocale ==> HasLocale(pathname, href, d.value);
    exists l :: l in NonDefaultLocales && HasLocale(pathname, href, l)
  }

  /**
   * `isAllowedPath(pathname, currentLocale, href)`. With the default locale
   * active, a link is allowed exactly when the path's detected locale is not a
   * foreign one and no foreign locale is a segment of the path or of the raw
   * href. With another locale active, it is allowed exactly when that locale
   * is detected or is a segment of the path or of the raw href; any segment
   * counts, not only the first.
   */
  function IsAllowedPath(pathname: string, currentLocale: string, href: string): (b: bool)
    requires currentLocale in Locales
    ensures currentLocale == DefaultLocale ==>
              (b <==> (DetectLocaleFromPathname(pathname).None? ||
                       DetectLocaleFromPathname(pathname) == Some(DefaultLocale)) &&
                      forall l :: l in NonDefaultLocales ==> !MarkedSegment(pathname, l) && !MarkedSegment(href, l))
    ensures currentLocale != DefaultLocale ==>
              (b <==> DetectLocaleFromPathname(pathname) == Some(currentLocale) ||
                      MarkedSegment(pathname, currentLocale) || MarkedSegment(href, currentLocale))
  {
    if currentLocale == DefaultLocale then !HasForeignLocale(pathname, href)
    else HasLocale(pathname, href, currentLocale)
  }

  /** `locale` is one of the `/`-pieces of `value` once its query and fragment are cut off. */
  predicate MarkedSegment(value: string, locale: string)
  {
    locale in Split(StripQueryAndFragment(value), '/')
  }

  /** With the default locale active, a path that has a foreign locale as a segment is rejected. */
  lemma DefaultRejectsForeignSegment(pathname: string, href: string, l: string)
    requires l in NonDefaultLocales && l in Split(pathname, '/')
    requires '#' !in pathname && '?' !in pathname
    ensures !IsAllowedPath(pathname, DefaultLocale, href)
  {
    assert StripQueryAndFragment(pathname) == pathname;
  }

  /**
   * With the default locale active, a path without any foreign-locale segment
   * is allowed when its href, cut at its query and fragment, has none either.
   */
  lemma DefaultAllowsUnmarked(pathname: string, href: string)
    requires '#' !in pathname && '?' !in pathname
    requires forall l :: l in NonDefaultLocales ==>
               l !in Split(pathname, '/') && l !in Split(StripQueryAndFragment(href), '/')
    ensures IsAllowedPath(pathname, DefaultLocale, href)
  {
    assert StripQueryAndFragment(pathname) == pathname;
    var d := DetectLocaleFromPathname(pathname);
    if d.Some? && d.value != DefaultLocale {
      NonDefaultLocalesAreTheOthers();
    }
  }

  /** The placeholder text that the search widget emits for missing entries. */
  const Placeholder: string := "undefined"

  /** The link's text is empty once all whitespace is removed. */
  predicate HasNoVisibleText(text: string)
  {
    |Trim(RemoveWhitespace(text))| == 0
  }

  /** The lowered path is `/undefined` or lies under it. */
  predicate IsPlaceholderPath(normalizedPath: string)
  {
    normalizedPath == "/" + Placeholder || StartsWith(normalizedPath, "/" + Placeholder + "/")
  }

  /** The lowered href contains `/undefined` or ends with `undefined` or `undefined?h=`. */
  predicate IsPlaceholderHref(normalizedHref: string)
  {
    Includes(normalizedHref, "/" + Placeholder) || EndsWith(normalizedHref, Placeholder) ||
    EndsWith(normalizedHref, Placeholder + "?h=")
  }

  /**
   * `isBrokenSearchLink(pathname, href, link)` with `text` for `link.textContent`:
   * a placeholder path, a placeholder in the href, or a label made of
   * whitespace only.
   */
  function IsBrokenSearchLink(pathname: string, href: string, text: string): (b: bool)
    ensures b <==> IsPlaceholderPath(ToLowerCase(pathname)) || IsPlaceholderHref(ToLowerCase(href)) ||
                   forall j :: 0 <= j < |text| ==> IsJsWhitespace(text[j])
  {
    NoVisibleTextIff(text);
    IsPlaceholderPath(ToLowerCase(pathname)) ||
    IsPlaceholderHref(ToLowerCase(href)) ||
    HasNoVisibleText(text)
  }

  /** A label is blank exactly when every character of it is whitespace. */
  lemma NoVisibleTextIff(text: string)
    ensures HasNoVisibleText(text) <==> forall j :: 0 <= j < |text| ==> IsJsWhitespace(text[j])
  {
    var r := RemoveWhitespace(text);
    if r != [] {
      assert r[0] in r;
      assert r[0] in text;
    }
    if j :| 0 <= j < |text| && !IsJsWhitespace(text[j]) {
      assert text[j] in r;
    }
  }

  /** `t` occurs in `a + t + b`, right after `a`. */
  lemma OccursBetween(a: string, t: string, b: string, s: string)
    requires s == a + t + b
    ensures OccursAt(s, t, |a|)
  {
    assert s[|a|..|a| + |t|] == t;
  }

  /** A placeholder path contains the placeholder. */
  lemma PlaceholderPathFindsPlaceholder(p: string)
    requires IsPlaceholderPath(p)
    ensures Includes(p, Placeholder)
  {
    if p == "/" + Placeholder {
      assert OccursAt(p, "/" + Placeholder + "", 0);
      OccursInside(p, "/", Placeholder, "", 0);
    } else {
      assert OccursAt(p, "/" + Placeholder + "/", 0);
      OccursInside(p, "/", Placeholder, "/", 0);
    }
  }

  /** A placeholder href contains the placeholder. */
  lemma PlaceholderHrefFindsPlaceholder(h: string)
    requires IsPlaceholderHref(h)
    ensures Includes(h, Placeholder)
  {
    if Includes(h, "/" + Placeholder) {
      InfixIncludes(h, "/", Placeholder);
    } else if EndsWith(h, Placeholder) {
      OccurrenceIncludes(h, Placeholder);
    } else {
      SuffixIncludes(h, Placeholder, "?h=");
    }
  }

  /**
   * A broken link always shows the placeholder somewhere in its path or href
   * (ignoring case) or has a blank label.
   */
  lemma BrokenShowsPlaceholderOrBlank(pathname: string, href: string, text: string)
    requires IsBrokenSearchLink(pathname, href, text)
    ensures Includes(ToLowerCase(pathname), Placeholder) || Includes(ToLowerCase(href), Placeholder) ||
            forall j :: 0 <= j < |text| ==> IsJsWhitespace(text[j])
  {
    NoVisibleTextIff(text);
    if IsPlaceholderPath(ToLowerCase(pathname)) {
      PlaceholderPathFindsPlaceholder(ToLowerCase(pathname));
    } else if IsPlaceholderHref(ToLowerCase(href)) {
      PlaceholderHrefFindsPlaceholder(ToLowerCase(href));
    }
  }

  /** A blank label, a placeholder path or a `/undefined` in the href each make a link broken. */
  lemma BlankOrPlaceholderIsBroken(pathname: string, href: string, text: string)
    requires (forall j :: 0 <= j < |text| ==> IsJsWhitespace(text[j])) ||
             ToLowerCase(pathname) == "/" + Placeholder || Includes(ToLowerCase(href), "/" + Placeholder)
    ensures IsBrokenSearchLink(pathname, href, text)
  {
    if forall j :: 0 <= j < |text| ==> IsJsWhitespace(text[j]) {
      NoVisibleTextIff(text);
    }
  }

  /** The test ignores letter case in the path and the href. */
  lemma BrokenIgnoresCase(pathname: string, href: string, text: string)
    ensures IsBrokenSearchLink(ToLowerCase(pathname), ToLowerCase(href), text) ==
            IsBrokenSearchLink(pathname, href, text)
  {
    ToLowerCaseIdempotent(pathname);
    ToLowerCaseIdempotent(href);
  }
}
