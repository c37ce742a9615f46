/**
 * Locale detection: which of the site's locales a path names, the active
 * locale of the page, and the loose "locale marker" test that the filter
 * applies to result paths and raw hrefs.
 */
module Locale {
  import opened Wrappers
  import opened JsText

  const DefaultLocale: string := "en"
  const Locales: seq<string> := ["en", "ru", "de", "pt", "cs"]
  /** `LOCALES` without the default, in the same order. */
  const NonDefaultLocales: seq<string> := ["ru", "de", "pt", "cs"]

  lemma NonDefaultLocalesAreTheOthers()
    ensures forall l :: l in NonDefaultLocales <==> l in Locales && l != DefaultLocale
  {
  }

  /** `segments.filter(Boolean)`: the non-empty segments, in order. */
  function NonEmpty(segs: seq<string>): (r: seq<string>)
    ensures forall x :: x in r <==> x in segs && x != ""
  {
    if segs == [] then []
    else if segs[0] == "" then NonEmpty(segs[1..])
    else [segs[0]] + NonEmpty(segs[1..])
  }

  /** `filter(Boolean)` keeps the order: filtering a concatenation filters each part. */
  lemma {:induction false} NonEmptyAppend(a: seq<string>, b: seq<string>)
    ensures NonEmpty(a + b) == NonEmpty(a) + NonEmpty(b)
  {
    if a == [] {
      assert a + b == b;
    } else {
      assert (a + b)[0] == a[0];
      assert (a + b)[1..] == a[1..] + b;
      NonEmptyAppend(a[1..], b);
    }
  }

  /** On one segment, `filter(Boolean)` drops it exactly when it is empty. */
  lemma NonEmptyOne(x: string)
    ensures NonEmpty([x]) == if x == "" then [] else [x]
  {
  }

  /** `segs.find((segment) => localeSet.has(segment))`, with `undefined` as `None`. */
  function FindLocale(segs: seq<string>): (r: Option<string>)
    ensures r.Some? ==> r.value in Locales && r.value in segs
    ensures r.None? <==> forall x :: x in segs ==> x !in Locales
  {
    if segs == [] then None
    else if segs[0] in Locales then Some(segs[0])
    else FindLocale(segs[1..])
  }

  /** `find` returns the locale at the first position that holds one. */
  lemma {:induction false} FindLocaleIsFirst(segs: seq<string>, i: nat)
    requires i < |segs| && segs[i] in Locales
    requires forall j :: 0 <= j < i ==> segs[j] !in Locales
    ensures FindLocale(segs) == Some(segs[i])
  {
    if i > 0 {
      FindLocaleIsFirst(segs[1..], i - 1);
    }
  }

  /** Dropping empty segments never changes what `find` returns: no locale is empty. */
  lemma {:induction false} FindLocaleSkipsEmpty(segs: seq<string>)
    ensures FindLocale(NonEmpty(segs)) == FindLocale(segs)
  {
    if segs != [] {
      FindLocaleSkipsEmpty(segs[1..]);
      if segs[0] != "" {
        assert ([segs[0]] + NonEmpty(segs[1..]))[1..] == NonEmpty(segs[1..]);
      }
    }
  }

  /**
   * `detectLocaleFromPathname`: the first `/`-separated segment of the path
   * that is a locale, or `None` (the script's `null`).
   */
  function DetectLocaleFromPathname(pathname: string): (r: Option<string>)
    ensures r == FindLocale(Split(pathname, '/'))
    ensures r.Some? ==> r.value in Locales && r.value in Split(pathname, '/')
    ensures r.None? <==> forall seg :: seg in Split(pathname, '/') ==> seg !in Locales
  {
    FindLocaleSkipsEmpty(Split(pathname, '/'));
    FindLocale(NonEmpty(Split(pathname, '/')))
  }

  /** The locale detected is the one in the first segment that names a locale. */
  lemma DetectFindsFirstLocaleSegment(pathname: string, i: nat)
    requires i < |Split(pathname, '/')| && Split(pathname, '/')[i] in Locales
    requires forall j :: 0 <= j < i ==> Split(pathname, '/')[j] !in Locales
    ensures DetectLocaleFromPathname(pathname) == Some(Split(pathname, '/')[i])
  {
    FindLocaleIsFirst(Split(pathname, '/'), i);
  }

  /** `getCurrentLocale`, given `window.location.pathname`: the detected locale, else the default. */
  function CurrentLocale(locationPathname: string): (r: string)
    ensures r in Locales
    ensures DetectLocaleFromPathname(locationPathname).None? ==> r == DefaultLocale
    ensures DetectLocaleFromPathname(locationPathname).Some? ==>
              r == DetectLocaleFromPathname(locationPathname).value && r in Split(locationPathname, '/')
  {
    DetectLocaleFromPathname(locationPathname).GetOr(DefaultLocale)
  }

  /**
   * `String(value).split("#")[0].split("?")[0]`: the part of `value` before
   * its first `#`, cut again before its first `?`.
   */
  function StripQueryAndFragment(value: string): (r: string)
    ensures r <= value
    ensures '#' !in r && '?' !in r
    ensures |r| < |value| ==> value[|r|] == '#' || value[|r|] == '?'
  {
    var beforeHash := Split(value, '#')[0];
    var r := Split(beforeHash, '?')[0];
    assert r == value[..|r|];
    r
  }

  /**
   * Where the regular expression `(?:^|/)L(?:/|$)` can place the locale code
   * `L` in `s`: at position `i`, with the start of the string or a `/` just
   * before it and a `/` or the end of the string just after it.
   */
  predicate MarkerAt(s: string, locale: string, i: nat)
  {
    OccursAt(s, locale, i) &&
    (i == 0 || s[i - 1] == '/') &&
    (i + |locale| == |s| || s[i + |locale|] == '/')
  }

  /** The regular expression's search, trying every position from `i` rightwards. */
  function MarkerFrom(s: string, locale: string, i: nat): (b: bool)
    requires i <= |s|
    ensures b <==> exists j: nat :: i <= j <= |s| && MarkerAt(s, locale, j)
    decreases |s| - i
  {
    if MarkerAt(s, locale, i) then true
    else if i == |s| then false
    else MarkerFrom(s, locale, i + 1)
  }

  /**
   * `hasLocaleSegment(value, locale)`: the regular expression test on the
   * value stripped of its query and fragment. Read as a statement about
   * segments, it holds exactly when the code is one of the `/`-separated
   * pieces of the stripped value; it is not tied to the first segment, so
   * `/guide/de` carries `de`.
   */
  function HasLocaleSegment(value: string, locale: string): (b: bool)
    requires locale in Locales
    ensures b <==> locale in Split(StripQueryAndFragment(value), '/')
  {
    MarkerIsSegment(StripQueryAndFragment(value), locale);
    MarkerFrom(StripQueryAndFragment(value), locale, 0)
  }

  /** In a string without `/` the only delimited occurrence is the whole string. */
  lemma MarkerWithoutSlash(s: string, t: string, i: nat)
    requires IndexOf(s, '/') == |s|
    ensures MarkerAt(s, t, i) <==> i == 0 && t == s
  {
    if MarkerAt(s, t, i) {
      assert i == 0;
      assert i + |t| == |s|;
    }
  }

  /** A delimited occurrence that starts before the first `/` is the first piece. */
  lemma MarkerBeforeFirstSlash(s: string, t: string, i: nat)
    requires IndexOf(s, '/') < |s| && i <= IndexOf(s, '/')
    requires '/' !in t
    ensures MarkerAt(s, t, i) <==> i == 0 && t == s[..IndexOf(s, '/')]
  {
    var k := IndexOf(s, '/');
    if MarkerAt(s, t, i) {
      assert i == 0;
      assert |t| == k;
    }
  }

  /** Past the first `/`, delimited occurrences are those of the rest of the string, shifted. */
  lemma MarkerAfterFirstSlash(s: string, t: string, k: nat, j: nat)
    requires k < |s| && s[k] == '/'
    ensures MarkerAt(s[k + 1..], t, j) <==> MarkerAt(s, t, k + 1 + j)
  {
    var rest := s[k + 1..];
    var i := k + 1 + j;
    assert |rest| == |s| - k - 1;
    if j + |t| <= |rest| {
      assert rest[j..j + |t|] == s[i..i + |t|];
      assert j + |t| < |rest| ==> rest[j + |t|] == s[i + |t|];
    }
    if 0 < j <= |rest| {
      assert rest[j - 1] == s[i - 1];
    }
  }

  /**
   * A delimited occurrence of `t` in `s` is exactly one of the pieces that
   * `s.split("/")` yields, when `t` itself has no `/`.
   */
  lemma {:induction false} MarkerIsSegment(s: string, t: string)
    requires '/' !in t
    ensures t in Split(s, '/') <==> exists i: nat :: MarkerAt(s, t, i)
    decreases |s|
  {
    var k := IndexOf(s, '/');
    if k == |s| {
      assert Split(s, '/') == [s];
      if t == s {
        MarkerWithoutSlash(s, t, 0);
      }
      if i: nat :| MarkerAt(s, t, i) {
        MarkerWithoutSlash(s, t, i);
      }
    } else {
      MarkerIsSegment(s[k + 1..], t);
      MarkerIsSegmentStep(s, t, k, s[k + 1..]);
    }
  }

  /** The step of `MarkerIsSegment` past the first `/`, given the claim for the rest of the string. */
  lemma MarkerIsSegmentStep(s: string, t: string, k: nat, rest: string)
    requires '/' !in t
    requires k == IndexOf(s, '/') < |s| && rest == s[k + 1..]
    requires t in Split(rest, '/') <==> exists j: nat :: MarkerAt(rest, t, j)
    ensures t in Split(s, '/') <==> exists i: nat :: MarkerAt(s, t, i)
  {
    if t in Split(s, '/') {
      SplitStep(s, k, rest);
      MarkerOfSegment(s, t, k, rest);
    }
    if i: nat :| MarkerAt(s, t, i) {
      SegmentOfMarker(s, t, k, rest, i);
    }
  }

  /** A delimited occurrence in `s` is the first piece or a delimited occurrence in the rest. */
  lemma SegmentOfMarker(s: string, t: string, k: nat, rest: string, i: nat)
    requires '/' !in t
    requires k == IndexOf(s, '/') < |s| && rest == s[k + 1..]
    requires forall j: nat :: MarkerAt(rest, t, j) ==> t in Split(rest, '/')
    requires MarkerAt(s, t, i)
    ensures t in Split(s, '/')
  {
    if i <= k {
      SegmentOfFirstMarker(s, t, i);
    } else {
      var j: nat := i - k - 1;
      assert MarkerAt(rest, t, j) by {
        MarkerAfterFirstSlash(s, t, k, j);
      }
      SegmentInRest(s, t, k, rest);
    }
  }

  /** A delimited occurrence before the first `/` is the first piece. */
  lemma SegmentOfFirstMarker(s: string, t: string, i: nat)
    requires '/' !in t
    requires IndexOf(s, '/') < |s| && i <= IndexOf(s, '/')
    requires MarkerAt(s, t, i)
    ensures t in Split(s, '/')
  {
    MarkerBeforeFirstSlash(s, t, i);
    assert Split(s, '/')[0] == t;
  }

  /** A piece of the rest of the string is a piece of the string. */
  lemma SegmentInRest(s: string, t: string, k: nat, rest: string)
    requires k == IndexOf(s, '/') < |s| && rest == s[k + 1..]
    requires t in Split(rest, '/')
    ensures t in Split(s, '/')
  {
    SplitStep(s, k, rest);
  }

  lemma SplitStep(s: string, k: nat, rest: string)
    requires k == IndexOf(s, '/') < |s| && rest == s[k + 1..]
    ensures Split(s, '/') == [s[..k]] + Split(rest, '/')
  {
  }

  lemma MarkerOfSegment(s: string, t: string, k: nat, rest: string)
    requires '/' !in t
    requires k == IndexOf(s, '/') < |s| && rest == s[k + 1..]
    requires t == s[..k] || exists j: nat :: MarkerAt(rest, t, j)
    ensures exists i: nat :: MarkerAt(s, t, i)
  {
    if t == s[..k] {
      MarkerBeforeFirstSlash(s, t, 0);
    } else {
      var j: nat :| MarkerAt(rest, t, j);
      MarkerAfterFirstSlash(s, t, k, j);
    }
  }
}
