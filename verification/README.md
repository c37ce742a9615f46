# Search-result locale filter, modelled in Dafny

The documentation site's search box lists results from every language of the
site. A small browser script, `assets/js/search-language-filter.js`, hides
some of them. It hides the results that belong to a language other than the
one of the page being read. It also hides the placeholder results that the
search widget emits for missing entries (`/undefined`, links with no visible
label). After that it hides "more results" blocks and result items that have
nothing left to show, and rewrites the result-count summary ("12 matching
documents") to the number of items still visible. A flag stops the pass from
running again while it is already running.

The project models that script in six modules:

- `JsText` (`js_text.dfy`): the JavaScript string operations the script uses,
  over `string`. They are `split` on one character, `includes`, `startsWith`,
  `endsWith`, ASCII `toLowerCase`, the `\s` class, `replace(/\s+/g, "")` and
  `trim`.
- `Locale` (`locale.dfy`): the locale set, `detectLocaleFromPathname`,
  `getCurrentLocale`, and `hasLocaleSegment`. The regular expression
  `(?:^|/)L(?:/|$)` is modelled as a search over positions, and it is proved
  equal to "`L` is one of the `/`-pieces".
- `Classifier` (`classifier.dfy`): `toPathname`'s fallback, `isAllowedPath`
  and `isBrokenSearchLink`, with characterisation lemmas for each rule.
- `MetaCount` (`meta_count.dfy`): the text rewrite of
  `updateSearchMetaCount`. It covers the first `\d+` run or else the first
  `#`, `String(n)`, and the write-only-if-changed rule.
- `SearchFilter` (`search_filter.dfy`): the page as objects whose display
  state the pass updates in place. There are classes `Link`, `MoreBlock`,
  `Item` and `Document`, and `SearchResultFilter` carries the `isFiltering`
  flag. The three loops of `filterSearchResults` are methods with loop
  invariants. `updateSearchMetaCount` is a method on the summary text.
- `ClassifierExamples` and `FilterExamples`: concrete cases the filter is
  meant to handle. On a Russian page `/ru/guide` is allowed while `/de/guide`
  and `/guide` are not; placeholder links and blank labels are broken; the
  loose match lets `/guide/de` count as German; a German page `/de/x` shows
  the result `/de/x` and hides `/en/y` and `/de/undefined`; and a second pass
  right after a first changes nothing.

The locale match is kept as loose as the script writes it. A locale code in
any segment of the path or of the raw href counts, so `/guide/de` is a German
page (`ClassifierExamples.LooseMatchAnySegment`).

Where a plain reading of the filter's purpose and its code differ, the model follows the code:

- Only result links that have an `href` attribute are classified. The script
  selects `.md-search-result__link[href]`, so a link without one keeps its
  display state. Blocks and items still count it among their links when they
  ask whether a link is visible.
- The summary is left alone when the page has no result item, even if it
  holds a number or a `#`.
- With the default locale active, a path without a locale segment is allowed
  only if its raw href carries no foreign locale marker either.

## Model

| member | source | states |
|---|---|---|
| `Locale.NonDefaultLocalesAreTheOthers` | assets/js/search-language-filter.js:2-4 | the non-default locales are exactly the locales other than `en` |
| `Locale.NonEmpty` | assets/js/search-language-filter.js:10-12 | `filter(Boolean)` keeps exactly the non-empty segments |
| `Locale.NonEmptyAppend` | assets/js/search-language-filter.js:10-12 | `filter(Boolean)` keeps the order: filtering a concatenation is filtering each part and concatenating |
| `Locale.NonEmptyOne` | assets/js/search-language-filter.js:10-12 | on a single segment, `filter(Boolean)` drops it exactly when it is empty; with the previous row this fixes the result, order and repetitions included |
| `Locale.FindLocale` | assets/js/search-language-filter.js:14 | `find` returns a locale that is among the segments, and nothing exactly when no segment is a locale |
| `Locale.FindLocaleIsFirst` | assets/js/search-language-filter.js:14 | `find` returns the locale at the first position that holds one |
| `Locale.FindLocaleSkipsEmpty` | assets/js/search-language-filter.js:10-14 | dropping empty segments never changes what `find` returns |
| `Locale.DetectLocaleFromPathname` | assets/js/search-language-filter.js:9-16 | the detected locale is a locale and a `/`-segment of the path; there is none exactly when no segment is a locale |
| `Locale.DetectFindsFirstLocaleSegment` | assets/js/search-language-filter.js:9-16 | detection returns the first segment, in path order, that is a locale |
| `Locale.CurrentLocale` | assets/js/search-language-filter.js:18-20 | the active locale is always a locale: the detected one when there is one (a segment of the path), `en` otherwise |
| `Locale.StripQueryAndFragment` | assets/js/search-language-filter.js:31 | the value cut at its first `#` and then its first `?`: a prefix with neither character, ending right before one of them |
| `Locale.MarkerFrom` | assets/js/search-language-filter.js:32-33 | the regular-expression search succeeds exactly when some position holds the code with `^` or `/` before it and `/` or `$` after it |
| `Locale.MarkerIsSegment` | assets/js/search-language-filter.js:32-33 | a code without `/` occurs delimited by `^`/`/` and `/`/`$` exactly when it is one of the `split("/")` pieces |
| `Locale.HasLocaleSegment` | assets/js/search-language-filter.js:30-34 | `hasLocaleSegment(v, L)` holds exactly when `L` is one of the `/`-pieces of `v` cut at its first `#` and `?`; a later segment counts as much as the first |
| `JsText.IndexOf` | assets/js/search-language-filter.js:31 | the first occurrence of the separator, or the length when there is none |
| `JsText.Split` | assets/js/search-language-filter.js:10-11 | `split` on one character never gives an empty list, its first piece runs up to the first separator, and no piece holds the separator |
| `JsText.JoinSplit` | assets/js/search-language-filter.js:10-11 | splitting loses nothing: joining the pieces with the separator gives the input back |
| `JsText.Includes` | assets/js/search-language-filter.js:55 | `includes(t)` holds exactly when `t` occurs at some position |
| `JsText.OccurrenceIncludes` | assets/js/search-language-filter.js:51-55 | a string that starts or ends with `t` includes it |
| `JsText.RemoveWhitespace` | assets/js/search-language-filter.js:59 | `replace(/\s+/g, "")` keeps exactly the characters that are not whitespace, and never lengthens the text |
| `JsText.RemoveWhitespaceAppend` | assets/js/search-language-filter.js:59 | the removal keeps the order: on a concatenation it is the removal on each part, concatenated |
| `JsText.RemoveWhitespaceOne` | assets/js/search-language-filter.js:59 | on a single character, the removal drops it exactly when it is whitespace; with the previous row this fixes the result |
| `JsText.ToLowerCase` | assets/js/search-language-filter.js:48-49 | lowering keeps the length, lowers each character and leaves no capital letter |
| `JsText.ToLowerCaseIdempotent` | assets/js/search-language-filter.js:48-49 | lowering twice is lowering once |
| `JsText.Trim` | assets/js/search-language-filter.js:79 | `trim` gives the empty string exactly for all-whitespace input, never keeps whitespace at either end, and leaves trimmed text alone |
| `JsText.TrimIsInfix` | assets/js/search-language-filter.js:79 | what `trim` keeps is a piece of the input with only whitespace before and after it |
| `Classifier.ToPathname` | assets/js/search-language-filter.js:22-28 | when the URL parser throws, the pathname is the raw href |
| `Classifier.HasLocale` | assets/js/search-language-filter.js:38 | `hasLocale(L)` holds exactly when `L` is the detected locale of the path or one of the `/`-pieces of the path or of the href, each cut at its query and fragment |
| `Classifier.HasForeignLocale` | assets/js/search-language-filter.js:41 | `NON_DEFAULT_LOCALES.some(hasLocale)` holds exactly when the path's detected locale is a locale other than `en`, or some locale other than `en` is a piece of the path or of the href |
| `Classifier.IsAllowedPath` | assets/js/search-language-filter.js:36-45 | with `en` active, a link is allowed exactly when the detected locale is none or `en` and no other locale is a piece of the path or of the href; with another locale active, exactly when that locale is detected or is a piece of the path or of the href |
| `Classifier.DefaultRejectsForeignSegment` | assets/js/search-language-filter.js:40-41 | with `en` active, a path with a foreign-locale segment is rejected |
| `Classifier.DefaultAllowsUnmarked` | assets/js/search-language-filter.js:40-41 | with `en` active, a path without foreign-locale segments is allowed when its href, cut at its query and fragment, has none either |
| `Classifier.NoVisibleTextIff` | assets/js/search-language-filter.js:59-60 | the label is blank exactly when every character of it is whitespace |
| `Classifier.IsBrokenSearchLink` | assets/js/search-language-filter.js:47-61 | a link is broken exactly when its lowered path is `/undefined` or lies under `/undefined/`, its lowered href contains `/undefined` or ends with `undefined` or `undefined?h=`, or its label is whitespace only |
| `Classifier.PlaceholderPathFindsPlaceholder` | assets/js/search-language-filter.js:51 | a placeholder path contains `undefined` |
| `Classifier.PlaceholderHrefFindsPlaceholder` | assets/js/search-language-filter.js:55 | a placeholder href contains `undefined` |
| `Classifier.BrokenShowsPlaceholderOrBlank` | assets/js/search-language-filter.js:47-61 | a broken link has `undefined` in its lowered path or href, or a blank label |
| `Classifier.BlankOrPlaceholderIsBroken` | assets/js/search-language-filter.js:47-61 | a blank label, a lowered path equal to `/undefined`, or `/undefined` in the lowered href each make a link broken |
| `Classifier.BrokenIgnoresCase` | assets/js/search-language-filter.js:48-49 | lowering the path and the href first does not change the verdict |
| `ClassifierExamples.RuAllowsRuPath` | assets/js/search-language-filter.js:36-45 | with `ru` active, `/ru/guide` is allowed |
| `ClassifierExamples.DeGuideIsGerman` | assets/js/search-language-filter.js:9-16 | `/de/guide` is detected as `de` |
| `ClassifierExamples.RuRejectsDePath` | assets/js/search-language-filter.js:36-45 | with `ru` active, `/de/guide` is rejected |
| `ClassifierExamples.RuRejectsUnmarkedPath` | assets/js/search-language-filter.js:36-45 | `/guide` has no detected locale, and with `ru` active it is rejected |
| `ClassifierExamples.DefaultAllowsUnmarkedPath` | assets/js/search-language-filter.js:40-41 | with `en` active, `/guide` is allowed |
| `ClassifierExamples.LooseMatchAnySegment` | assets/js/search-language-filter.js:30-45 | `/guide/de` is allowed for `de` and rejected for `en`: a locale in any segment counts |
| `ClassifierExamples.PlaceholderPathIsBroken` | assets/js/search-language-filter.js:51 | a path that lowers to `/undefined` is broken whatever its label |
| `ClassifierExamples.PathUnderPlaceholderIsBroken` | assets/js/search-language-filter.js:51 | a path that lowers to one under `/undefined/` is broken whatever its label |
| `ClassifierExamples.PlaceholderQueryIsBroken` | assets/js/search-language-filter.js:55 | an href that lowers to one ending in `undefined?h=` is broken whatever its label |
| `ClassifierExamples.BlankLabelIsBroken` | assets/js/search-language-filter.js:59-60 | a link labelled only with spaces, tabs and newlines is broken |
| `ClassifierExamples.LabelledLinkIsNotBroken` | assets/js/search-language-filter.js:47-61 | the link `/en/intro` labelled `Result` is not broken |
| `MetaCount.FirstDigitIndex` | assets/js/search-language-filter.js:82-83 | where the leftmost `\d+` starts: no digit before it, a digit there, and the end of the text exactly when there is no digit |
| `MetaCount.DigitRunEnd` | assets/js/search-language-filter.js:83 | the greedy `\d+` ends at the first non-digit after its start |
| `MetaCount.DecimalString` | assets/js/search-language-filter.js:83 | `String(n)` is a non-empty string of digits with no leading zero |
| `MetaCount.DecimalRoundTrip` | assets/js/search-language-filter.js:83 | `String(n)` reads back as `n` |
| `MetaCount.ReplaceFirstDigitRun` | assets/js/search-language-filter.js:83 | `replace(/\d+/, rep)` puts `rep` where the leftmost number stood, taking the number whole, and keeps the text before and after it |
| `MetaCount.ReplaceFirstHash` | assets/js/search-language-filter.js:85 | `replace("#", rep)` puts `rep` where the first `#` stood and keeps the text before and after it |
| `MetaCount.NextText` | assets/js/search-language-filter.js:80-86 | there is no next text (`null`) exactly when the trimmed text has no digit and no `#`; a next text always contains the count |
| `MetaCount.MetaUpdate` | assets/js/search-language-filter.js:79-90 | a text that is written differs from the trimmed current text, and its first number is `String(visibleItems)` |
| `MetaCount.RewriteSpan` | assets/js/search-language-filter.js:82-86 | the rewrite replaces the first digit run, or else the first `#` (with no `#` before it), by the count and keeps everything around it |
| `MetaCount.RewriteStaysTrimmed` | assets/js/search-language-filter.js:79-89 | replacing an inner span of trimmed text by digits leaves it trimmed |
| `MetaCount.RewriteIsFixedPoint` | assets/js/search-language-filter.js:82-86 | rewriting the rewritten text with the same count changes nothing, and its first number is the count |
| `MetaCount.MetaUpdateSettles` | assets/js/search-language-filter.js:79-90 | once the new summary is written, a second update with the same count writes nothing |
| `MetaCount.MetaUpdateShowsCount` | assets/js/search-language-filter.js:78-89 | after a write, the summary's first number reads back as the number of visible items |
| `MetaCount.NextTextKeepsIff` | assets/js/search-language-filter.js:80-88 | the rewrite leaves the text alone exactly when it has no number and no `#`, or its first number already is the count |
| `MetaCount.MetaUpdateNoneIff` | assets/js/search-language-filter.js:79-90 | nothing is written exactly when the trimmed summary has no number and no `#`, or its first number already is `String(visibleItems)` |
| `SearchFilter.CountVisible` | assets/js/search-language-filter.js:78 | the visible count is the number of positions that hold a visible item; hence at most the number of items, zero exactly when none is visible, all exactly when all are |
| `SearchFilter.CountVisibleUnchanged` | assets/js/search-language-filter.js:78 | the count depends only on the items' display state |
| `SearchFilter.ShowLink` | assets/js/search-language-filter.js:107-109 | a shown link has a label with a visible character and no placeholder in its path or href; on a non-`en` page it carries that page's locale, and on an `en` page its href carries no other locale |
| `SearchFilter.AnyVisible` | assets/js/search-language-filter.js:115 | `some(isVisible)` holds exactly when some position holds a visible link, and never for no links |
| `SearchFilter.ShowBlock` | assets/js/search-language-filter.js:116 | a block is hidden exactly when it has links and none of them is visible |
| `SearchFilter.Document.Locale` | assets/js/search-language-filter.js:101 | the pass's locale is a locale |
| `SearchFilter.Document.FilterLinks` | assets/js/search-language-filter.js:104-110 | each link with an `href` ends up shown exactly when allowed and not broken; links without one are untouched |
| `SearchFilter.Document.FilterMoreBlocks` | assets/js/search-language-filter.js:112-117 | each "more results" block ends up hidden exactly when it has links and none is visible |
| `SearchFilter.Document.FilterItems` | assets/js/search-language-filter.js:119-124 | each item ends up shown exactly when one of its links is visible, so an item without links is hidden |
| `SearchFilter.Document.UpdateSearchMetaCount` | assets/js/search-language-filter.js:67-91 | with a summary and at least one item, the summary becomes the rewritten text and one write is counted exactly when the text changes; afterwards a further update would write nothing |
| `SearchFilter.Document.FilterNodes` | assets/js/search-language-filter.js:101-124 | after the three loops every link, block and item follows its rule, and on a page that already follows them nothing changes |
| `SearchFilter.Document.FilteredNodesStayFiltered` | assets/js/search-language-filter.js:104-124 | nodes whose display state does not change stay filtered |
| `SearchFilter.Document.ApplyFilter` | assets/js/search-language-filter.js:100-126 | the pass leaves a filtered page and a summary rewritten from its old text and the final count; on a filtered page it changes nothing and writes nothing |
| `SearchFilter.SearchResultFilter.FilterSearchResults` | assets/js/search-language-filter.js:93-130 | a call while the flag is raised changes nothing; otherwise the pass runs and the flag is lowered again afterwards |
| `FilterExamples.GermanPathAllowed` | assets/js/search-language-filter.js:36-45 | `/de/x` is allowed on a German page |
| `FilterExamples.GermanResultShown` | assets/js/search-language-filter.js:104-109 | on a German page the labelled result `/de/x` is shown |
| `FilterExamples.EnglishResultHidden` | assets/js/search-language-filter.js:104-109 | on a German page the result `/en/y` is hidden |
| `FilterExamples.PlaceholderResultHidden` | assets/js/search-language-filter.js:104-109 | on a German page the result `/de/undefined` is hidden although it is German |
| `FilterExamples.GermanPageLocale` | assets/js/search-language-filter.js:18-20 | the page `/de/x` has the active locale `de` |
| `FilterExamples.ThreeResultPass` | assets/js/search-language-filter.js:93-130 | a pass over a three-result page shows each link by the link rule and each block and item by its links |
| `FilterExamples.GermanPagePass` | assets/js/search-language-filter.js:93-130 | on `/de/x` with results `/de/x`, `/en/y`, `/de/undefined`, only the first is shown, its item is shown, the item holding only `/en/y` is hidden, and so is the block holding only the placeholder |
| `FilterExamples.FilterTwice` | assets/js/search-language-filter.js:93-130 | a second pass right after a first leaves every display state and the summary as they were, and writes no summary text |

## Left out

- URL resolution inside `toPathname` (`new URL(href, origin).pathname`) is the browser's parser. Each link carries the pathname the parser would give, or `None` when it throws. The fallback to the raw href is modelled.
- `isVisible` reads the computed style, which stylesheets can affect. The model takes each element's own display state, the boolean the pass sets, as its visibility.
- `scheduleFilterSearchResults`, `startObserver`, the `MutationObserver`, `requestAnimationFrame`, the `isScheduled` coalescing flag and the `DOMContentLoaded` wiring are left out. They are event-loop scheduling around the pass. A nested call of the pass is modelled as a call made while the `isFiltering` flag is raised.
- `querySelector`/`querySelectorAll`: the page is a fixed set of links, blocks and items. The tree does not change while a pass runs, and blocks and items hold result links of the same page.
- `try`/`finally`: nothing in the modelled pass can throw, since URL parsing is an input. The flag is therefore lowered after the pass completes.
- `String(x || "")` and `link.textContent || ""`: the model takes strings. An absent value is the empty string, and a link without an `href` attribute is not selected at all.
- `metaWrites` is a ghost counter of writes to the summary text. It stands for the DOM write, which the script makes only when the text changes.
- `assets/js/external-links.js` is not part of this model. It is host comparison on browser-parsed URLs and attribute setting on anchors.
- `JsText.ToLowerCase`: lowers only the letters `A` to `Z`, not all of Unicode. The only other code point whose lower case holds one of the letters of `undefined` is U+0130, and it lowers to `i` followed by U+0307, which cannot be followed by the `n` of `undefined`. The placeholder tests therefore give the same verdicts.
- `Locale.HasLocaleSegment`: defined only for the site's locale codes. The script builds its regular expression from such codes only, and none of them holds a character that is special in a regular expression.
- Strings are sequences of Unicode scalar values, while JavaScript strings are sequences of UTF-16 code units. A character outside the Basic Multilingual Plane is one element here and two in JavaScript. The filter only looks for ASCII text and whitespace and compares a length with zero, so its verdicts are the same.
- `JsText.IsJsWhitespace` is the ECMAScript WhiteSpace and LineTerminator set written out as code points. It is not derived from the Unicode database.
