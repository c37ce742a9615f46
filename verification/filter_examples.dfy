/**
 * The link rule of the filter pass on a German page: a German result is
 * shown, an English one and a placeholder result are hidden.
 */
module FilterExamples {
  import opened Wrappers
  import opened JsText
  import opened Locale
  import opened Classifier
  import opened ClassifierExamples
  import opened SearchFilter

  /** A short lower-case path is not a broken link when it is labelled. */
  lemma ShortLabelledIsNotBroken(h: string, text: string)
    requires |h| < 9 && forall i :: 0 <= i < |h| ==> 'a' <= h[i] <= 'z' || h[i] == '/'
    requires |text| >= 1 && !IsJsWhitespace(text[0])
    ensures !IsBrokenSearchLink(h, h, text)
  {
    LowerOfLower(h);
    assert !IsPlaceholderPath(h) by {
      assert |h| < |"/" + Placeholder|;
    }
    assert !IsPlaceholderHref(h) by {
      assert |h| < |Placeholder|;
      assert !Includes(h, "/" + Placeholder);
    }
    NoVisibleTextIff(text);
  }

  /** The pieces of the plain path `/de/x`. */
  lemma DeXPieces(p: string)
    requires p == "/de/x"
    ensures StripQueryAndFragment(p) == p && Split(p, '/') == ["", "de", "x"]
  {
    PlainTwoSegments(p, "de", "x");
  }

  /** The pieces of the plain path `/en/y`. */
  lemma EnYPieces(p: string)
    requires p == "/en/y"
    ensures StripQueryAndFragment(p) == p && Split(p, '/') == ["", "en", "y"]
  {
    PlainTwoSegments(p, "en", "y");
  }

  /** `/de/x` is allowed on a German page. */
  lemma GermanPathAllowed(h: string)
    requires h == "/de/x"
    ensures IsAllowedPath(h, "de", h)
  {
    DeXPieces(h);
    LeadingLocaleDetected(h, "de", "x");
  }

  /** On a German page the result `/de/x` labelled `A` is shown. */
  lemma GermanResultShown(h: string, caption: string, locale: string)
    requires h == "/de/x" && caption == "A" && locale == "de"
    ensures ShowLink(h, Some(h), caption, locale)
  {
    GermanPathAllowed(h);
    GermanLinkNotBroken(h, caption);
    ShownWhenAllowedAndWhole(h, caption, locale);
  }

  /** The result `/de/x` labelled `A` is not broken. */
  lemma GermanLinkNotBroken(h: string, caption: string)
    requires h == "/de/x" && caption == "A"
    ensures !IsBrokenSearchLink(h, h, caption)
  {
    ShortLabelledIsNotBroken(h, caption);
  }

  /** A link that the URL parser reads as its own href is shown when it is allowed and not broken. */
  lemma ShownWhenAllowedAndWhole(h: string, text: string, locale: string)
    requires locale in Locales
    requires IsAllowedPath(h, locale, h) && !IsBrokenSearchLink(h, h, text)
    ensures ShowLink(h, Some(h), text, locale)
  {
  }

  /** On a German page the result `/en/y` is hidden: it belongs to the English pages. */
  lemma EnglishResultHidden(h: string, caption: string, locale: string)
    requires h == "/en/y" && caption == "A" && locale == "de"
    ensures !ShowLink(h, Some(h), caption, locale)
  {
    EnYPieces(h);
    LeadingLocaleDetected(h, "en", "y");
    MarkedOnlyByPieces(h, "de", ["", "en", "y"]);
    RejectedWithoutMarker(h, "de");
  }

  /** On a German page the placeholder result `/de/undefined` is hidden although it is German. */
  lemma PlaceholderResultHidden(h: string, caption: string, locale: string)
    requires h == "/de/undefined" && caption == "A" && locale == "de"
    ensures !ShowLink(h, Some(h), caption, locale)
  {
    DeUndefinedIsLower(h);
    DeUndefinedHoldsPlaceholder(h);
    BlankOrPlaceholderIsBroken(h, h, caption);
  }

  /** `/de/undefined` has no capitals. */
  lemma DeUndefinedIsLower(h: string)
    requires h == "/de/undefined"
    ensures ToLowerCase(h) == h
  {
    LowerOfLower(h);
  }

  /** `/de/undefined` holds `/undefined` after `/de`. */
  lemma DeUndefinedHoldsPlaceholder(h: string)
    requires h == "/de/undefined"
    ensures Includes(h, "/" + Placeholder)
  {
    assert h == "/de" + ("/" + Placeholder) + "";
    OccursBetween("/de", "/" + Placeholder, "", h);
  }

  /** The German page `/de/x` has the active locale `de`. */
  lemma GermanPageLocale(p: string)
    requires p == "/de/x"
    ensures CurrentLocale(p) == "de"
  {
    DeXPieces(p);
    LeadingLocaleDetected(p, "de", "x");
  }

  /**
   * A page at `page` with three result links `h1`, `h2`, `h3` labelled
   * `caption`: a first item holding `h1` and, in its "more results" block,
   * `h3`; a second item holding `h2` alone.
   */
  method NewThreeResultPage(page: string, h1: string, h2: string, h3: string, caption: string)
      returns (doc: Document)
    ensures fresh(doc) && doc.Valid() && doc.locationPathname == page && doc.meta.None?
    ensures |doc.links| == 3 && |doc.moreBlocks| == 1 && |doc.items| == 2
    ensures fresh(doc.links[0]) && fresh(doc.links[1]) && fresh(doc.links[2])
    ensures fresh(doc.moreBlocks[0]) && fresh(doc.items[0]) && fresh(doc.items[1])
    ensures doc.links[0].href == Some(h1) && doc.links[1].href == Some(h2) && doc.links[2].href == Some(h3)
    ensures forall l :: l in doc.links ==> l.parsedPathname == l.href && l.text == caption
    ensures doc.moreBlocks[0].links == [doc.links[2]]
    ensures doc.items[0].links == [doc.links[0], doc.links[2]]
    ensures doc.items[1].links == [doc.links[1]]
  {
    var l1 := new Link(Some(h1), Some(h1), caption, false);
    var l2 := new Link(Some(h2), Some(h2), caption, true);
    var l3 := new Link(Some(h3), Some(h3), caption, true);
    var block := new MoreBlock([l3], true);
    var item1 := new Item([l1, l3], false);
    var item2 := new Item([l2], true);
    doc := new Document(page, [l1, l2, l3], [block], [item1, item2], None);
  }

  /**
   * A whole pass over that page: each link ends up shown by the link rule,
   * each container by its links.
   */
  method ThreeResultPass(page: string, h1: string, h2: string, h3: string, caption: string)
      returns (l1: Link, l2: Link, l3: Link, block: MoreBlock, item1: Item, item2: Item)
    ensures l1.visible == ShowLink(h1, Some(h1), caption, CurrentLocale(page))
    ensures l2.visible == ShowLink(h2, Some(h2), caption, CurrentLocale(page))
    ensures l3.visible == ShowLink(h3, Some(h3), caption, CurrentLocale(page))
    ensures block.visible == l3.visible
    ensures item1.visible == (l1.visible || l3.visible)
    ensures item2.visible == l2.visible
  {
    var doc := NewThreeResultPage(page, h1, h2, h3, caption);
    l1, l2, l3 := doc.links[0], doc.links[1], doc.links[2];
    block, item1, item2 := doc.moreBlocks[0], doc.items[0], doc.items[1];
    var filter := new SearchResultFilter(doc);
    filter.FilterSearchResults();
    assert l1.visible == ShowLink(h1, Some(h1), caption, CurrentLocale(page)) &&
           l2.visible == ShowLink(h2, Some(h2), caption, CurrentLocale(page)) &&
           l3.visible == ShowLink(h3, Some(h3), caption, CurrentLocale(page)) by {
      assert doc.LinksFiltered() && l1 in doc.links && l2 in doc.links && l3 in doc.links;
    }
    assert block.visible == l3.visible by {
      assert doc.BlocksFiltered() && block in doc.moreBlocks;
      AnyVisibleOfOne(l3);
    }
    assert item1.visible == (l1.visible || l3.visible) by {
      assert doc.ItemsFiltered() && item1 in doc.items;
      AnyVisibleOfTwo(l1, l3);
    }
    assert item2.visible == l2.visible by {
      assert doc.ItemsFiltered() && item2 in doc.items;
      AnyVisibleOfOne(l2);
    }
  }

  /** Two links: one of them is visible. */
  lemma AnyVisibleOfTwo(a: Link, b: Link)
    ensures AnyVisible([a, b]) == (a.visible || b.visible)
  {
    assert a in [a, b] && b in [a, b];
  }

  /** One link: it is visible. */
  lemma AnyVisibleOfOne(a: Link)
    ensures AnyVisible([a]) == a.visible
  {
    assert a in [a];
  }

  /**
   * On the German page `/de/x`, with the results `/de/x`, `/en/y` and
   * `/de/undefined`, only the first stays visible; the item holding it stays
   * visible, while the item holding only `/en/y` and the "more results"
   * block holding only the placeholder are hidden.
   */
  method GermanPagePass(de: string, en: string, undef: string, caption: string)
      returns (german: bool, english: bool, placeholder: bool,
               firstItem: bool, secondItem: bool, moreBlock: bool)
    requires de == "/de/x" && en == "/en/y" && undef == "/de/undefined" && caption == "A"
    ensures german && !english && !placeholder
    ensures firstItem && !secondItem && !moreBlock
  {
    var l1, l2, l3, block, item1, item2 := ThreeResultPass(de, de, en, undef, caption);
    ghost var locale := CurrentLocale(de);
    assert locale == "de" by {
      GermanPageLocale(de);
    }
    GermanResultShown(de, caption, locale);
    EnglishResultHidden(en, caption, locale);
    PlaceholderResultHidden(undef, caption, locale);
    german, english, placeholder := l1.visible, l2.visible, l3.visible;
    firstItem, secondItem, moreBlock := item1.visible, item2.visible, block.visible;
  }

  /** What a page shows: the display state of each link, block and item, and the summary text. */
  datatype Display = Display(links: seq<bool>, blocks: seq<bool>, items: seq<bool>, meta: Option<string>)

  function DisplayOf(doc: Document): Display
    reads doc, doc.links, doc.moreBlocks, doc.items
  {
    Display(seq(|doc.links|, i requires 0 <= i < |doc.links| reads doc.links => doc.links[i].visible),
            seq(|doc.moreBlocks|, i requires 0 <= i < |doc.moreBlocks| reads doc.moreBlocks => doc.moreBlocks[i].visible),
            seq(|doc.items|, i requires 0 <= i < |doc.items| reads doc.items => doc.items[i].visible),
            doc.meta)
  }

  /**
   * Two passes in a row, with no change to the page between them: the second
   * leaves the page showing exactly what the first left, and writes no
   * summary text.
   */
  method FilterTwice(filter: SearchResultFilter) returns (first: Display, second: Display, ghost firstWrites: nat)
    requires filter.doc.Valid() && !filter.isFiltering
    modifies filter, filter.doc, filter.doc.links, filter.doc.moreBlocks, filter.doc.items
    ensures second == first
    ensures !filter.isFiltering
    ensures filter.doc.metaWrites == firstWrites
  {
    var doc := filter.doc;
    filter.FilterSearchResults();
    first := DisplayOf(doc);
    firstWrites := doc.metaWrites;
    label once:
    filter.FilterSearchResults();
    assert doc.Unchanged@once();
    UnchangedKeepsDisplay@once(doc);
    second := DisplayOf(doc);
  }

  /** A page whose display state did not change shows the same. */
  twostate lemma UnchangedKeepsDisplay(doc: Document)
    requires doc.Unchanged()
    ensures DisplayOf(doc) == old(DisplayOf(doc))
  {
    assert DisplayOf(doc).links == old(DisplayOf(doc)).links;
    assert DisplayOf(doc).blocks == old(DisplayOf(doc)).blocks;
    assert DisplayOf(doc).items == old(DisplayOf(doc)).items;
  }
}
