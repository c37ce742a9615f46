/**
 * The filter pass over the search results: each result link is shown only
 * when it is allowed for the active locale and not broken, each "more
 * results" block and each result item is shown according to its links, and
 * the result-count summary is rewritten. The document is a fixed tree of
 * nodes whose display state the pass updates in place.
 */
module SearchFilter {
  import opened Wrappers
  import opened JsText
  import opened Locale
  import opened Classifier
  import opened MetaCount

  /** A `.md-search-result__link` element. */
  class Link {
    /** The `href` attribute, `None` when the element has none. */
    const href: Option<string>
    /** The pathname the browser's URL parser gives for `href`, `None` when it throws. */
    const parsedPathname: Option<string>
    /** The element's `textContent`. */
    const text: string
    /** Whether its display is anything but `none`. */
    var visible: bool

    constructor (href: Option<string>, parsedPathname: Option<string>, text: string, visible: bool)
      ensures this.href == href && this.parsedPathname == parsedPathname
      ensures this.text == text && this.visible == visible
    {
      this.href := href;
      this.parsedPathname := parsedPathname;
      this.text := text;
      this.visible := visible;
    }
  }

  /** A `details.md-search-result__more` block and the result links inside it. */
  class MoreBlock {
    const links: seq<Link>
    var visible: bool

    constructor (links: seq<Link>, visible: bool)
      ensures this.links == links && this.visible == visible
    {
      this.links := links;
      this.visible := visible;
    }
  }

  /** A `.md-search-result__item` and the result links inside it. */
  class Item {
    const links: seq<Link>
    var visible: bool

    constructor (links: seq<Link>, visible: bool)
      ensures this.links == links && this.visible == visible
    {
      this.links := links;
      this.visible := visible;
    }
  }

  /**
   * The body of the pass's first loop: whether a link whose `href` attribute
   * is `href` is shown for the active locale. A shown link has a visible
   * label and no placeholder in its path or href; on a page in a non-default
   * locale it carries that locale, and on a default-locale page its href
   * carries no foreign one.
   */
  function ShowLink(href: string, parsedPathname: Option<string>, text: string, locale: string): (b: bool)
    requires locale in Locales
    ensures b ==> exists j :: 0 <= j < |text| && !IsJsWhitespace(text[j])
    ensures b ==> !IsPlaceholderPath(ToLowerCase(ToPathname(href, parsedPathname))) &&
                  !IsPlaceholderHref(ToLowerCase(href))
    ensures b && locale != DefaultLocale ==>
              var pathname := ToPathname(href, parsedPathname);
              DetectLocaleFromPathname(pathname) == Some(locale) ||
              MarkedSegment(pathname, locale) || MarkedSegment(href, locale)
    ensures b && locale == DefaultLocale ==> forall l :: l in NonDefaultLocales ==> !MarkedSegment(href, l)
  {
    var pathname := ToPathname(href, parsedPathname);
    IsAllowedPath(pathname, locale, href) && !IsBrokenSearchLink(pathname, href, text)
  }

  /** `links.some(isVisible)`: some position holds a visible link; never so for no links. */
  function AnyVisible(links: seq<Link>): (b: bool)
    reads links
    ensures b <==> exists k :: 0 <= k < |links| && links[k].visible
    ensures links == [] ==> !b
  {
    exists l :: l in links && l.visible
  }

  /** A "more results" block is hidden exactly when it has links and none of them is visible. */
  function ShowBlock(block: MoreBlock): (b: bool)
    reads block.links
    ensures !b <==> |block.links| > 0 && forall l :: l in block.links ==> !l.visible
  {
    |block.links| == 0 || AnyVisible(block.links)
  }

  /** `items.filter(isVisible).length`: the number of positions that hold a visible item. */
  function CountVisible(items: seq<Item>): (n: nat)
    reads items
    ensures n == |set k | 0 <= k < |items| && items[k].visible|
    ensures n <= |items|
    ensures n == 0 <==> forall k :: 0 <= k < |items| ==> !items[k].visible
    ensures n == |items| <==> forall k :: 0 <= k < |items| ==> items[k].visible
  {
    if items == [] then 0
    else
      var last := |items| - 1;
      var init := items[..last];
      VisiblePositionsSplit(items);
      assert forall k :: 0 <= k < last ==> init[k] == items[k];
      CountVisible(init) + (if items[last].visible then 1 else 0)
  }

  /** The visible positions are those among all but the last item, plus the last one when it is visible. */
  lemma VisiblePositionsSplit(items: seq<Item>)
    requires items != []
    ensures var last := |items| - 1;
            |set k | 0 <= k < |items| && items[k].visible| ==
            |set k | 0 <= k < last && items[..last][k].visible| + (if items[last].visible then 1 else 0)
  {
    var last := |items| - 1;
    var init := items[..last];
    var before := set k | 0 <= k < last && init[k].visible;
    assert last !in before;
    assert (set k | 0 <= k < |items| && items[k].visible) ==
           before + (if items[last].visible then {last} else {});
  }

  /** The visible count depends on nothing but the items' display state. */
  twostate lemma CountVisibleUnchanged(items: seq<Item>)
    requires forall it :: it in items ==> it.visible == old(it.visible)
    ensures CountVisible(items) == old(CountVisible(items))
  {
    if items != [] {
      CountVisibleUnchanged(items[..|items| - 1]);
    }
  }

  /** The part of the page the filter reads and writes. */
  class Document {
    /** `window.location.pathname`. */
    const locationPathname: string
    /** Every result link of the page, in document order (with and without `href`). */
    const links: seq<Link>
    const moreBlocks: seq<MoreBlock>
    const items: seq<Item>
    /** The `textContent` of the `.md-search-result__meta` element, `None` when there is none. */
    var meta: Option<string>
    /** How many times the summary text has been written. */
    ghost var metaWrites: nat

    constructor (locationPathname: string, links: seq<Link>, moreBlocks: seq<MoreBlock>,
                 items: seq<Item>, meta: Option<string>)
      ensures this.locationPathname == locationPathname && this.links == links
      ensures this.moreBlocks == moreBlocks && this.items == items
      ensures this.meta == meta && metaWrites == 0
    {
      this.locationPathname := locationPathname;
      this.links := links;
      this.moreBlocks := moreBlocks;
      this.items := items;
      this.meta := meta;
      metaWrites := 0;
    }

    /** The links inside blocks and items are result links of the page, as in a DOM tree. */
    ghost predicate Valid()
    {
      (forall b :: b in moreBlocks ==> forall l :: l in b.links ==> l in links) &&
      (forall it :: it in items ==> forall l :: l in it.links ==> l in links)
    }

    /** The active locale of the page. */
    function Locale(): (r: string)
      ensures r in Locales
    {
      CurrentLocale(locationPathname)
    }

    /** Every link with an `href` is shown exactly when it is allowed and not broken. */
    ghost predicate LinksFiltered()
      reads links
    {
      forall l :: l in links && l.href.Some? ==>
        l.visible == ShowLink(l.href.value, l.parsedPathname, l.text, Locale())
    }

    /** Every "more results" block is shown according to its links. */
    ghost predicate BlocksFiltered()
      requires Valid()
      reads (set l | l in links), moreBlocks
    {
      forall b :: b in moreBlocks ==> b.visible == ShowBlock(b)
    }

    /** Every item is shown exactly when one of its links is visible. */
    ghost predicate ItemsFiltered()
      requires Valid()
      reads (set l | l in links), items
    {
      forall it :: it in items ==> it.visible == AnyVisible(it.links)
    }

    /**
     * The text the next summary update writes, `None` when it writes nothing:
     * there is no summary element, no item, or the text would stay as it is.
     */
    ghost function PendingMeta(): Option<string>
      reads this, items
    {
      if meta.Some? && |items| > 0 then MetaUpdate(meta.value, CountVisible(items)) else None
    }

    /** The next summary update writes nothing. */
    ghost predicate MetaSettled()
      reads this, items
    {
      PendingMeta().None?
    }

    /**
     * The state a filter pass leaves behind: every link with an `href` shown
     * exactly when allowed and not broken, every block and item shown
     * according to its links, and a summary that the next update leaves alone.
     */
    ghost predicate Filtered()
      requires Valid()
      reads this, (set l | l in links), moreBlocks, items
    {
      LinksFiltered() && BlocksFiltered() && ItemsFiltered() && MetaSettled()
    }

    /** No link, block or item changed its display state since the old state. */
    twostate predicate DisplayUnchanged()
      reads (set l | l in links), moreBlocks, items
    {
      && (forall l :: l in links ==> l.visible == old(l.visible))
      && (forall b :: b in moreBlocks ==> b.visible == old(b.visible))
      && (forall it :: it in items ==> it.visible == old(it.visible))
    }

    /** No display state and no summary text changed since the old state. */
    twostate predicate Unchanged()
      reads this, (set l | l in links), moreBlocks, items
    {
      meta == old(meta) && metaWrites == old(metaWrites) && DisplayUnchanged()
    }

    /**
     * The first loop of the pass: each link with an `href` is shown exactly
     * when its path is allowed for `locale` and the link is not broken; links
     * without an `href` are not touched.
     */
    method FilterLinks(locale: string)
      requires locale in Locales
      modifies links
      ensures forall l :: l in links ==>
                l.visible == if l.href.Some? then ShowLink(l.href.value, l.parsedPathname, l.text, locale)
                             else old(l.visible)
    {
      var i := 0;
      while i < |links|
        invariant 0 <= i <= |links|
        invariant forall l :: l in links[..i] && l.href.Some? ==>
                    l.visible == ShowLink(l.href.value, l.parsedPathname, l.text, locale)
        invariant forall l :: l in links && (l !in links[..i] || l.href.None?) ==> l.visible == old(l.visible)
      {
        var link := links[i];
        assert links[..i + 1] == links[..i] + [link];
        if link.href.Some? {
          link.visible := ShowLink(link.href.value, link.parsedPathname, link.text, locale);
        }
        i := i + 1;
      }
      assert links[..i] == links;
    }

    /**
     * The second loop: each "more results" block is hidden exactly when it
     * has links and none of them is visible.
     */
    method FilterMoreBlocks()
      modifies moreBlocks
      ensures forall b :: b in moreBlocks ==> b.visible == ShowBlock(b)
    {
      var j := 0;
      while j < |moreBlocks|
        invariant 0 <= j <= |moreBlocks|
        invariant forall b :: b in moreBlocks[..j] ==> b.visible == ShowBlock(b)
      {
        var block := moreBlocks[j];
        assert moreBlocks[..j + 1] == moreBlocks[..j] + [block];
        var hasVisibleLink := AnyVisible(block.links);
        block.visible := !(|block.links| > 0 && !hasVisibleLink);
        j := j + 1;
      }
      assert moreBlocks[..j] == moreBlocks;
    }

    /** The third loop: each item is shown exactly when one of its links is visible. */
    method FilterItems()
      modifies items
      ensures forall it :: it in items ==> it.visible == AnyVisible(it.links)
    {
      var k := 0;
      while k < |items|
        invariant 0 <= k <= |items|
        invariant forall it :: it in items[..k] ==> it.visible == AnyVisible(it.links)
      {
        var item := items[k];
        assert items[..k + 1] == items[..k] + [item];
        var hasVisibleLink := AnyVisible(item.links);
        item.visible := hasVisibleLink;
        k := k + 1;
      }
      assert items[..k] == items;
    }

    /**
     * `updateSearchMetaCount`: with a summary element and at least one item,
     * rewrite the summary's number (or `#`) to the count of visible items,
     * writing only when the text changes.
     */
    method UpdateSearchMetaCount()
      modifies this`meta, this`metaWrites
      ensures meta == (if old(PendingMeta()).Some? then old(PendingMeta()) else old(meta))
      ensures metaWrites == old(metaWrites) + (if old(PendingMeta()).Some? then 1 else 0)
      ensures MetaSettled()
    {
      if meta.None? {
        return;
      }
      var totalItems := |items|;
      if totalItems == 0 {
        return;
      }
      var visibleItems := CountVisible(items);
      var update := MetaUpdate(meta.value, visibleItems);
      assert update == PendingMeta();
      if update.Some? {
        MetaUpdateSettles(meta.value, visibleItems);
        meta := update;
        metaWrites := metaWrites + 1;
        assert CountVisible(items) == visibleItems;
        assert MetaUpdate(update.value, visibleItems) == None;
      }
    }

    /**
     * What a filter pass leaves behind, against the state before it: a
     * filtered document; links without an `href` as they were; the summary
     * rewritten from its old text and the final visible count, written once
     * exactly when the text changes; and, on a document that was filtered
     * already, nothing changed at all.
     */
    twostate predicate PassDone()
      requires Valid()
      reads this, (set l | l in links), moreBlocks, items
    {
      && Filtered()
      && (forall l :: l in links && l.href.None? ==> l.visible == old(l.visible))
      && (var next := if old(meta).Some? && |items| > 0
                      then MetaUpdate(old(meta).value, CountVisible(items)) else None;
          && meta == (if next.Some? then next else old(meta))
          && metaWrites == old(metaWrites) + (if next.Some? then 1 else 0))
      && (old(Filtered()) ==> Unchanged())
    }

    /**
     * The three loops of the pass: links, then "more results" blocks, then
     * items. On nodes that are filtered already they change nothing.
     */
    method FilterNodes()
      requires Valid()
      modifies links, moreBlocks, items
      ensures LinksFiltered() && BlocksFiltered() && ItemsFiltered()
      ensures forall l :: l in links && l.href.None? ==> l.visible == old(l.visible)
      ensures old(LinksFiltered() && BlocksFiltered() && ItemsFiltered()) ==> DisplayUnchanged()
    {
      FilterLinks(CurrentLocale(locationPathname));
      FilterMoreBlocks();
      FilterItems();
      if old(LinksFiltered() && BlocksFiltered() && ItemsFiltered()) {
        assert forall l :: l in links ==> l.visible == old(l.visible);
        assert forall b :: b in moreBlocks ==> ShowBlock(b) == old(ShowBlock(b));
        assert forall it :: it in items ==> AnyVisible(it.links) == old(AnyVisible(it.links));
      }
    }

    /**
     * The body of the pass: the three loops, then the summary. The result is
     * a filtered document; on a document that is filtered already it changes
     * nothing.
     */
    method ApplyFilter()
      requires Valid()
      modifies links, moreBlocks, items, this`meta, this`metaWrites
      ensures PassDone()
    {
      FilterNodes();
      if old(Filtered()) {
        CountVisibleUnchanged(items);
        assert PendingMeta() == None;
      }
      label nodesFiltered:
      UpdateSearchMetaCount();
      assert DisplayUnchanged@nodesFiltered();
      FilteredNodesStayFiltered@nodesFiltered();
      CountVisibleUnchanged@nodesFiltered(items);
    }

    /** Nodes that keep their display state stay filtered. */
    twostate lemma FilteredNodesStayFiltered()
      requires Valid()
      requires old(LinksFiltered() && BlocksFiltered() && ItemsFiltered())
      requires DisplayUnchanged()
      ensures LinksFiltered() && BlocksFiltered() && ItemsFiltered()
    {
      assert forall b :: b in moreBlocks ==> ShowBlock(b) == old(ShowBlock(b));
      assert forall it :: it in items ==> AnyVisible(it.links) == old(AnyVisible(it.links));
    }
  }

  /** The search filter of one page, with its re-entrancy flag. */
  class SearchResultFilter {
    const doc: Document
    var isFiltering: bool

    constructor (doc: Document)
      requires doc.Valid()
      ensures this.doc == doc && !isFiltering
    {
      this.doc := doc;
      isFiltering := false;
    }

    /**
     * `filterSearchResults`. A call made while a pass is running returns at
     * once. Otherwise the flag is raised, the pass runs, and the flag is
     * cleared again (the script's `finally`).
     */
    method FilterSearchResults()
      requires doc.Valid()
      modifies this, doc, doc.links, doc.moreBlocks, doc.items
      ensures old(isFiltering) ==> isFiltering && doc.Unchanged()
      ensures !old(isFiltering) ==> !isFiltering && doc.PassDone()
    {
      if isFiltering {
        return;
      }
      ghost var wasFiltered := doc.Filtered();
      isFiltering := true;
      assert doc.Filtered() == wasFiltered;
      doc.ApplyFilter();
      ghost var count := CountVisible(doc.items);
      isFiltering := false;
      assert doc.Filtered() && CountVisible(doc.items) == count;
    }
  }
}
