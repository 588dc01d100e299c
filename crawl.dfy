/**
  `scrape_products`: walk the listing page by page, starting at page 1, for at
  most `max_pages` pages, and hand every item's link to `process_product_images`.
  The loop stops at the first page whose load or wait raises or that lists no
  items; a failure on one item is caught and the next item is processed.
 */
module Crawl {
  import opened Strings
  import opened Naming
  import opened Browser
  import opened ProductImages

  /**
    What a run leaves behind: the listing URLs navigated to, the product tabs
    opened, the downloads requested (in order), the final `product_counter`, and
    how many product tabs an exception left open.
   */
  datatype Log = Log(visited: seq<string>, tabs: seq<string>, requests: seq<Request>, counter: nat, leaked: nat)
  {
    /** This log followed by `next`. */
    function Then(next: Log): Log {
      Log(visited + next.visited, tabs + next.tabs, requests + next.requests,
          counter + next.counter, leaked + next.leaked)
    }
  }

  const Empty: Log := Log([], [], [], 0, 0)

  /** `if href:` holds: the item's anchor has an `href` and it is not empty. */
  predicate HasLink(item: ListingItem) {
    item.Anchor? && item.href.Some? && item.href.value != ""
  }

  /**
    Processing one listing item (main.py:137-155). Every item bumps the counter,
    whatever becomes of it; an item without a link, or whose link has no '/',
    opens nothing and requests nothing, and an item whose link contains '/'
    makes exactly the visit of that link's product.
   */
  function ItemLog(item: ListingItem, dir: string): (log: Log)
    ensures log.counter == 1 && log.visited == [] && log.leaked <= 1
    ensures !HasLink(item) || '/' !in item.href.value ==>
      log.tabs == [] && log.requests == [] && log.leaked == 0
    ensures log.leaked == 1 ==> log.tabs != []
    ensures log.tabs != [] <==> HasLink(item) && '/' in item.href.value
    ensures HasLink(item) && ProductFields(item.href.value).Some? ==>
      var (productId, productName) := ProductFields(item.href.value).value;
      var v := ProductVisit(item.href.value, productId, productName, dir, item.product);
      log.tabs == v.tabs && log.requests == v.requests && (log.leaked == 1 <==> v.raised)
  {
    if !HasLink(item) then Log([], [], [], 1, 0)
    else
      var href := item.href.value;
      match ProductFields(href)
      case None => Log([], [], [], 1, 0)   // IndexError from split('/')[-2], caught
      case Some((productId, productName)) =>
        var v := ProductVisit(href, productId, productName, dir, item.product);
        Log([], v.tabs, v.requests, 1, if v.raised then 1 else 0)
  }

  /** Processing the items of one page, in order. */
  function ItemsLog(items: seq<ListingItem>, dir: string): (log: Log)
    ensures log.counter == |items| && log.visited == []
    decreases |items|
  {
    if items == [] then Empty
    else ItemsLog(items[..|items| - 1], dir).Then(ItemLog(items[|items| - 1], dir))
  }

  /** A page whose items are processed: it loaded and lists at least one item. */
  predicate Continues(page: ListingLoad) {
    page.ListingRendered? && page.items != []
  }

  /** What the k-th listing page (page number k + 1) shows; pages past the listing raise. */
  function PageAt(pages: seq<ListingLoad>, k: nat): ListingLoad {
    if k < |pages| then pages[k] else ListingRaises
  }

  /** Navigating to page number `n` and, when it continues, processing its items. */
  function PageLog(target: string, dir: string, n: nat, page: ListingLoad): Log {
    var navigation := Log([PageUrl(target, n)], [], [], 0, 0);
    if Continues(page) then navigation.Then(ItemsLog(page.items, dir)) else navigation
  }

  /** The log after the first `m` iterations of the page loop. */
  function CrawlLog(target: string, dir: string, pages: seq<ListingLoad>, m: nat): Log
    decreases m
  {
    if m == 0 then Empty
    else CrawlLog(target, dir, pages, m - 1).Then(PageLog(target, dir, m, PageAt(pages, m - 1)))
  }

  /** The index of the first page that does not continue. */
  function FirstStop(pages: seq<ListingLoad>): (s: nat)
    ensures s <= |pages| && !Continues(PageAt(pages, s))
    ensures forall k :: 0 <= k < s ==> Continues(pages[k])
    decreases |pages|
  {
    if pages == [] || !Continues(pages[0]) then 0
    else
      var rest := FirstStop(pages[1..]);
      assert forall k :: 1 <= k < |pages| ==> pages[1..][k - 1] == pages[k];
      1 + rest
  }

  /**
    How many pages the loop navigates to: none when `max_pages <= 0`; otherwise
    at most `max_pages`, every page before the last one navigated continues, and
    when fewer than `max_pages` were navigated the last one did not continue.
   */
  function Navigated(pages: seq<ListingLoad>, maxPages: int): (m: nat)
    ensures maxPages <= 0 ==> m == 0
    ensures maxPages > 0 ==> 1 <= m <= maxPages
    ensures forall k :: 0 <= k < m - 1 ==> Continues(PageAt(pages, k))
    ensures 0 < m < maxPages ==> !Continues(PageAt(pages, m - 1))
  {
    if maxPages <= 0 then 0
    else if FirstStop(pages) + 1 <= maxPages then FirstStop(pages) + 1
    else maxPages
  }

  /** The first stop is the first page that does not continue. */
  lemma FirstStopAt(pages: seq<ListingLoad>, s: nat)
    requires forall k :: 0 <= k < s ==> Continues(PageAt(pages, k))
    ensures s <= FirstStop(pages)
    ensures !Continues(PageAt(pages, s)) ==> FirstStop(pages) == s
  {
  }

  /** A run that meets a stopping page before `max_pages` navigates up to it and no further. */
  lemma NavigatedStops(pages: seq<ListingLoad>, maxPages: int, n: nat)
    requires n < maxPages && n <= FirstStop(pages)
    requires !Continues(PageAt(pages, n))
    ensures Navigated(pages, maxPages) == n + 1
  {
  }

  /** A run that meets no stopping page navigates to `max_pages` pages. */
  lemma NavigatedAll(pages: seq<ListingLoad>, maxPages: int, n: nat)
    requires n == (if maxPages > 0 then maxPages else 0) && n <= FirstStop(pages)
    ensures Navigated(pages, maxPages) == n
  {
  }

  /** A page that continues lies before the first stop. */
  lemma ContinuesBeforeStop(pages: seq<ListingLoad>, n: nat)
    requires n <= FirstStop(pages) && Continues(PageAt(pages, n))
    ensures n + 1 <= FirstStop(pages)
  {
  }

  /** One more iteration of the page loop appends that page's log. */
  lemma CrawlLogNext(target: string, dir: string, pages: seq<ListingLoad>, n: nat, pageNumber: nat, pageLog: Log)
    requires pageNumber == n + 1 && pageLog == PageLog(target, dir, pageNumber, PageAt(pages, n))
    ensures CrawlLog(target, dir, pages, n).Then(pageLog) == CrawlLog(target, dir, pages, n + 1)
  {
  }

  /**
    One iteration of the item loop (main.py:137-155): count the item, then, in
    the `try`, read its link, cut out the two fields and visit the product. An
    exception is caught here and the product tab it left open stays open.
   */
  method ProcessItem(item: ListingItem, dir: string) returns (log: Log)
    ensures log == ItemLog(item, dir)
  {
    log := Log([], [], [], 1, 0);
    if item.AnchorRaises? || item.href.None? || item.href.value == "" {
      return;
    }
    var href := item.href.value;
    var fields := ProductFields(href);
    if fields.None? {
      // IndexError from split('/')[-2]
      return;
    }
    var (productId, productName) := fields.value;
    var v := ProcessProductImages(href, productId, productName, dir, item.product);
    log := log.(tabs := v.tabs, requests := v.requests, leaked := if v.raised then 1 else 0);
  }

  /** The item loop of one listing page: every item in document order. */
  method ProcessItems(items: seq<ListingItem>, dir: string) returns (log: Log)
    ensures log == ItemsLog(items, dir)
  {
    log := Empty;
    for j := 0 to |items|
      invariant log == ItemsLog(items[..j], dir)
    {
      assert items[..j + 1][..j] == items[..j];
      var itemLog := ProcessItem(items[j], dir);
      log := log.Then(itemLog);
    }
    assert items[..|items|] == items;
  }

  /**
    The `try` block of one iteration of the page loop (main.py:120-155): navigate
    to page `pageNumber`, wait for its items, and process them. `continues` is
    false when the load or the wait raised or no items were found.
   */
  method VisitPage(target: string, dir: string, pageNumber: nat, page: ListingLoad)
    returns (log: Log, continues: bool)
    ensures log == PageLog(target, dir, pageNumber, page)
    ensures continues == Continues(page)
  {
    var pageUrl := PageUrl(target, pageNumber);
    log := Log([pageUrl], [], [], 0, 0);
    if page.ListingRaises? || page.items == [] {
      return log, false;
    }
    var itemsLog := ProcessItems(page.items, dir);
    log := log.Then(itemsLog);
    continues := true;
  }

  /**
    `scrape_products` (main.py:114-161) over the abstract listing: page numbers
    1, 2, ... for at most `max_pages` iterations; stop at the first page that
    raises or lists no items.
   */
  method ScrapeProducts(target: string, dir: string, pages: seq<ListingLoad>, maxPages: int)
    returns (log: Log)
    ensures log == CrawlLog(target, dir, pages, Navigated(pages, maxPages))
  {
    var pageNumber: nat := 1;
    log := Empty;
    var i: nat := 0;
    while i < maxPages
      invariant i <= if maxPages > 0 then maxPages else 0
      invariant pageNumber == i + 1
      invariant i <= FirstStop(pages)
      invariant log == CrawlLog(target, dir, pages, i)
      decreases maxPages - i
    {
      var pageLog, continues := VisitPage(target, dir, pageNumber, PageAt(pages, i));
      CrawlLogNext(target, dir, pages, i, pageNumber, pageLog);
      log := log.Then(pageLog);
      if !continues {
        NavigatedStops(pages, maxPages, i);
        return;
      }
      ContinuesBeforeStop(pages, i);
      pageNumber := pageNumber + 1;
      i := i + 1;
    }
    NavigatedAll(pages, maxPages, i);
  }

  /**
    The k-th URL navigated to is that of page k + 1: pages are visited as
    1, 2, 3, ... with no gap and no repeat.
   */
  lemma {:induction false} CrawlVisitsPagesInOrder(target: string, dir: string, pages: seq<ListingLoad>, m: nat)
    ensures var visited := CrawlLog(target, dir, pages, m).visited;
      |visited| == m && forall k :: 0 <= k < m ==> visited[k] == PageUrl(target, k + 1)
    decreases m
  {
    if m > 0 {
      CrawlVisitsPagesInOrder(target, dir, pages, m - 1);
    }
  }

  /** No listing URL is navigated to twice. */
  lemma CrawlVisitsDistinct(target: string, dir: string, pages: seq<ListingLoad>, m: nat)
    ensures var visited := CrawlLog(target, dir, pages, m).visited;
      forall a, b :: 0 <= a < b < |visited| ==> visited[a] != visited[b]
  {
    CrawlVisitsPagesInOrder(target, dir, pages, m);
    var visited := CrawlLog(target, dir, pages, m).visited;
    forall a, b | 0 <= a < b < |visited| ensures visited[a] != visited[b] {
      PageUrlInjective(target, a + 1, b + 1);
    }
  }

  /** The number of items listed on the first `m` pages that continue. */
  function ListedItems(pages: seq<ListingLoad>, m: nat): nat
    decreases m
  {
    if m == 0 then 0
    else ListedItems(pages, m - 1) + (if Continues(PageAt(pages, m - 1)) then |PageAt(pages, m - 1).items| else 0)
  }

  /** `product_counter` ends at the number of listed items, one per item element. */
  lemma {:induction false} CrawlCountsEveryItem(target: string, dir: string, pages: seq<ListingLoad>, m: nat)
    ensures CrawlLog(target, dir, pages, m).counter == ListedItems(pages, m)
    decreases m
  {
    if m > 0 {
      CrawlCountsEveryItem(target, dir, pages, m - 1);
    }
  }

  /** The first `m` iterations read nothing but the first `m` pages. */
  lemma {:induction false} CrawlReadsOnlyFirstPages(target: string, dir: string, pages: seq<ListingLoad>, other: seq<ListingLoad>, m: nat)
    requires forall k :: 0 <= k < m ==> PageAt(pages, k) == PageAt(other, k)
    ensures CrawlLog(target, dir, pages, m) == CrawlLog(target, dir, other, m)
    decreases m
  {
    if m > 0 {
      CrawlReadsOnlyFirstPages(target, dir, pages, other, m - 1);
    }
  }

  /**
    Nothing past the last page navigated matters: two listings that agree on
    the pages a run navigates to give the same run.
   */
  lemma RunIgnoresLaterPages(target: string, dir: string, pages: seq<ListingLoad>, other: seq<ListingLoad>, maxPages: int)
    requires forall k :: 0 <= k < Navigated(pages, maxPages) ==> PageAt(pages, k) == PageAt(other, k)
    ensures Navigated(other, maxPages) == Navigated(pages, maxPages)
    ensures CrawlLog(target, dir, pages, Navigated(pages, maxPages))
         == CrawlLog(target, dir, other, Navigated(other, maxPages))
  {
    var m := Navigated(pages, maxPages);
    if m > 0 {
      FirstStopAt(other, m - 1);
      if m < maxPages {
        assert FirstStop(other) == m - 1;
      }
    }
    CrawlReadsOnlyFirstPages(target, dir, pages, other, m);
  }

  /** Logging is associative: only the order of the parts matters. */
  lemma ThenAssoc(a: Log, b: Log, c: Log)
    ensures a.Then(b).Then(c) == a.Then(b.Then(c))
  {
  }

  /** Appending nothing leaves a log as it is. */
  lemma ThenEmpty(a: Log)
    ensures a.Then(Empty) == a
  {
  }

  /** Nothing followed by a log is that log. */
  lemma EmptyThen(a: Log)
    ensures Empty.Then(a) == a
  {
  }

  /** Processing consecutive runs of items logs them one run after the other. */
  lemma {:induction false} ItemsLogAppend(xs: seq<ListingItem>, ys: seq<ListingItem>, dir: string)
    ensures ItemsLog(xs + ys, dir) == ItemsLog(xs, dir).Then(ItemsLog(ys, dir))
    decreases |ys|
  {
    if ys == [] {
      assert xs + ys == xs;
      ThenEmpty(ItemsLog(xs, dir));
    } else {
      var n := |ys| - 1;
      var init := ys[..n];
      assert (xs + ys)[..|xs + ys| - 1] == xs + init;
      assert (xs + ys)[|xs + ys| - 1] == ys[n];
      ItemsLogAppend(xs, init, dir);
      var a, b, c := ItemsLog(xs, dir), ItemsLog(init, dir), ItemLog(ys[n], dir);
      calc {
        ItemsLog(xs + ys, dir);
        ItemsLog(xs + init, dir).Then(c);
        a.Then(b).Then(c);
        { ThenAssoc(a, b, c); }
        a.Then(b.Then(c));
        a.Then(ItemsLog(ys, dir));
      }
    }
  }

  /**
    What becomes of one item (its anchor raises, it has no link, its product
    page raises, ...) changes only that item's own part of the log: the items
    before and after it are processed all the same.
   */
  lemma ItemIsolated(items: seq<ListingItem>, j: nat, q: ListingItem, dir: string)
    requires j < |items|
    ensures ItemsLog(items[j := q], dir)
         == ItemsLog(items[..j], dir).Then(ItemLog(q, dir)).Then(ItemsLog(items[j + 1..], dir))
  {
    var changed, before, after := items[j := q], items[..j], items[j + 1..];
    assert changed == (before + [q]) + after;
    assert ItemsLog([q], dir) == Empty.Then(ItemLog(q, dir)) by {
      assert [q][..0] == [];
    }
    EmptyThen(ItemLog(q, dir));
    calc {
      ItemsLog(changed, dir);
      { ItemsLogAppend(before + [q], after, dir); }
      ItemsLog(before + [q], dir).Then(ItemsLog(after, dir));
      { ItemsLogAppend(before, [q], dir); }
      ItemsLog(before, dir).Then(ItemLog(q, dir)).Then(ItemsLog(after, dir));
    }
  }
}
