# Crawl control and naming of the product-image scraper

This project models the core of `main.py`, a Selenium scraper that walks a
product listing page by page, opens every product's detail page and downloads
the product's pictures. The browser, the network and the waits are replaced by
observations given as plain values:

- a listing page either raises (in `driver.get` or the wait for item elements)
  or yields its item elements;
- an item's anchor lookup either raises or yields an optional `href`;
- each of the two openings of a product page either raises (in the wait for
  `picture` elements) or yields its pictures;
- a picture's `img` lookup either raises or yields an optional `src`.

What the model computes from these observations is a log:

- the listing URLs navigated to, in order;
- the product tabs opened;
- the `download_image(url, path)` calls, in order;
- the final value of `product_counter`;
- the number of product tabs an exception left open.

The files:

- `strings.dfy` (module `Strings`) models the Python built-ins the core relies
  on. `str.split` with a non-empty separator is `Split` (first occurrence
  first, inverse `Join`). `str(n)` for a page number or ordinal is `Decimal`
  (inverse `ParseDecimal`).
- `naming.dfy` (module `Naming`) holds the derived names:
  - `base_id`, the field after the first `/product/`;
  - `product_id` and `product_name`, the raw `split('/')[-2]` and `[-1]` of the
    link, with IndexError modelled as `None`;
  - the listing page URL;
  - the image file name.
- `browser.dfy` (module `Browser`) holds the observation datatypes and the
  download request.
- `product_images.dfy` (module `ProductImages`) models `process_product_images`.
  - One image pass is `DownloadPass`, a loop over the pictures.
  - The whole call is `ProcessProductImages`. It runs both passes of the
    original body: the first names files after `base_id`, the second after
    `product_id`.
  - The specification function of the call is `ProductVisit`.
- `crawl.dfy` (module `Crawl`) models `scrape_products`.
  - The page loop is `ScrapeProducts`, with `VisitPage` for one iteration.
  - The item loop is `ProcessItems`, with `ProcessItem` for one item.
  - Each method is proved equal to a specification function: `CrawlLog` over
    `Navigated` pages, `PageLog`, `ItemsLog` and `ItemLog`.

The code is modelled as written, including five behaviours a reader of the
function names might not expect:

- A product page is opened and scanned a second time whenever the first
  opening shows pictures and the link contains "/product/"
  (`ProductVisitOutcome`). When the first wait raises, the first opening shows
  no pictures, or the link lacks "/product/", the page is opened only once.
  Take a canonical link whose second opening shows the same three sourced
  pictures as the first. It yields six download requests, and the second three
  write the same files as the first three (`CanonicalLinkDownloadsTwice`).
- `product_id` and `product_name` are the last two fields of the link with no
  filtering of empty fields. A trailing slash gives an empty name
  (`TrailingSlashEmptyName`).
- An exception inside `process_product_images` does not restore the listing
  tab. The product tab stays open, and `leaked` counts it.
- There is no per-download outcome (saved, skipped, failed) and no statistics
  besides `product_counter`: `download_image` returns nothing.
- A listing page that raises and a listing page without items both just end
  the loop.

The defensive `if not pictures` and `if not divs` checks are kept as modelled
branches (an observation may be an empty list), although a real wait raises
instead of returning an empty list.

## Model

| member | source | states |
|---|---|---|
| Strings.IndexOfFirst | main.py:55 | `IndexOf` finds the first occurrence of the separator: it occurs there, nowhere before, and `None` exactly when it occurs nowhere |
| Strings.SplitJoin | main.py:146-147 | joining the fields of `s.split(sep)` with `sep` gives back `s`, and no field contains `sep` |
| Strings.SplitCharUnique | main.py:146-147 | for a one-character separator, any separator-free fields that join to `s` are exactly `s.split(sep)` |
| Strings.Decimal | main.py:121 | `str(n)` is non-empty, all digits, with no leading zero unless it is "0" |
| Strings.ParseDecimalOfDecimal | main.py:121 | reading `str(n)` back as a number gives `n` |
| Strings.DecimalOfParseDecimal | main.py:121 | every canonical numeral is `str` of its value |
| Strings.DecimalInjective | main.py:121 | different numbers print differently |
| Naming.BaseId | main.py:55 | `base_id` exists (no IndexError) exactly when the link contains "/product/" |
| Naming.BaseIdText | main.py:55 | `base_id` is the text right after the first "/product/", contains no '/', and is followed by '/' or the end of the link |
| Naming.ProductFields | main.py:146-147 | the fields exist (no IndexError from `[-2]`) exactly when the link contains '/' |
| Naming.ProductFieldsShape | main.py:146-147 | the link ends with `product_id + "/" + product_name`, neither contains '/', and `product_id` starts the link or follows a '/'; either may be empty |
| Naming.ProductFieldsOf | main.py:146-147 | conversely, a link `prefix + id + "/" + name` with '/'-free `id` and `name` and `prefix` empty or ending in '/' yields exactly `(id, name)` |
| Naming.TrailingSlashEmptyName | main.py:147 | a link ending in '/' yields an empty product name |
| Naming.CanonicalLinkIds | main.py:55 | for a link `site + "/product/" + id + "/" + name`, `base_id` and `product_id` are both `id` |
| Naming.PageUrl | main.py:121 | the listing URL `target_url + "page=" + str(page_number)`; the function has no contract of its own, and `PageUrlInjective` and `CrawlVisitsPagesInOrder` fix what it means for the crawl |
| Naming.PageUrlInjective | main.py:121 | different page numbers give different listing URLs |
| Naming.Filename | main.py:65 | the image path (written again at main.py:102) `output_dir + "/" + id + "_" + product_name + "_" + str(pic_index + 1) + ".jpg"`; the function has no contract of its own, and `FilenameOrdinal`, `FilenameInjective` and `FilenameCollidesAcrossProducts` fix its meaning |
| Naming.FilenameOrdinal | main.py:65 | the file name of the picture at zero-based position `k` records the ordinal `k + 1` before ".jpg" |
| Naming.FilenameInjective | main.py:102 | two pictures of one product at different positions get different file names |
| Naming.FilenameCollidesAcrossProducts | main.py:102 | for every directory, ordinal and strings `a`, `b`, `c`, the products `(a + "_" + b, c)` and `(a, b + "_" + c)` get the same file name |
| ProductImages.DownloadPass | main.py:58-73 | one image pass requests exactly `PassRequests` of the pictures: pictures in order, one whose lookup raises or whose `src` is missing or empty is skipped |
| ProductImages.SourcedPositions | main.py:58-63 | the positions of the pictures with a source, strictly increasing, every such position listed |
| ProductImages.PassRequestsBySource | main.py:58-66 | a pass makes one request per picture with a source, in picture order, fetching that picture's `src` into the file named after its position |
| ProductImages.PassPathsDistinct | main.py:96-103 | within one pass no two requests write the same file |
| ProductImages.PictureIsolated | main.py:59-73 | whatever one picture does (raise, no source, a source) changes only that picture's own request; earlier and later pictures are requested the same |
| ProductImages.ProductVisit | main.py:36-111 | the product tab is opened once or twice; with no "/product/" in the link nothing is downloaded; a second opening happens only after a first one showed pictures and `base_id` was cut out; an exception after the second opening comes from its wait |
| ProductImages.ProductVisitOutcome | main.py:36-111 | the call raises exactly when the first wait raises, or pictures were found but the link has no "/product/" (the product is abandoned with nothing downloaded), or the second wait raises; it opens the tab a second time exactly when the first opening showed pictures and the base id exists; the first pass's requests then come first, followed by the second pass's when the second opening shows pictures, and nothing else |
| ProductImages.BothPasses | main.py:36-111 | when both openings show pictures and `base_id` exists, the call opens the tab twice, raises nowhere, and requests the first pass (named with `base_id`) followed by the second (named with `product_id`) |
| ProductImages.TwoPasses | main.py:58-103 | the same, request by request: the j-th request of each pass fetches the j-th sourced picture of that opening into the file for its position |
| ProductImages.CanonicalLinkDownloadsTwice | main.py:79-103 | for a canonical link whose two openings show the same pictures, the second pass repeats the first request for request |
| ProductImages.ProcessProductImages | main.py:36-111 | the method's outcome is `ProductVisit`: early return with nothing downloaded when the first opening shows no pictures, exception when a wait raises or "/product/" is missing, otherwise the two passes |
| Crawl.ItemLog | main.py:137-155 | every item bumps `product_counter` by one; an item with no link, or whose link has no '/', opens nothing and requests nothing; a tab is opened exactly when the item has a non-empty link containing '/'; for such a link the item opens exactly the tabs and makes exactly the requests of `ProductVisit` on its `product_id` and `product_name`, and leaves a tab open exactly when that visit raises; at most one tab leaks |
| Crawl.ProcessItem | main.py:137-155 | processing one item yields `ItemLog`: counter first, then the link check, the two fields and the product visit, an exception caught with the tab left open |
| Crawl.ItemsLog | main.py:136-155 | processing a page's items counts exactly the number of items and navigates nowhere |
| Crawl.ProcessItems | main.py:136-155 | the item loop yields `ItemsLog` of the items, in document order |
| Crawl.ItemsLogAppend | main.py:136-155 | processing consecutive runs of items logs the runs one after the other |
| Crawl.ItemIsolated | main.py:141-155 | whatever one item does (anchor raises, no link, no '/' in the link, a product visit that leaves no tab open) changes only that item's part of the log; earlier and later items are processed the same |
| Crawl.VisitPage | main.py:120-155 | one page iteration navigates to the page's URL, then processes the items only when the page loaded and lists some; it reports whether the loop goes on |
| Crawl.FirstStop | main.py:119-134 | the index of the first page that raises or lists no items; every page before it continues |
| Crawl.Navigated | main.py:119-159 | no page when `max_pages <= 0`; otherwise between 1 and `max_pages` pages, all but the last continue, and the last stops the loop when fewer than `max_pages` were navigated |
| Crawl.ScrapeProducts | main.py:114-161 | the page loop yields `CrawlLog` over `Navigated` pages: pages in order, stopping right after the first page that raises or lists no items, or after `max_pages` iterations |
| Crawl.CrawlVisitsPagesInOrder | main.py:116-121 | the k-th URL navigated to is `target_url + "page=" + str(k + 1)`: pages 1, 2, 3, ... with no gap |
| Crawl.CrawlVisitsDistinct | main.py:116-121 | no listing URL is navigated to twice |
| Crawl.CrawlCountsEveryItem | main.py:137-139 | `product_counter` ends at the number of item elements listed on the pages processed |
| Crawl.CrawlReadsOnlyFirstPages | main.py:119-123 | the first m iterations depend on nothing but the first m pages |
| Crawl.RunIgnoresLaterPages | main.py:132-134 | two listings that agree on the pages a run navigates to give the same run: nothing after the stopping page is visited |

## Left out

- Driver construction and Chrome options (main.py:13-22): library configuration with no logic of its own.
- The body of `download_image` (main.py:25-33): the HTTP fetch and the file write are I/O, and the function swallows every error and returns nothing. The model records the call `(url, path)` only.
- Waits and sleeps (the 10- and 20-second `WebDriverWait` timeouts, `time.sleep(0.5)`): time is not modelled. A wait is an observation that either yields elements or raises.
- Window handles (`window.open`, `switch_to.window`, `close`): only the tabs opened and the number left open by an exception are recorded. After a leak the real driver keeps working in the wrong tab. The model does not follow that state. It treats every later observation as given.
- Crawl.ItemIsolated: the isolation holds in the program only until a product tab is left open. An exception inside `process_product_images` skips the close-and-switch, so the driver stays focused on the product tab. The next item's anchor lookup then runs against a listing element of another window, which WebDriver rejects, so the later items are counted but their products are not visited. The model does not track that focus; it takes every later observation as given.
- The product link is spliced into a `window.open('...')` script. A link containing a quote would break that script. Links are taken as opened verbatim.
- `main` (main.py:164-192): environment loading, `exit(1)`, directory creation and `driver.quit()` are process I/O. It calls `scrape_products` with the default `max_pages` of 500, which `ScrapeProducts` takes as a parameter.
- `print` output: the progress and error messages are not modelled.
