/**
  What the scraper observes through the browser, as plain values. The browser,
  the network and the waits are replaced by these observations: each `driver.get`
  / `WebDriverWait(...).until` pair and each element lookup either raises or
  yields what the page shows.
 */
module Browser {
  import opened Strings

  /**
    One `picture` element of a detail page: looking up its `img` (or reading the
    attribute) raises, or it yields the `src` attribute, None when absent.
   */
  datatype Picture = ImgRaises | Img(src: Option<string>)

  /**
    A detail page after it was opened in a new tab: the wait for `picture`
    elements raised (it times out when there are none), or the pictures that
    `find_elements` returned, in document order.
   */
  datatype DetailLoad = DetailRaises | DetailRendered(pictures: seq<Picture>)

  /**
    The product page as each of its two openings shows it. The page is opened
    once per image pass, and the two openings may see different pages.
   */
  datatype ProductPage = ProductPage(first: DetailLoad, second: DetailLoad)

  /**
    One listing item element: looking up its anchor (or reading `href`) raises,
    or it yields the `href` attribute, None when absent, together with the product
    page that link leads to.
   */
  datatype ListingItem = AnchorRaises | Anchor(href: Option<string>, product: ProductPage)

  /**
    A listing page: `driver.get` or the wait for item elements raised (the wait
    times out when there are none), or the item elements that `find_elements`
    returned.
   */
  datatype ListingLoad = ListingRaises | ListingRendered(items: seq<ListingItem>)

  /** A call `download_image(url, path)`. */
  datatype Request = Request(url: string, path: string)
}
