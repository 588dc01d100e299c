/**
  `process_product_images`: open the product page in a new tab, wait for its
  pictures, and request one download per picture that has a source. The body of
  the original runs this twice: the first pass names files after the base id cut
  from "/product/<id>", the second after the product id taken from the listing
  link.
 */
module ProductImages {
  import opened Strings
  import opened Naming
  import opened Browser

  /** `if img_url:` holds: the picture has a `src` attribute and it is not empty. */
  predicate HasSource(p: Picture) {
    p.Img? && p.src.Some? && p.src.value != ""
  }

  /** The download a picture at zero-based position `index` asks for, if any. */
  function PictureRequest(p: Picture, dir: string, id: string, name: string, index: nat): seq<Request> {
    if HasSource(p) then [Request(p.src.value, Filename(dir, id, name, index))] else []
  }

  /**
    The downloads one pass requests for `pictures`, the first of which stands at
    position `base` on the page.
   */
  function PassRequestsFrom(pictures: seq<Picture>, dir: string, id: string, name: string, base: nat): seq<Request>
    decreases |pictures|
  {
    if pictures == [] then []
    else
      var n := |pictures| - 1;
      PassRequestsFrom(pictures[..n], dir, id, name, base) + PictureRequest(pictures[n], dir, id, name, base + n)
  }

  /** The downloads one pass over a detail page's pictures requests. */
  function PassRequests(pictures: seq<Picture>, dir: string, id: string, name: string): seq<Request> {
    PassRequestsFrom(pictures, dir, id, name, 0)
  }

  /**
    One image pass (main.py:58-73, main.py:96-107): pictures are visited in order;
    one whose `img` lookup raises is skipped, and so is one without a source.
   */
  method DownloadPass(pictures: seq<Picture>, dir: string, id: string, name: string)
    returns (requests: seq<Request>)
    ensures requests == PassRequests(pictures, dir, id, name)
  {
    requests := [];
    for index := 0 to |pictures|
      invariant requests == PassRequests(pictures[..index], dir, id, name)
    {
      assert pictures[..index + 1][..index] == pictures[..index];
      match pictures[index]
      case ImgRaises =>
        // the exception is caught and reported; the loop goes on
      case Img(src) =>
        if src.Some? && src.value != "" {
          requests := requests + [Request(src.value, Filename(dir, id, name, index))];
        }
    }
    assert pictures[..|pictures|] == pictures;
  }

  /**
    The positions of the pictures that have a source, in increasing order: every
    listed position has a source and every position with a source is listed.
   */
  function SourcedPositions(pictures: seq<Picture>): (ks: seq<nat>)
    ensures forall j :: 0 <= j < |ks| ==> ks[j] < |pictures| && HasSource(pictures[ks[j]])
    ensures forall a, b :: 0 <= a < b < |ks| ==> ks[a] < ks[b]
    ensures forall k :: 0 <= k < |pictures| && HasSource(pictures[k]) ==> k in ks
    decreases |pictures|
  {
    if pictures == [] then []
    else
      var n := |pictures| - 1;
      var init := SourcedPositions(pictures[..n]);
      assert forall k :: 0 <= k < n ==> pictures[..n][k] == pictures[k];
      init + (if HasSource(pictures[n]) then [n] else [])
  }

  /**
    A pass requests one download per picture with a source, in picture order:
    the j-th request fetches the j-th such picture's source into the file named
    after that picture's position.
   */
  lemma {:induction false} PassRequestsBySource(pictures: seq<Picture>, dir: string, id: string, name: string)
    ensures var r, ks := PassRequests(pictures, dir, id, name), SourcedPositions(pictures);
      && |r| == |ks|
      && forall j :: 0 <= j < |r| ==>
           r[j] == Request(pictures[ks[j]].src.value, Filename(dir, id, name, ks[j]))
    decreases |pictures|
  {
    if pictures != [] {
      var n := |pictures| - 1;
      var init := pictures[..n];
      PassRequestsBySource(init, dir, id, name);
      var r, ks := PassRequests(pictures, dir, id, name), SourcedPositions(pictures);
      var r0, ks0 := PassRequests(init, dir, id, name), SourcedPositions(init);
      assert r == r0 + PictureRequest(pictures[n], dir, id, name, n);
      assert ks == ks0 + (if HasSource(pictures[n]) then [n] else []);
      forall j | 0 <= j < |r0|
        ensures r[j] == Request(pictures[ks[j]].src.value, Filename(dir, id, name, ks[j]))
      {
        assert r[j] == r0[j] && ks[j] == ks0[j] && init[ks0[j]] == pictures[ks0[j]];
      }
    }
  }

  /** Within one pass no two requests write the same file. */
  lemma PassPathsDistinct(pictures: seq<Picture>, dir: string, id: string, name: string)
    ensures var r := PassRequests(pictures, dir, id, name);
      forall a, b :: 0 <= a < b < |r| ==> r[a].path != r[b].path
  {
    PassRequestsBySource(pictures, dir, id, name);
    var r, ks := PassRequests(pictures, dir, id, name), SourcedPositions(pictures);
    forall a, b | 0 <= a < b < |r| ensures r[a].path != r[b].path {
      FilenameInjective(dir, id, name, ks[a], ks[b]);
    }
  }

  /** The requests for consecutive runs of pictures are each run's requests, one run after the other. */
  lemma {:induction false} PassRequestsAppend(xs: seq<Picture>, ys: seq<Picture>, dir: string, id: string, name: string, base: nat)
    ensures PassRequestsFrom(xs + ys, dir, id, name, base)
         == PassRequestsFrom(xs, dir, id, name, base) + PassRequestsFrom(ys, dir, id, name, base + |xs|)
    decreases |ys|
  {
    if ys != [] {
      var n := |ys| - 1;
      assert (xs + ys)[..|xs| + n] == xs + ys[..n];
      PassRequestsAppend(xs, ys[..n], dir, id, name, base);
    } else {
      assert xs + ys == xs;
    }
  }

  /**
    What happens to one picture (it raises, has no source, or has one) changes
    only that picture's own request: the pictures before it and after it are
    requested all the same.
   */
  lemma PictureIsolated(pictures: seq<Picture>, k: nat, q: Picture, dir: string, id: string, name: string)
    requires k < |pictures|
    ensures PassRequests(pictures[k := q], dir, id, name)
         == PassRequests(pictures[..k], dir, id, name)
          + PictureRequest(q, dir, id, name, k)
          + PassRequestsFrom(pictures[k + 1..], dir, id, name, k + 1)
  {
    var changed, before, after := pictures[k := q], pictures[..k], pictures[k + 1..];
    assert changed == (before + [q]) + after;
    assert |before + [q]| == k + 1;
    assert PassRequestsFrom([q], dir, id, name, k) == PictureRequest(q, dir, id, name, k) by {
      assert [q][..0] == [];
    }
    calc {
      PassRequests(changed, dir, id, name);
      PassRequestsFrom((before + [q]) + after, dir, id, name, 0);
      { PassRequestsAppend(before + [q], after, dir, id, name, 0); }
      PassRequestsFrom(before + [q], dir, id, name, 0) + PassRequestsFrom(after, dir, id, name, k + 1);
      { PassRequestsAppend(before, [q], dir, id, name, 0); }
      PassRequests(before, dir, id, name) + PictureRequest(q, dir, id, name, k) + PassRequestsFrom(after, dir, id, name, k + 1);
    }
  }

  /**
    The outcome of one call of `process_product_images`: the product tabs it
    opened (each one the product link), the downloads it requested, and whether
    it raised. An exception leaves the product tab open and focused.
   */
  datatype Visit = Visit(tabs: seq<string>, requests: seq<Request>, raised: bool)

  /**
    `process_product_images(driver, href, product_id, product_name, output_dir)`
    on a product page that shows `page`. The first pass stops the whole call when
    it finds no pictures; `base_id` is only cut out after the first wait and that
    check, and raises when the link has no "/product/".
   */
  function ProductVisit(href: string, productId: string, name: string, dir: string, page: ProductPage): (v: Visit)
    ensures v.tabs == [href] || v.tabs == [href, href]
    ensures BaseId(href).None? ==> v.requests == []
    ensures |v.tabs| == 2 ==> BaseId(href).Some? && page.first.DetailRendered? && page.first.pictures != []
    ensures v.raised && |v.tabs| == 2 ==> page.second.DetailRaises?
  {
    match page.first
    case DetailRaises => Visit([href], [], true)
    case DetailRendered(first) =>
      if first == [] then Visit([href], [], false)
      else match BaseId(href)
        case None => Visit([href], [], true)
        case Some(baseId) =>
          var firstRequests := PassRequests(first, dir, baseId, name);
          match page.second
          case DetailRaises => Visit([href, href], firstRequests, true)
          case DetailRendered(second) =>
            if second == [] then Visit([href, href], firstRequests, false)
            else Visit([href, href], firstRequests + PassRequests(second, dir, productId, name), false)
  }

  /** The first opening shows at least one picture. */
  predicate FirstShowsPictures(page: ProductPage) {
    page.first.DetailRendered? && page.first.pictures != []
  }

  /**
    Every path through the call. It raises exactly when the first wait raises,
    or when pictures were found but the link has no "/product/" (the product is
    then abandoned with nothing downloaded), or when the second wait raises. It
    opens the tab a second time exactly when the first opening showed pictures
    and the base id was cut out; the first pass's requests then come first,
    and they are all the call requests unless the second opening shows pictures.
   */
  lemma ProductVisitOutcome(href: string, productId: string, name: string, dir: string, page: ProductPage)
    ensures var v := ProductVisit(href, productId, name, dir, page);
      && (v.raised <==> page.first.DetailRaises?
                        || (FirstShowsPictures(page) && (BaseId(href).None? || page.second.DetailRaises?)))
      && (|v.tabs| == 2 <==> FirstShowsPictures(page) && BaseId(href).Some?)
      && (!FirstShowsPictures(page) || BaseId(href).None? ==> v.tabs == [href] && v.requests == [])
      && (FirstShowsPictures(page) && BaseId(href).Some? ==>
            var firstPass := PassRequests(page.first.pictures, dir, BaseId(href).value, name);
            && firstPass <= v.requests
            && (page.second.DetailRendered? && page.second.pictures != [] ==>
                  v.requests == firstPass + PassRequests(page.second.pictures, dir, productId, name))
            && (page.second.DetailRaises? || page.second.pictures == [] ==> v.requests == firstPass))
  {
  }

  /**
    When both openings show pictures and the link has "/product/", the call makes
    both passes and raises nowhere: the first pass names its files with the base
    id, the second with the product id.
   */
  lemma BothPasses(href: string, productId: string, name: string, dir: string, page: ProductPage, baseId: string)
    requires page.first.DetailRendered? && page.first.pictures != []
    requires page.second.DetailRendered? && page.second.pictures != []
    requires BaseId(href) == Some(baseId)
    ensures ProductVisit(href, productId, name, dir, page)
         == Visit([href, href], PassRequests(page.first.pictures, dir, baseId, name)
                                + PassRequests(page.second.pictures, dir, productId, name), false)
  {
  }

  /**
    Spelled out request by request: first one request per sourced picture of the
    first opening, then one per sourced picture of the second opening.
   */
  lemma TwoPasses(href: string, productId: string, name: string, dir: string, page: ProductPage, baseId: string)
    requires page.first.DetailRendered? && page.first.pictures != []
    requires page.second.DetailRendered? && page.second.pictures != []
    requires BaseId(href) == Some(baseId)
    ensures var v := ProductVisit(href, productId, name, dir, page);
      var p1, p2 := page.first.pictures, page.second.pictures;
      var ks1, ks2 := SourcedPositions(p1), SourcedPositions(p2);
      && !v.raised && v.tabs == [href, href]
      && |v.requests| == |ks1| + |ks2|
      && (forall j :: 0 <= j < |ks1| ==>
            v.requests[j] == Request(p1[ks1[j]].src.value, Filename(dir, baseId, name, ks1[j])))
      && (forall j :: 0 <= j < |ks2| ==>
            v.requests[|ks1| + j] == Request(p2[ks2[j]].src.value, Filename(dir, productId, name, ks2[j])))
  {
    var p1, p2 := page.first.pictures, page.second.pictures;
    var r1, r2 := PassRequests(p1, dir, baseId, name), PassRequests(p2, dir, productId, name);
    var ks1, ks2 := SourcedPositions(p1), SourcedPositions(p2);
    BothPasses(href, productId, name, dir, page, baseId);
    var requests := ProductVisit(href, productId, name, dir, page).requests;
    assert requests == r1 + r2;
    PassRequestsBySource(p1, dir, baseId, name);
    PassRequestsBySource(p2, dir, productId, name);
    forall j | 0 <= j < |ks1|
      ensures requests[j] == Request(p1[ks1[j]].src.value, Filename(dir, baseId, name, ks1[j]))
    {
      assert requests[j] == r1[j];
    }
    forall j | 0 <= j < |ks2|
      ensures requests[|ks1| + j] == Request(p2[ks2[j]].src.value, Filename(dir, productId, name, ks2[j]))
    {
      assert requests[|ks1| + j] == r2[j];
    }
  }

  /**
    For a canonical link `site + "/product/" + id + "/" + name` opened twice,
    both openings showing the same pictures, the second pass repeats the first
    request for request: every image is fetched twice into the same file.
   */
  lemma CanonicalLinkDownloadsTwice(site: string, id: string, name: string, dir: string, pictures: seq<Picture>)
    requires '/' !in id && '/' !in name && pictures != []
    requires IndexOf(site + ProductMarker + id + "/" + name, ProductMarker) == Some(|site|)
    ensures var href := site + ProductMarker + id + "/" + name;
      var page := ProductPage(DetailRendered(pictures), DetailRendered(pictures));
      var r := PassRequests(pictures, dir, id, name);
      ProductFields(href) == Some((id, name))
      && ProductVisit(href, id, name, dir, page) == Visit([href, href], r + r, false)
  {
    CanonicalLinkIds(site, id, name);
  }

  /**
    The modelled body of `process_product_images`: two passes, each opening the
    product tab, waiting, and requesting downloads; an exception ends the call.
   */
  method ProcessProductImages(href: string, productId: string, name: string, dir: string, page: ProductPage)
    returns (v: Visit)
    ensures v == ProductVisit(href, productId, name, dir, page)
  {
    // first pass: open the tab and wait for pictures
    var tabs := [href];
    if page.first.DetailRaises? {
      return Visit(tabs, [], true);
    }
    var pictures := page.first.pictures;
    if pictures == [] {
      // "No pictures found": close the tab and return
      return Visit(tabs, [], false);
    }
    var baseId := BaseId(href);
    if baseId.None? {
      // IndexError from split("/product/")[1]
      return Visit(tabs, [], true);
    }
    var requests := DownloadPass(pictures, dir, baseId.value, name);
    // second pass: open the tab again and wait for pictures
    tabs := tabs + [href];
    if page.second.DetailRaises? {
      return Visit(tabs, requests, true);
    }
    pictures := page.second.pictures;
    if pictures == [] {
      return Visit(tabs, requests, false);
    }
    var more := DownloadPass(pictures, dir, productId, name);
    v := Visit(tabs, requests + more, false);
  }
}
