/**
  The string-valued names the scraper derives: the product identifiers cut out of
  a detail-page link, the listing page URL and the image file name.
 */
module Naming {
  import opened Strings

  /** The path segment that introduces a product identifier in a detail-page link. */
  const ProductMarker: string := "/product/"

  /**
    `product_url.split("/product/")[1].split("/")[0]`: the product's base id.
    None stands for the IndexError Python raises when the marker is absent.
   */
  function BaseId(url: string): (r: Option<string>)
    ensures r.Some? <==> IndexOf(url, ProductMarker).Some?
  {
    SplitHead(url, ProductMarker);
    var parts := Split(url, ProductMarker);
    if |parts| < 2 then None else Some(Split(parts[1], "/")[0])
  }

  /**
    The base id is the text that follows the FIRST "/product/" up to the next '/'
    (or to the end of the link).
   */
  lemma BaseIdText(url: string, i: nat)
    requires IndexOf(url, ProductMarker) == Some(i)
    ensures BaseId(url).Some?
    ensures var id, start := BaseId(url).value, i + |ProductMarker|;
      && start + |id| <= |url|
      && url[start..start + |id|] == id
      && '/' !in id
      && (start + |id| == |url| || url[start + |id|] == '/')
  {
    var rest := url[i + |ProductMarker|..];
    SplitSecond(url, ProductMarker, i);
    var field := Split(rest, ProductMarker)[0];
    var id := Split(field, "/")[0];
    assert BaseId(url) == Some(id);
    MarkerFieldHead(rest);
    FirstFieldChar(field, '/');
    SlashBoundedPrefix(url, i + |ProductMarker|, field, id);
  }

  /**
    A '/'-free prefix of a prefix of `url[start..]`, each followed by '/' or the
    end, sits at `start` and is followed by '/' or the end of `url`.
   */
  lemma SlashBoundedPrefix(url: string, start: nat, field: string, id: string)
    requires start <= |url|
    requires field <= url[start..] && (|field| == |url| - start || url[start + |field|] == '/')
    requires id <= field && '/' !in id && (|id| == |field| || field[|id|] == '/')
    ensures start + |id| <= |url| && url[start..start + |id|] == id
    ensures start + |id| == |url| || url[start + |id|] == '/'
  {
    assert url[start..][..|id|] == id;
  }

  /** The field before the next "/product/" is followed by '/' or by nothing. */
  lemma MarkerFieldHead(rest: string)
    ensures var f := Split(rest, ProductMarker)[0];
      f <= rest && (|f| == |rest| || rest[|f|] == '/')
  {
    var f := Split(rest, ProductMarker)[0];
    SplitFirst(rest, ProductMarker);
    if |f| < |rest| {
      assert rest[|f|] == rest[|f|..|f| + |ProductMarker|][0];
    }
  }

  /**
    `(href.split('/')[-2], href.split('/')[-1])`: the product id and product name.
    None stands for the IndexError `[-2]` raises on a link without any '/'.
   */
  function ProductFields(href: string): (r: Option<(string, string)>)
    ensures r.Some? <==> '/' in href
  {
    SplitHead(href, "/");
    IndexOfFirst(href, "/");
    AvoidsChar(href, '/');
    var parts := Split(href, "/");
    if |parts| < 2 then None else Some((parts[|parts| - 2], parts[|parts| - 1]))
  }

  /**
    The fields are the last two '/'-separated fields of the link, unfiltered:
    the link ends with `id + "/" + name`, neither contains '/', and `id` starts the
    link or follows a '/'. Either may be empty.
   */
  lemma ProductFieldsShape(href: string)
    requires '/' in href
    ensures ProductFields(href).Some?
    ensures var (id, name) := ProductFields(href).value;
      && '/' !in id && '/' !in name
      && |id| + 1 + |name| <= |href|
      && var k := |href| - |name| - 1 - |id|;
         href[k..] == id + "/" + name && (k == 0 || href[k - 1] == '/')
  {
    var parts := Split(href, "/");
    assert ProductFields(href).Some?;
    SplitJoin(href, "/");
    var n := |parts|;
    AvoidsChar(parts[n - 2], '/');
    AvoidsChar(parts[n - 1], '/');
    JoinLastTwo(parts, "/");
  }

  /**
    Conversely, any link of the form `prefix + id + "/" + name`, with `prefix`
    empty or ending in '/' and no '/' in `id` or `name`, yields exactly
    `(id, name)`.
   */
  lemma ProductFieldsOf(prefix: string, id: string, name: string)
    requires prefix == [] || prefix[|prefix| - 1] == '/'
    requires '/' !in id && '/' !in name
    ensures ProductFields(prefix + id + "/" + name) == Some((id, name))
  {
    var href := prefix + id + "/" + name;
    if prefix == [] {
      assert Join([id, name], "/") == href;
      SplitCharUnique([id, name], '/');
    } else {
      var front := prefix[..|prefix| - 1];
      var qs := Split(front, "/");
      SplitJoin(front, "/");
      forall k | 0 <= k < |qs| ensures '/' !in qs[k] {
        AvoidsChar(qs[k], '/');
      }
      JoinSnoc(qs, id, "/");
      JoinSnoc(qs + [id], name, "/");
      assert prefix == front + "/";
      assert Join(qs + [id] + [name], "/") == href;
      SplitCharUnique(qs + [id] + [name], '/');
    }
  }

  /** A link ending in '/' (a trailing slash) yields an empty product name. */
  lemma TrailingSlashEmptyName(href: string)
    requires |href| >= 1 && href[|href| - 1] == '/'
    ensures ProductFields(href).Some? && ProductFields(href).value.1 == ""
  {
    ProductFieldsShape(href);
  }

  /** A '/'-free prefix of `id + "/" + tail` that a '/' or the end follows is `id`. */
  lemma SlashFreeHead(id: string, tail: string, b: string)
    requires '/' !in id && '/' !in b
    requires b <= id + "/" + tail
    requires |b| == |id + "/" + tail| || (id + "/" + tail)[|b|] == '/'
    ensures b == id
  {
    var rest := id + "/" + tail;
    assert rest[|id|] == '/';
    forall k | 0 <= k < |id| ensures rest[k] != '/' {
      assert rest[k] == id[k];
    }
    forall k | 0 <= k < |b| ensures b[k] == rest[k] && b[k] != '/' {
    }
  }

  /**
    For a canonical link `site + "/product/" + id + "/" + name` whose first
    "/product/" is the one after `site`, the base id and the product id agree,
    so the two image passes name their files the same.
   */
  lemma CanonicalLinkIds(site: string, id: string, name: string)
    requires '/' !in id && '/' !in name
    requires IndexOf(site + ProductMarker + id + "/" + name, ProductMarker) == Some(|site|)
    ensures BaseId(site + ProductMarker + id + "/" + name) == Some(id)
    ensures ProductFields(site + ProductMarker + id + "/" + name) == Some((id, name))
  {
    var front := site + ProductMarker;
    var href := front + id + "/" + name;
    BaseIdText(href, |site|);
    var b := BaseId(href).value;
    assert href[|front|..] == id + "/" + name;
    SlashFreeHead(id, name, b);
    ProductFieldsOf(front, id, name);
  }

  /** `f"{target_url}page={page_number}"`: the URL of listing page `n`. */
  function PageUrl(target: string, n: nat): string {
    target + "page=" + Decimal(n)
  }

  /** Different page numbers give different listing URLs. */
  lemma PageUrlInjective(target: string, a: nat, b: nat)
    ensures PageUrl(target, a) == PageUrl(target, b) ==> a == b
  {
    if PageUrl(target, a) == PageUrl(target, b) {
      var k := |target| + 5;
      assert PageUrl(target, a)[k..] == Decimal(a);
      assert PageUrl(target, b)[k..] == Decimal(b);
      DecimalInjective(a, b);
    }
  }

  /**
    `f"{output_dir}/{id}_{product_name}_{pic_index + 1}.jpg"`: the file an image
    is saved to; `index` is the picture's zero-based position on the page.
   */
  function Filename(dir: string, id: string, name: string, index: nat): string {
    dir + "/" + id + "_" + name + "_" + Decimal(index + 1) + ".jpg"
  }

  /** The longest run of digits that ends `s`. */
  function DigitSuffix(s: string): (d: string)
    ensures AllDigits(d) && |d| <= |s| && s[|s| - |d|..] == d
  {
    if s == [] || !IsDigit(s[|s| - 1]) then []
    else DigitSuffix(s[..|s| - 1]) + [s[|s| - 1]]
  }

  /** The one-based ordinal written into a file name: its last digits before ".jpg". */
  function OrdinalOf(path: string): nat {
    if |path| < 4 then 0 else ParseDecimal(DigitSuffix(path[..|path| - 4]))
  }

  /** Digits written after a non-digit are read back as exactly those digits. */
  lemma {:induction false} DigitSuffixAfter(p: string, d: string)
    requires p != [] && !IsDigit(p[|p| - 1])
    requires AllDigits(d)
    ensures DigitSuffix(p + d) == d
    decreases |d|
  {
    if d != [] {
      var init := d[..|d| - 1];
      assert (p + d)[..|p + d| - 1] == p + init;
      DigitSuffixAfter(p, init);
      assert d == init + [d[|d| - 1]];
    } else {
      assert p + d == p;
    }
  }

  /** A file name records its picture's ordinal: reading it back gives `index + 1`. */
  lemma FilenameOrdinal(dir: string, id: string, name: string, index: nat)
    ensures OrdinalOf(Filename(dir, id, name, index)) == index + 1
  {
    var path := Filename(dir, id, name, index);
    var p := dir + "/" + id + "_" + name + "_";
    assert path[..|path| - 4] == p + Decimal(index + 1);
    DigitSuffixAfter(p, Decimal(index + 1));
    ParseDecimalOfDecimal(index + 1);
  }

  /** Different pictures of one product never share a file name. */
  lemma FilenameInjective(dir: string, id: string, name: string, a: nat, b: nat)
    ensures Filename(dir, id, name, a) == Filename(dir, id, name, b) ==> a == b
  {
    FilenameOrdinal(dir, id, name, a);
    FilenameOrdinal(dir, id, name, b);
  }

  /**
    The naming is not injective across products: moving an '_' between the id
    and the name gives a different product with the same file name.
   */
  lemma FilenameCollidesAcrossProducts(dir: string, a: string, b: string, c: string, index: nat)
    ensures Filename(dir, a + "_" + b, c, index) == Filename(dir, a, b + "_" + c, index)
  {
  }
}
