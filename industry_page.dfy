/**
 * The page object of the industry page: link extraction, internal/external
 * classification, the navigable-link filter and the absolute-URL branch of
 * URL resolution.
 *
 * The browser is not modelled. The page is the sequence of its anchor
 * elements as `getAllLinks()` finds them, each with what `getAttribute('href')`
 * and `innerText()` give back; relative URL resolution against the page's
 * current URL is a function supplied by the caller.
 */
module IndustryPage {
  import opened Seqs
  import opened Text

  datatype Option<T> = None | Some(value: T)

  /**
   * One anchor element: its `href` attribute (`None` when absent) and its
   * inner text (`None` when reading the text fails).
   */
  datatype Anchor = Anchor(href: Option<string>, text: Option<string>)

  /** The record `getLinkDetails()` produces per anchor. */
  datatype LinkDetail = LinkDetail(url: string, text: string, isExternal: bool)

  /** The record `getInternalLinks()` and `getExternalLinks()` produce. */
  datatype Link = Link(url: string, text: string)

  /** The domain whose links count as internal. */
  const ReferenceDomain: string := "criticalriver.com"

  /** The `href` is truthy in JavaScript: present and not the empty string. */
  predicate HasHref(a: Anchor)
  {
    a.href.Some? && a.href.value != ""
  }

  function Href(a: Anchor): string
  {
    match a.href
    case Some(h) => h
    case None => ""
  }

  /**
   * The classification rule of `getLinkDetails()`: the raw href starts with
   * `http` and the reference domain occurs nowhere in it. The substring test
   * looks at the whole string, so a query or path that mentions the domain
   * makes the link internal, and any href not starting with `http` (a
   * relative path, `mailto:`, `#...`) is internal.
   */
  function IsExternal(href: string): bool
  {
    StartsWith(href, "http") && !Includes(href, ReferenceDomain)
  }

  /**
   * A link is external exactly when its href starts with `http` and the
   * reference domain occurs at no position of it; relative hrefs are internal.
   */
  lemma IsExternalIff(href: string)
    ensures IsExternal(href) <==> StartsWith(href, "http") && forall i :: !OccursAt(href, ReferenceDomain, i)
    ensures !StartsWith(href, "http") ==> !IsExternal(href)
  {
    IncludesIffOccurs(href, ReferenceDomain);
  }

  /**
   * The reference domain anywhere in a link makes it internal: in its host,
   * but equally in its path or query.
   */
  lemma {:induction false} DomainAnywhereIsInternal(pre: string, post: string)
    ensures !IsExternal(pre + ReferenceDomain + post)
  {
    var u := pre + ReferenceDomain + post;
    IncludesIffOccurs(u, ReferenceDomain);
    assert u[|pre|..|pre| + |ReferenceDomain|] == ReferenceDomain;
    assert OccursAt(u, ReferenceDomain, |pre|);
  }

  /** The detail record of one anchor: raw href, trimmed text ("" when reading failed). */
  function Detail(a: Anchor): LinkDetail
  {
    var text := match a.text case Some(t) => t case None => "";
    LinkDetail(Href(a), Trim(text), IsExternal(Href(a)))
  }

  /** What `getAllLinkUrls()` returns for a page. */
  function LinkUrls(page: seq<Anchor>): seq<string>
  {
    Map(Filter(page, HasHref), Href)
  }

  /** What `getLinkDetails()` returns for a page. */
  function LinkDetails(page: seq<Anchor>): seq<LinkDetail>
  {
    Map(Filter(page, HasHref), Detail)
  }

  /** `getAllLinkUrls()`: the loop that pushes every truthy href. */
  method GetAllLinkUrls(page: seq<Anchor>) returns (urls: seq<string>)
    ensures urls == LinkUrls(page)
    ensures |urls| == |Filter(page, HasHref)| <= |page|
    ensures forall u :: u in urls ==> u != ""
  {
    urls := [];
    for i := 0 to |page|
      invariant urls == LinkUrls(page[..i])
    {
      assert page[..i + 1] == page[..i] + [page[i]];
      FilterAppend(page[..i], [page[i]], HasHref);
      if page[i].href.Some? && page[i].href.value != "" {
        MapAppend(Filter(page[..i], HasHref), [page[i]], Href);
        urls := urls + [page[i].href.value];
      }
    }
    assert page[..|page|] == page;
    FilterMembership(page, HasHref);
    forall u | u in urls ensures u != "" {
      var k :| 0 <= k < |urls| && urls[k] == u;
      assert Filter(page, HasHref)[k] in Filter(page, HasHref);
    }
  }

  /** `getLinkDetails()`: the loop that pushes one record per truthy href. */
  method GetLinkDetails(page: seq<Anchor>) returns (details: seq<LinkDetail>)
    ensures details == LinkDetails(page)
    ensures |details| == |Filter(page, HasHref)|
  {
    details := [];
    for i := 0 to |page|
      invariant details == LinkDetails(page[..i])
    {
      var href := page[i].href;
      var text := match page[i].text case Some(t) => t case None => "";
      assert page[..i + 1] == page[..i] + [page[i]];
      FilterAppend(page[..i], [page[i]], HasHref);
      if href.Some? && href.value != "" {
        var isExternal := IsExternal(href.value);
        MapAppend(Filter(page[..i], HasHref), [page[i]], Detail);
        details := details + [LinkDetail(href.value, Trim(text), isExternal)];
      }
    }
    assert page[..|page|] == page;
  }

  function UrlOf(d: LinkDetail): string { d.url }

  /**
   * The two extraction loops agree: there is one detail record per URL of
   * `getAllLinkUrls()`, in the same order, carrying that URL, the trimmed
   * text of its anchor and the classification of that URL.
   */
  lemma DetailsMatchUrls(page: seq<Anchor>)
    ensures |LinkDetails(page)| == |LinkUrls(page)|
    ensures forall k :: 0 <= k < |LinkDetails(page)| ==>
      var d := LinkDetails(page)[k];
      d.url == LinkUrls(page)[k] && d.url != "" && d.isExternal == IsExternal(d.url)
    ensures forall k :: 0 <= k < |LinkDetails(page)| ==>
      var a := Filter(page, HasHref)[k];
      LinkDetails(page)[k].text == (if a.text.Some? then Trim(a.text.value) else "")
  {
    var kept := Filter(page, HasHref);
    FilterMembership(page, HasHref);
    forall k | 0 <= k < |kept| ensures HasHref(kept[k]) {
      assert kept[k] in kept;
    }
  }

  predicate IsInternalDetail(d: LinkDetail) { !d.isExternal }

  predicate IsExternalDetail(d: LinkDetail) { d.isExternal }

  function ToLink(d: LinkDetail): Link { Link(d.url, d.text) }

  /** `getInternalLinks()`: the records classified internal, without the flag. */
  function InternalLinks(page: seq<Anchor>): seq<Link>
  {
    Map(Filter(LinkDetails(page), IsInternalDetail), ToLink)
  }

  /** `getExternalLinks()`: the records classified external, without the flag. */
  function ExternalLinks(page: seq<Anchor>): seq<Link>
  {
    Map(Filter(LinkDetails(page), IsExternalDetail), ToLink)
  }

  /**
   * Internal and external links partition the detail records: each list is
   * an order-preserving subsequence of the records with url and text kept,
   * the two lengths add up to the number of records, and every record lands
   * in exactly one of them, as often as it occurs.
   */
  lemma InternalExternalPartition(page: seq<Anchor>)
    ensures |InternalLinks(page)| + |ExternalLinks(page)| == |LinkDetails(page)|
    ensures multiset(InternalLinks(page)) + multiset(ExternalLinks(page))
      == multiset(Map(LinkDetails(page), ToLink))
    ensures IsSubsequence(InternalLinks(page), Map(LinkDetails(page), ToLink))
    ensures IsSubsequence(ExternalLinks(page), Map(LinkDetails(page), ToLink))
  {
    var details := LinkDetails(page);
    FilterPartitionLength(details, IsInternalDetail, IsExternalDetail);
    FilterMapPartition(details, IsInternalDetail, IsExternalDetail, ToLink);
    FilterMapSubsequence(details, IsInternalDetail, ToLink);
    FilterMapSubsequence(details, IsExternalDetail, ToLink);
  }

  /** Every internal link's url is classified internal, every external one's external. */
  lemma InternalExternalClassified(page: seq<Anchor>)
    ensures forall l :: l in InternalLinks(page) ==> !IsExternal(l.url)
    ensures forall l :: l in ExternalLinks(page) ==> IsExternal(l.url)
  {
    var details := LinkDetails(page);
    DetailsMatchUrls(page);
    FilterMembership(details, IsInternalDetail);
    FilterMembership(details, IsExternalDetail);
    forall l | l in InternalLinks(page) ensures !IsExternal(l.url) {
      var ins := Filter(details, IsInternalDetail);
      var k :| 0 <= k < |ins| && ToLink(ins[k]) == l;
      assert ins[k] in details;
    }
    forall l | l in ExternalLinks(page) ensures IsExternal(l.url) {
      var exs := Filter(details, IsExternalDetail);
      var k :| 0 <= k < |exs| && ToLink(exs[k]) == l;
      assert exs[k] in details;
    }
  }

  /** The predicate of `filterNavigableLinks`, clause by clause. */
  predicate IsNavigable(url: string)
  {
    url != ""
    && !StartsWith(url, "#")
    && !StartsWith(url, "javascript:")
    && !StartsWith(url, "mailto:")
    && !StartsWith(url, "tel:")
    && url != "/"
    && Trim(url) != ""
  }

  /** `filterNavigableLinks(urls)`. */
  function FilterNavigableLinks(urls: seq<string>): seq<string>
  {
    Filter(urls, IsNavigable)
  }

  /**
   * `filterNavigableLinks` keeps a URL exactly when it has a non-whitespace
   * character, is not `/` and does not start (case-sensitively) with `#`,
   * `javascript:`, `mailto:` or `tel:`; what it keeps is an order-preserving
   * subsequence of its input.
   */
  lemma FilterNavigableSpec(urls: seq<string>)
    ensures forall u :: u in FilterNavigableLinks(urls) <==>
      u in urls
      && (exists i :: 0 <= i < |u| && !IsWhitespace(u[i]))
      && u != "/"
      && !StartsWith(u, "#") && !StartsWith(u, "javascript:")
      && !StartsWith(u, "mailto:") && !StartsWith(u, "tel:")
    ensures IsSubsequence(FilterNavigableLinks(urls), urls)
  {
    FilterSubsequence(urls, IsNavigable);
    FilterMembership(urls, IsNavigable);
    forall u ensures IsNavigable(u) <==>
      (exists i :: 0 <= i < |u| && !IsWhitespace(u[i]))
      && u != "/"
      && !StartsWith(u, "#") && !StartsWith(u, "javascript:")
      && !StartsWith(u, "mailto:") && !StartsWith(u, "tel:")
    {
      TrimSpec(u);
    }
  }

  /** Nothing is de-duplicated: a kept URL occurs as often as in the input. */
  lemma FilterNavigableKeepsDuplicates(urls: seq<string>, u: string)
    ensures multiset(FilterNavigableLinks(urls))[u] == if IsNavigable(u) then multiset(urls)[u] else 0
  {
    FilterMultiplicity(urls, IsNavigable, u);
  }

  /** Filtering the navigable links a second time changes nothing. */
  lemma FilterNavigableIdempotent(urls: seq<string>)
    ensures FilterNavigableLinks(FilterNavigableLinks(urls)) == FilterNavigableLinks(urls)
  {
    FilterIdempotent(urls, IsNavigable);
  }

  /** The URL already carries an `http://` or `https://` scheme. */
  predicate IsAbsoluteHttp(url: string)
  {
    StartsWith(url, "http://") || StartsWith(url, "https://")
  }

  /**
   * `resolveUrl(url)`: an absolute http(s) URL is returned unchanged; any
   * other URL is resolved against the page's current URL `base` by
   * `relative` (the WHATWG URL parser, not part of this model).
   */
  function ResolveUrl(url: string, base: string, relative: (string, string) -> string): (r: string)
    ensures IsAbsoluteHttp(url) ==> r == url
    ensures !IsAbsoluteHttp(url) ==> r == relative(url, base)
  {
    if StartsWith(url, "http://") || StartsWith(url, "https://") then url else relative(url, base)
  }

  /**
   * Resolving twice is resolving once, whenever the resolver leaves alone any
   * URL it produced that is not http(s) (as `new URL(url, base).href` does
   * for `mailto:`, `tel:` or `data:` URLs, which carry their own scheme).
   * Its http(s) results are returned unchanged by the second call anyway.
   */
  lemma ResolveUrlIdempotent(url: string, base: string, relative: (string, string) -> string)
    requires forall u, b :: !IsAbsoluteHttp(relative(u, b)) ==> relative(relative(u, b), b) == relative(u, b)
    ensures ResolveUrl(ResolveUrl(url, base, relative), base, relative) == ResolveUrl(url, base, relative)
  {
  }

  /** A URL whose first character is none of `#`, `j`, `m`, `t` or whitespace, and that is not `/`, is navigable. */
  lemma NavigableByFirstChar(u: string)
    requires u != [] && u != "/" && !IsWhitespace(u[0])
    requires u[0] != '#' && u[0] != 'j' && u[0] != 'm' && u[0] != 't'
    ensures IsNavigable(u)
  {
    TrimSpec(u);
    assert forall p: string :: p != [] && StartsWith(u, p) ==> u[0] == p[0] by {
      forall p: string | p != [] && StartsWith(u, p) ensures u[0] == p[0] {
        assert u[..|p|][0] == u[0];
      }
    }
    assert "#"[0] == '#' && "javascript:"[0] == 'j' && "mailto:"[0] == 'm' && "tel:"[0] == 't';
  }

  /** A URL that starts with one of the excluded prefixes is not navigable. */
  lemma NotNavigableByPrefix(u: string, prefix: string)
    requires prefix in ["#", "javascript:", "mailto:", "tel:"]
    requires |prefix| <= |u| && u[..|prefix|] == prefix
    ensures !IsNavigable(u)
  {
  }

  /** The five anchors of the example suite's demonstration page. */
  const ExampleAnchors: seq<Anchor> := [
    Anchor(Some("http://example.com"), Some("External Link")),
    Anchor(Some("/internal"), Some("Internal Link")),
    Anchor(Some("#anchor"), Some("Anchor Link")),
    Anchor(Some("javascript:void(0)"), Some("JavaScript Link")),
    Anchor(Some("mailto:test@example.com"), Some("Email Link"))]

  /** On the demonstration page every anchor yields its href. */
  lemma ExamplePageUrls()
    ensures LinkUrls(ExampleAnchors)
      == ["http://example.com", "/internal", "#anchor", "javascript:void(0)", "mailto:test@example.com"]
  {
    FilterKeepsAll(ExampleAnchors, HasHref);
  }

  /** The navigable filter keeps exactly the external and the relative link of the demonstration page. */
  lemma ExamplePageNavigable()
    ensures FilterNavigableLinks(LinkUrls(ExampleAnchors)) == ["http://example.com", "/internal"]
  {
    ExamplePageUrls();
    ExamplePageFiltered();
  }

  /** The navigable filter on the five hrefs of the demonstration page. */
  lemma ExamplePageFiltered()
    ensures FilterNavigableLinks(["http://example.com", "/internal", "#anchor", "javascript:void(0)", "mailto:test@example.com"])
      == ["http://example.com", "/internal"]
  {
    var u := ["http://example.com", "/internal", "#anchor", "javascript:void(0)", "mailto:test@example.com"];
    ExamplePageKept();
    ExamplePageDropped();
    FilterKeepsPrefix(u, IsNavigable, 2);
  }

  /** The hrefs of the demonstration page that the navigable filter keeps. */
  lemma ExamplePageKept()
    ensures IsNavigable("http://example.com") && IsNavigable("/internal")
  {
    NavigableByFirstChar("http://example.com");
    NavigableByFirstChar("/internal");
  }

  /** The hrefs of the demonstration page that the navigable filter drops. */
  lemma ExamplePageDropped()
    ensures !IsNavigable("#anchor") && !IsNavigable("javascript:void(0)") && !IsNavigable("mailto:test@example.com")
  {
    NotNavigableByPrefix("#anchor", "#");
    NotNavigableByPrefix("javascript:void(0)", "javascript:");
    NotNavigableByPrefix("mailto:test@example.com", "mailto:");
  }

  /** The verdict of the navigable filter on each candidate of its documented example. */
  lemma FilterExampleVerdicts()
    ensures !IsNavigable("#a") && !IsNavigable("javascript:void(0)") && !IsNavigable("mailto:x@y.com")
    ensures !IsNavigable("tel:123") && !IsNavigable("/") && !IsNavigable("  ") && IsNavigable("/page")
  {
    NavigableByFirstChar("/page");
    NotNavigableByPrefix("#a", "#");
    NotNavigableByPrefix("javascript:void(0)", "javascript:");
    NotNavigableByPrefix("mailto:x@y.com", "mailto:");
    NotNavigableByPrefix("tel:123", "tel:");
    assert !IsNavigable("  ") by { assert TrimStart("  ") == TrimStart(" ") == ""; }
  }

  /** The filter's documented example: of seven candidates only `/page` survives. */
  lemma FilterNavigableExample()
    ensures FilterNavigableLinks(["#a", "javascript:void(0)", "mailto:x@y.com", "tel:123", "/", "/page", "  "])
      == ["/page"]
  {
    var u := ["#a", "javascript:void(0)", "mailto:x@y.com", "tel:123", "/", "/page", "  "];
    FilterExampleVerdicts();
    FilterKeepsOne(u, IsNavigable, 5);
  }
}
