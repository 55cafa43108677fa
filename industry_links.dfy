/**
 * The bookkeeping of the industry-page link validation scenarios: the
 * de-duplication of resolved URLs, the classification of every response into
 * a successful or a broken link, the verdict and its failure message, and the
 * internal-only variant with its own skip rule.
 *
 * The HTTP client is an oracle. In the scenario over all navigable links
 * `responses[k]` is what the request for the k-th unique resolved URL yields;
 * in the internal scenario `responses[k]` belongs to the k-th internal link
 * and is unused when that link is skipped. Each is either a status code or
 * the message of the error the request threw. Relative URL resolution is the function `relative`
 * supplied by the caller, as in the page object.
 */
module IndustryLinks {
  import opened Seqs
  import opened Text
  import opened IndustryPage

  /** What one request yields: a status code, or the message of the error it threw. */
  datatype Outcome = Status(code: int) | Error(message: string)

  /** An entry of `brokenLinks` in the scenario over all navigable links. */
  datatype BrokenLink = BrokenLink(url: string, error: string)

  /** An entry of `brokenLinks` in the internal-only scenario. */
  datatype InternalBrokenLink = InternalBrokenLink(url: string, text: string, error: string)

  /** A checked URL together with what its request yielded. */
  datatype Probe = Probe(url: string, outcome: Outcome)

  /** The status range the scenarios accept: 2xx and 3xx. */
  predicate IsSuccessStatus(code: int)
  {
    200 <= code < 400
  }

  /** The request returned, with an accepted status. */
  predicate IsSuccess(o: Outcome)
  {
    o.Status? && IsSuccessStatus(o.code)
  }

  /** The `error` text recorded for a failed request. */
  function ErrorText(o: Outcome): string
  {
    match o
    case Status(code) => "HTTP " + IntToDecimal(code)
    case Error(message) => message
  }

  /** The status code can be read back from the error text recorded for it. */
  lemma ErrorTextNamesStatus(code: int)
    ensures StartsWith(ErrorText(Status(code)), "HTTP ")
    ensures var digits := ErrorText(Status(code))[5..];
      IsDecimalInt(digits) && ParseInt(digits) == code
  {
    var t := ErrorText(Status(code));
    assert t[5..] == IntToDecimal(code);
    IntToDecimalRoundTrip(code);
  }

  // ---------------------------------------------------------------------------
  // Resolution and de-duplication

  /** Every navigable URL resolved against the page's URL, in order. */
  function ResolveAll(urls: seq<string>, base: string, relative: (string, string) -> string): seq<string>
  {
    Map(urls, u => ResolveUrl(u, base, relative))
  }

  /**
   * The loop that resolves each navigable URL and appends it to
   * `resolvedUrls` unless it is already there.
   */
  method ResolveUnique(navigable: seq<string>, base: string, relative: (string, string) -> string)
    returns (resolved: seq<string>)
    ensures resolved == Dedup(ResolveAll(navigable, base, relative))
    ensures NoDuplicates(resolved)
    ensures forall k :: 0 <= k < |navigable| ==> ResolveUrl(navigable[k], base, relative) in resolved
    ensures forall u :: u in resolved ==> u in ResolveAll(navigable, base, relative)
    ensures forall i, j :: 0 <= i < j < |resolved| ==>
      FirstIndex(ResolveAll(navigable, base, relative), resolved[i])
      < FirstIndex(ResolveAll(navigable, base, relative), resolved[j])
  {
    resolved := [];
    for i := 0 to |navigable|
      invariant resolved == Dedup(ResolveAll(navigable[..i], base, relative))
    {
      var r := ResolveUrl(navigable[i], base, relative);
      assert navigable[..i + 1][..i] == navigable[..i];
      if r !in resolved {
        resolved := resolved + [r];
      }
    }
    assert navigable[..|navigable|] == navigable;
    DedupSpec(ResolveAll(navigable, base, relative));
  }

  // ---------------------------------------------------------------------------
  // Checking every unique URL

  /** The checked URLs paired with their outcomes. */
  function Probes(urls: seq<string>, outcomes: seq<Outcome>): (r: seq<Probe>)
    requires |outcomes| == |urls|
    ensures |r| == |urls|
    ensures forall k :: 0 <= k < |urls| ==> r[k] == Probe(urls[k], outcomes[k])
  {
    if urls == [] then []
    else Probes(urls[..|urls| - 1], outcomes[..|urls| - 1]) + [Probe(urls[|urls| - 1], outcomes[|urls| - 1])]
  }

  predicate Succeeds(p: Probe) { IsSuccess(p.outcome) }

  predicate Fails(p: Probe) { !IsSuccess(p.outcome) }

  function ProbeUrl(p: Probe): string { p.url }

  function Report(p: Probe): BrokenLink { BrokenLink(p.url, ErrorText(p.outcome)) }

  /** `successfulLinks` after the check loop. */
  function SuccessfulLinks(urls: seq<string>, outcomes: seq<Outcome>): seq<string>
    requires |outcomes| == |urls|
  {
    Map(Filter(Probes(urls, outcomes), Succeeds), ProbeUrl)
  }

  /** `brokenLinks` after the check loop. */
  function BrokenLinks(urls: seq<string>, outcomes: seq<Outcome>): seq<BrokenLink>
    requires |outcomes| == |urls|
  {
    Map(Filter(Probes(urls, outcomes), Fails), Report)
  }

  function BrokenUrl(b: BrokenLink): string { b.url }

  /** `brokenLinks.map(l => l.url)`. */
  function BrokenUrls(broken: seq<BrokenLink>): seq<string>
  {
    Map(broken, BrokenUrl)
  }

  /** The broken URLs are the URLs of the failed probes. */
  lemma BrokenUrlsOfProbes(urls: seq<string>, outcomes: seq<Outcome>)
    requires |outcomes| == |urls|
    ensures BrokenUrls(BrokenLinks(urls, outcomes)) == Map(Filter(Probes(urls, outcomes), Fails), ProbeUrl)
  {
  }

  lemma ProbesSnoc(urls: seq<string>, outcomes: seq<Outcome>, i: nat)
    requires |outcomes| == |urls| && i < |urls|
    ensures Probes(urls[..i + 1], outcomes[..i + 1]) == Probes(urls[..i], outcomes[..i]) + [Probe(urls[i], outcomes[i])]
  {
    assert urls[..i + 1][..i] == urls[..i];
    assert outcomes[..i + 1][..i] == outcomes[..i];
  }

  /**
   * The check loop: every URL is requested in turn; an accepted status
   * records it as successful, any other status or a thrown error records it
   * as broken, and the loop goes on to the next URL either way.
   */
  method CheckLinks(resolved: seq<string>, responses: seq<Outcome>)
    returns (successful: seq<string>, broken: seq<BrokenLink>)
    requires |responses| == |resolved|
    ensures successful == SuccessfulLinks(resolved, responses)
    ensures broken == BrokenLinks(resolved, responses)
    ensures |successful| + |broken| == |resolved|
  {
    successful, broken := [], [];
    for i := 0 to |resolved|
      invariant successful == SuccessfulLinks(resolved[..i], responses[..i])
      invariant broken == BrokenLinks(resolved[..i], responses[..i])
    {
      var url := resolved[i];
      ProbesSnoc(resolved, responses, i);
      var probes := Probes(resolved[..i], responses[..i]);
      FilterMapSnoc(probes, Probe(url, responses[i]), Succeeds, ProbeUrl);
      FilterMapSnoc(probes, Probe(url, responses[i]), Fails, Report);
      match responses[i]
      case Status(status) =>
        if status >= 200 && status < 400 {
          successful := successful + [url];
        } else {
          broken := broken + [BrokenLink(url, "HTTP " + IntToDecimal(status))];
        }
      case Error(message) =>
        broken := broken + [BrokenLink(url, message)];
    }
    assert resolved[..|resolved|] == resolved;
    assert responses[..|responses|] == responses;
    CheckCountsAddUp(resolved, responses);
  }

  /** Every checked URL is counted once: the two lists together are as long as the input. */
  lemma CheckCountsAddUp(urls: seq<string>, outcomes: seq<Outcome>)
    requires |outcomes| == |urls|
    ensures |SuccessfulLinks(urls, outcomes)| + |BrokenLinks(urls, outcomes)| == |urls|
  {
    FilterPartitionLength(Probes(urls, outcomes), Succeeds, Fails);
  }

  /**
   * A URL of a list without repetitions is among the successful links
   * exactly when its request returned an accepted status.
   */
  lemma SuccessfulIff(urls: seq<string>, outcomes: seq<Outcome>, k: nat)
    requires |outcomes| == |urls| && NoDuplicates(urls) && k < |urls|
    ensures urls[k] in SuccessfulLinks(urls, outcomes) <==> IsSuccess(outcomes[k])
  {
    var probes := Probes(urls, outcomes);
    FilterMapMember(probes, Succeeds, ProbeUrl, urls[k]);
    if j :| 0 <= j < |probes| && Succeeds(probes[j]) && ProbeUrl(probes[j]) == urls[k] {
      assert j == k;
    }
  }

  /**
   * A URL of a list without repetitions is among the broken links exactly
   * when its request did not return an accepted status.
   */
  lemma BrokenIff(urls: seq<string>, outcomes: seq<Outcome>, k: nat)
    requires |outcomes| == |urls| && NoDuplicates(urls) && k < |urls|
    ensures urls[k] in BrokenUrls(BrokenLinks(urls, outcomes)) <==> !IsSuccess(outcomes[k])
  {
    var probes := Probes(urls, outcomes);
    BrokenUrlsOfProbes(urls, outcomes);
    FilterMapMember(probes, Fails, ProbeUrl, urls[k]);
    if j :| 0 <= j < |probes| && Fails(probes[j]) && ProbeUrl(probes[j]) == urls[k] {
      assert j == k;
    }
  }

  /** Each URL of a list without repetitions ends up in exactly one of the two lists. */
  lemma ExactlyOneList(urls: seq<string>, outcomes: seq<Outcome>, k: nat)
    requires |outcomes| == |urls| && NoDuplicates(urls) && k < |urls|
    ensures (urls[k] in SuccessfulLinks(urls, outcomes)) != (urls[k] in BrokenUrls(BrokenLinks(urls, outcomes)))
  {
    SuccessfulIff(urls, outcomes, k);
    BrokenIff(urls, outcomes, k);
  }

  /**
   * What is recorded as broken: every URL whose request failed, with
   * `HTTP <status>` or the error's message as its error text, and nothing else.
   */
  lemma BrokenRecordsFaithful(urls: seq<string>, outcomes: seq<Outcome>)
    requires |outcomes| == |urls|
    ensures forall k :: 0 <= k < |urls| && !IsSuccess(outcomes[k]) ==>
      BrokenLink(urls[k], ErrorText(outcomes[k])) in BrokenLinks(urls, outcomes)
    ensures forall b :: b in BrokenLinks(urls, outcomes) ==>
      exists k :: 0 <= k < |urls| && !IsSuccess(outcomes[k]) && b == BrokenLink(urls[k], ErrorText(outcomes[k]))
  {
    var probes := Probes(urls, outcomes);
    var bad := Filter(probes, Fails);
    var broken := BrokenLinks(urls, outcomes);
    FilterMembership(probes, Fails);
    forall k | 0 <= k < |urls| && !IsSuccess(outcomes[k])
      ensures BrokenLink(urls[k], ErrorText(outcomes[k])) in broken
    {
      assert probes[k] in probes;
      var i :| 0 <= i < |bad| && bad[i] == probes[k];
      assert broken[i] == Report(probes[k]);
    }
    forall b | b in broken
      ensures exists k :: 0 <= k < |urls| && !IsSuccess(outcomes[k]) && b == BrokenLink(urls[k], ErrorText(outcomes[k]))
    {
      var i :| 0 <= i < |broken| && broken[i] == b;
      assert bad[i] in bad;
      var k :| 0 <= k < |probes| && probes[k] == bad[i];
      assert b == BrokenLink(urls[k], ErrorText(outcomes[k]));
    }
  }

  /** `expect(brokenLinks.length).toBe(0)`. */
  predicate ScenarioPasses(broken: seq<BrokenLink>)
  {
    |broken| == 0
  }

  /** The scenario passes exactly when every request returned an accepted status. */
  lemma VerdictIff(urls: seq<string>, outcomes: seq<Outcome>)
    requires |outcomes| == |urls|
    ensures ScenarioPasses(BrokenLinks(urls, outcomes)) <==> forall k :: 0 <= k < |urls| ==> IsSuccess(outcomes[k])
  {
    var probes := Probes(urls, outcomes);
    FilterEmpty(probes, Fails);
    assert forall k :: 0 <= k < |urls| ==> (Fails(probes[k]) <==> !IsSuccess(outcomes[k]));
  }

  /** The message attached to the failing expectation. */
  function FailureMessage(broken: seq<BrokenLink>): string
  {
    "Found " + IntToDecimal(|broken|) + " broken link(s): " + Join(BrokenUrls(broken), ", ")
  }

  /** The failure message names every broken URL. */
  lemma FailureMessageNamesEach(broken: seq<BrokenLink>, j: nat)
    requires j < |broken|
    ensures Includes(FailureMessage(broken), broken[j].url)
  {
    var urls := BrokenUrls(broken);
    JoinIncludesEach(urls, ", ", j);
    IncludesInSuffix("Found " + IntToDecimal(|broken|) + " broken link(s): ", Join(urls, ", "), urls[j]);
  }

  /** The navigable URLs of a page, resolved and de-duplicated: the URLs the scenario checks. */
  function UrlsToCheck(page: seq<Anchor>, base: string, relative: (string, string) -> string): seq<string>
  {
    Dedup(ResolveAll(FilterNavigableLinks(LinkUrls(page)), base, relative))
  }

  /**
   * The whole scenario over a page: collect the hrefs, keep the navigable
   * ones, resolve and de-duplicate them, check each, and pass exactly when
   * nothing is broken.
   */
  method ValidateNavigableLinks(page: seq<Anchor>, base: string, relative: (string, string) -> string,
                                responses: seq<Outcome>)
    returns (successful: seq<string>, broken: seq<BrokenLink>, passed: bool)
    requires |responses| == |UrlsToCheck(page, base, relative)|
    ensures successful == SuccessfulLinks(UrlsToCheck(page, base, relative), responses)
    ensures broken == BrokenLinks(UrlsToCheck(page, base, relative), responses)
    ensures |successful| + |broken| == |UrlsToCheck(page, base, relative)|
    ensures forall u :: u in UrlsToCheck(page, base, relative) ==> (u in successful) != (u in BrokenUrls(broken))
    ensures passed <==> forall k :: 0 <= k < |responses| ==> IsSuccess(responses[k])
  {
    var allUrls := GetAllLinkUrls(page);
    var navigableUrls := FilterNavigableLinks(allUrls);
    var resolvedUrls := ResolveUnique(navigableUrls, base, relative);
    successful, broken := CheckLinks(resolvedUrls, responses);
    passed := |broken| == 0;
    VerdictIff(resolvedUrls, responses);
    forall u | u in resolvedUrls ensures (u in successful) != (u in BrokenUrls(broken)) {
      var k :| 0 <= k < |resolvedUrls| && resolvedUrls[k] == u;
      ExactlyOneList(resolvedUrls, responses, k);
    }
  }

  // ---------------------------------------------------------------------------
  // The internal-only scenario

  /**
   * The skip rule of the internal scenario, applied to the resolved URL in
   * lower case: it contains `#`, or it starts with `javascript:`, `data:` or
   * `vbscript:`.
   */
  predicate SkippedInInternalCheck(url: string)
  {
    var lower := ToLower(url);
    Includes(lower, "#") || StartsWith(lower, "javascript:")
    || StartsWith(lower, "data:") || StartsWith(lower, "vbscript:")
  }

  /** An internal link, its resolved URL and what its request yielded (unused when skipped). */
  datatype InternalProbe = InternalProbe(link: Link, url: string, outcome: Outcome)

  function InternalProbes(links: seq<Link>, base: string, relative: (string, string) -> string,
                          outcomes: seq<Outcome>): (r: seq<InternalProbe>)
    requires |outcomes| == |links|
    ensures |r| == |links|
    ensures forall k :: 0 <= k < |links| ==>
      r[k] == InternalProbe(links[k], ResolveUrl(links[k].url, base, relative), outcomes[k])
  {
    if links == [] then []
    else
      var n := |links| - 1;
      InternalProbes(links[..n], base, relative, outcomes[..n])
      + [InternalProbe(links[n], ResolveUrl(links[n].url, base, relative), outcomes[n])]
  }

  predicate IsRequested(p: InternalProbe) { !SkippedInInternalCheck(p.url) }

  predicate IsBrokenInternal(p: InternalProbe) { !SkippedInInternalCheck(p.url) && !IsSuccess(p.outcome) }

  function InternalProbeUrl(p: InternalProbe): string { p.url }

  function InternalReport(p: InternalProbe): InternalBrokenLink
  {
    InternalBrokenLink(p.url, p.link.text, ErrorText(p.outcome))
  }

  /** The URLs the internal scenario sends a request for, in order. */
  function InternalRequested(links: seq<Link>, base: string, relative: (string, string) -> string,
                             outcomes: seq<Outcome>): seq<string>
    requires |outcomes| == |links|
  {
    Map(Filter(InternalProbes(links, base, relative, outcomes), IsRequested), InternalProbeUrl)
  }

  /** `brokenLinks` after the internal scenario's loop. */
  function InternalBroken(links: seq<Link>, base: string, relative: (string, string) -> string,
                          outcomes: seq<Outcome>): seq<InternalBrokenLink>
    requires |outcomes| == |links|
  {
    Map(Filter(InternalProbes(links, base, relative, outcomes), IsBrokenInternal), InternalReport)
  }

  lemma InternalProbesSnoc(links: seq<Link>, base: string, relative: (string, string) -> string,
                           outcomes: seq<Outcome>, i: nat)
    requires |outcomes| == |links| && i < |links|
    ensures InternalProbes(links[..i + 1], base, relative, outcomes[..i + 1])
      == InternalProbes(links[..i], base, relative, outcomes[..i])
         + [InternalProbe(links[i], ResolveUrl(links[i].url, base, relative), outcomes[i])]
  {
    assert links[..i + 1][..i] == links[..i];
    assert outcomes[..i + 1][..i] == outcomes[..i];
  }

  /**
   * The internal scenario's loop: each internal link is resolved; a skipped
   * URL is neither requested nor recorded; any other is requested, and a
   * status outside 200..399 or a thrown error records it as broken with the
   * link's text.
   */
  method CheckInternalLinks(links: seq<Link>, base: string, relative: (string, string) -> string,
                            responses: seq<Outcome>)
    returns (requested: seq<string>, broken: seq<InternalBrokenLink>)
    requires |responses| == |links|
    ensures requested == InternalRequested(links, base, relative, responses)
    ensures broken == InternalBroken(links, base, relative, responses)
  {
    requested, broken := [], [];
    for i := 0 to |links|
      invariant requested == InternalRequested(links[..i], base, relative, responses[..i])
      invariant broken == InternalBroken(links[..i], base, relative, responses[..i])
    {
      var link := links[i];
      var resolvedUrl := ResolveUrl(link.url, base, relative);
      InternalProbesSnoc(links, base, relative, responses, i);
      var probes := InternalProbes(links[..i], base, relative, responses[..i]);
      var probe := InternalProbe(link, resolvedUrl, responses[i]);
      FilterMapSnoc(probes, probe, IsRequested, InternalProbeUrl);
      FilterMapSnoc(probes, probe, IsBrokenInternal, InternalReport);
      var lowerUrl := ToLower(resolvedUrl);
      if Includes(lowerUrl, "#") || StartsWith(lowerUrl, "javascript:")
         || StartsWith(lowerUrl, "data:") || StartsWith(lowerUrl, "vbscript:") {
        continue;
      }
      requested := requested + [resolvedUrl];
      match responses[i]
      case Status(status) =>
        if status < 200 || status >= 400 {
          broken := broken + [InternalBrokenLink(resolvedUrl, link.text, "HTTP " + IntToDecimal(status))];
        }
      case Error(message) =>
        broken := broken + [InternalBrokenLink(resolvedUrl, link.text, message)];
    }
    assert links[..|links|] == links;
    assert responses[..|responses|] == responses;
  }

  /**
   * The internal scenario passes exactly when every link is either skipped
   * or answered with an accepted status.
   */
  lemma InternalVerdictIff(links: seq<Link>, base: string, relative: (string, string) -> string,
                           outcomes: seq<Outcome>)
    requires |outcomes| == |links|
    ensures InternalBroken(links, base, relative, outcomes) == [] <==>
      forall k :: 0 <= k < |links| ==>
        SkippedInInternalCheck(ResolveUrl(links[k].url, base, relative)) || IsSuccess(outcomes[k])
  {
    var probes := InternalProbes(links, base, relative, outcomes);
    FilterEmpty(probes, IsBrokenInternal);
  }

  /**
   * What the internal scenario records as broken: every requested link whose
   * request failed, with its resolved URL, its own text and the error text,
   * and nothing else.
   */
  lemma InternalBrokenFaithful(links: seq<Link>, base: string, relative: (string, string) -> string,
                               outcomes: seq<Outcome>)
    requires |outcomes| == |links|
    ensures forall k :: (0 <= k < |links|
      && !SkippedInInternalCheck(ResolveUrl(links[k].url, base, relative)) && !IsSuccess(outcomes[k])) ==>
      InternalBrokenLink(ResolveUrl(links[k].url, base, relative), links[k].text, ErrorText(outcomes[k]))
        in InternalBroken(links, base, relative, outcomes)
    ensures forall b :: b in InternalBroken(links, base, relative, outcomes) ==>
      exists k :: 0 <= k < |links|
        && !SkippedInInternalCheck(ResolveUrl(links[k].url, base, relative)) && !IsSuccess(outcomes[k])
        && b == InternalBrokenLink(ResolveUrl(links[k].url, base, relative), links[k].text, ErrorText(outcomes[k]))
  {
    var probes := InternalProbes(links, base, relative, outcomes);
    var bad := Filter(probes, IsBrokenInternal);
    var broken := InternalBroken(links, base, relative, outcomes);
    FilterMembership(probes, IsBrokenInternal);
    forall k | 0 <= k < |links|
      && !SkippedInInternalCheck(ResolveUrl(links[k].url, base, relative)) && !IsSuccess(outcomes[k])
      ensures InternalReport(probes[k]) in broken
    {
      assert probes[k] in probes;
      var i :| 0 <= i < |bad| && bad[i] == probes[k];
      assert broken[i] == InternalReport(probes[k]);
    }
    forall b | b in broken
      ensures exists k :: 0 <= k < |links| && IsBrokenInternal(probes[k]) && b == InternalReport(probes[k])
    {
      var i :| 0 <= i < |broken| && broken[i] == b;
      assert bad[i] in bad;
      var k :| 0 <= k < |probes| && probes[k] == bad[i];
    }
  }

  /**
   * The internal scenario requests exactly the links whose resolved URL is
   * not skipped, once per link: nothing is de-duplicated, so a URL is
   * requested as often as links resolve to it.
   */
  lemma InternalRequestedSpec(links: seq<Link>, base: string, relative: (string, string) -> string,
                              outcomes: seq<Outcome>)
    requires |outcomes| == |links|
    ensures forall u :: u in InternalRequested(links, base, relative, outcomes) ==> !SkippedInInternalCheck(u)
    ensures forall k :: 0 <= k < |links| && !SkippedInInternalCheck(ResolveUrl(links[k].url, base, relative)) ==>
      ResolveUrl(links[k].url, base, relative) in InternalRequested(links, base, relative, outcomes)
    ensures |InternalRequested(links, base, relative, outcomes)| <= |links|
  {
    var probes := InternalProbes(links, base, relative, outcomes);
    var req := Filter(probes, IsRequested);
    var requested := InternalRequested(links, base, relative, outcomes);
    FilterMembership(probes, IsRequested);
    forall u | u in requested ensures !SkippedInInternalCheck(u) {
      var i :| 0 <= i < |requested| && requested[i] == u;
      assert req[i] in req;
    }
    forall k | 0 <= k < |links| && !SkippedInInternalCheck(ResolveUrl(links[k].url, base, relative))
      ensures ResolveUrl(links[k].url, base, relative) in requested
    {
      assert probes[k] in probes;
      var i :| 0 <= i < |req| && req[i] == probes[k];
      assert requested[i] == probes[k].url;
    }
  }

  /** The resolved URL of every internal link, in order. */
  function ResolvedLinkUrls(links: seq<Link>, base: string, relative: (string, string) -> string): seq<string>
  {
    Map(links, (l: Link) => ResolveUrl(l.url, base, relative))
  }

  predicate NotSkipped(url: string) { !SkippedInInternalCheck(url) }

  /**
   * The internal scenario requests exactly the resolved URLs of the links
   * that are not skipped, one request per link, in the links' order,
   * whatever the responses are.
   */
  lemma {:induction false} InternalRequestedExact(links: seq<Link>, base: string,
                                                  relative: (string, string) -> string, outcomes: seq<Outcome>)
    requires |outcomes| == |links|
    ensures InternalRequested(links, base, relative, outcomes)
      == Filter(ResolvedLinkUrls(links, base, relative), NotSkipped)
    decreases |links|
  {
    if links != [] {
      var n := |links| - 1;
      InternalRequestedExact(links[..n], base, relative, outcomes[..n]);
      InternalProbesSnoc(links, base, relative, outcomes, n);
      assert links[..n + 1] == links && outcomes[..n + 1] == outcomes;
      var r := ResolveUrl(links[n].url, base, relative);
      FilterMapSnoc(InternalProbes(links[..n], base, relative, outcomes[..n]),
                    InternalProbe(links[n], r, outcomes[n]), IsRequested, InternalProbeUrl);
      assert ResolvedLinkUrls(links, base, relative) == ResolvedLinkUrls(links[..n], base, relative) + [r];
      FilterSnoc(ResolvedLinkUrls(links[..n], base, relative), r, NotSkipped);
    }
  }

  /**
   * The internal scenario does not de-duplicate: a URL that is not skipped
   * is requested exactly as often as links resolve to it, whatever their
   * text or raw href, and a skipped URL is never requested.
   */
  lemma InternalCheckKeepsDuplicates(links: seq<Link>, base: string, relative: (string, string) -> string,
                                     outcomes: seq<Outcome>, url: string)
    requires |outcomes| == |links|
    ensures multiset(InternalRequested(links, base, relative, outcomes))[url]
      == if SkippedInInternalCheck(url) then 0 else multiset(ResolvedLinkUrls(links, base, relative))[url]
  {
    InternalRequestedExact(links, base, relative, outcomes);
    FilterMultiplicity(ResolvedLinkUrls(links, base, relative), NotSkipped, url);
  }

  /**
   * The internal scenario over a page: take the internal links, check each,
   * and pass exactly when nothing is broken.
   */
  method ValidateInternalLinks(page: seq<Anchor>, base: string, relative: (string, string) -> string,
                               responses: seq<Outcome>)
    returns (requested: seq<string>, broken: seq<InternalBrokenLink>, passed: bool)
    requires |responses| == |InternalLinks(page)|
    ensures requested == Filter(ResolvedLinkUrls(InternalLinks(page), base, relative), NotSkipped)
    ensures broken == InternalBroken(InternalLinks(page), base, relative, responses)
    ensures passed <==> forall k :: 0 <= k < |responses| ==>
      SkippedInInternalCheck(ResolveUrl(InternalLinks(page)[k].url, base, relative)) || IsSuccess(responses[k])
  {
    var details := GetLinkDetails(page);
    var internalLinks := Map(Filter(details, IsInternalDetail), ToLink);
    requested, broken := CheckInternalLinks(internalLinks, base, relative, responses);
    passed := |broken| == 0;
    InternalRequestedExact(internalLinks, base, relative, responses);
    InternalVerdictIff(internalLinks, base, relative, responses);
  }

  /**
   * The fragment test of the skip rule finds `#` in the lower-cased URL
   * exactly when the URL as written has one, so any such URL is skipped.
   */
  lemma SkipRuleHash(url: string)
    ensures Includes(ToLower(url), "#") <==> '#' in url
    ensures '#' in url ==> SkippedInInternalCheck(url)
  {
    IncludesHashIgnoresCase(url);
    IncludesCharIff(url, '#');
  }

  /**
   * The skip rule ignores case: a URL is skipped exactly when it contains `#`
   * or begins, in any mix of upper and lower case, with `javascript:`,
   * `data:` or `vbscript:`.
   */
  lemma SkipRuleIgnoresCase(url: string)
    ensures SkippedInInternalCheck(url) <==>
      '#' in url || StartsWithIgnoringCase(url, "javascript:")
      || StartsWithIgnoringCase(url, "data:") || StartsWithIgnoringCase(url, "vbscript:")
  {
    SkipRuleHash(url);
    StartsWithLowerIff(url, "javascript:");
    StartsWithLowerIff(url, "data:");
    StartsWithLowerIff(url, "vbscript:");
  }

  /** On a URL without capital letters the skip rule reads the URL as written. */
  lemma SkipRuleOnLowerCase(url: string)
    requires forall k :: 0 <= k < |url| ==> !('A' <= url[k] <= 'Z')
    ensures SkippedInInternalCheck(url) <==>
      '#' in url || StartsWith(url, "javascript:") || StartsWith(url, "data:") || StartsWith(url, "vbscript:")
  {
    assert ToLower(url) == url;
    IncludesCharIff(url, '#');
  }

  /** `mailto:` and `tel:` URLs are requested by the internal scenario but dropped by the navigable filter. */
  lemma MailtoTelRequestedButNotNavigable()
    ensures !SkippedInInternalCheck("mailto:a") && !IsNavigable("mailto:a")
    ensures !SkippedInInternalCheck("tel:1") && !IsNavigable("tel:1")
  {
    NotNavigableByPrefix("mailto:a", "mailto:");
    SkipRuleOnLowerCase("mailto:a");
    assert "mailto:a"[..5][0] != "data:"[0];
    NotNavigableByPrefix("tel:1", "tel:");
    SkipRuleOnLowerCase("tel:1");
  }

  /** The internal skip rule ignores case; the navigable filter does not. */
  lemma MixedCaseJavascriptSkippedButNavigable()
    ensures SkippedInInternalCheck("Javascript:") && IsNavigable("Javascript:")
  {
    NavigableByFirstChar("Javascript:");
    assert StartsWithIgnoringCase("Javascript:", "javascript:") by {
      forall i | 0 <= i < 11 ensures LowerChar("Javascript:"[i]) == "javascript:"[i] {
        if i > 0 { assert "Javascript:"[i] == "javascript:"[i]; }
      }
    }
    StartsWithLowerIff("Javascript:", "javascript:");
  }

  /**
   * A `data:` URL and a URL with a fragment are skipped by the internal
   * scenario but kept by the navigable filter.
   */
  lemma DataAndFragmentSkippedButNavigable()
    ensures SkippedInInternalCheck("data:") && IsNavigable("data:")
    ensures SkippedInInternalCheck("/a#b") && IsNavigable("/a#b")
  {
    NavigableByFirstChar("data:");
    SkipRuleOnLowerCase("data:");
    NavigableByFirstChar("/a#b");
    SkipRuleOnLowerCase("/a#b");
  }
}
