# Industry page link validation — a Dafny model

The repository is a Playwright suite that opens the industry page of
criticalriver.com, collects its hyperlinks and checks that each one answers
with a successful HTTP status. Around the browser and network calls sit a
page object, `IndustryPage`, and a spec file with the validation scenarios.
This project models the logic between those calls.

- **Link extraction.** `getAllLinkUrls` and `getLinkDetails` are loops over
  the page's anchors (`GetAllLinkUrls`, `GetLinkDetails`). Each is proved
  equal to a filter-then-map specification (`LinkUrls`, `LinkDetails`).
- **Classification and the navigable filter.** `isExternal`, the
  internal/external split and `filterNavigableLinks` are functions, each
  with lemmas for the properties it promises.
- **Resolution.** `resolveUrl` passes an absolute `http://` or `https://`
  URL through unchanged. Relative resolution against the page's URL
  (`new URL(url, base)`) is a function the caller supplies (`relative`).
- **The validation loop.** The spec's loops are modelled as methods proved
  against filter/map specifications:
  - order-preserving de-duplication (`ResolveUnique`);
  - the check loop (`CheckLinks`);
  - the internal-only loop (`CheckInternalLinks`) and its scenario over a
    page (`ValidateInternalLinks`).

  Lemmas state the verdict, the partition into successful and broken links,
  and how the internal variant's skip rule differs from the navigable
  filter.

The page is the sequence of its anchors, each with an optional `href` and an
optional inner text (`None` when `innerText()` fails). The HTTP client is an
oracle whose entries are `Status(code)` or `Error(message)`. In the scenario
over all navigable links, `responses[k]` is what the request for the k-th
unique resolved URL yields. In the internal scenario, `responses[k]` belongs
to the k-th internal link and goes unused when that link is skipped.

The modules are:

- `Seqs` (`seqs.dfy`): filter, map, order-preserving de-duplication and
  their laws.
- `Text` (`text.dfy`): the JavaScript string operations the code uses.
  These are `startsWith`, `includes`, `trim`, `toLowerCase`, the decimal
  rendering of a number in a template literal, and `join`.
- `IndustryPage` (`industry_page.dfy`): the page object.
- `IndustryLinks` (`industry_links.dfy`): the link validation scenarios.

The external-link rule follows the code, not a host comparison. A link is
external when its raw `href` starts with `http` and contains
`criticalriver.com` nowhere, so that text in the path or query also makes a
link internal (`DomainAnywhereIsInternal`). `http` is a prefix test, not a
scheme test.

## Model

| member | source | states |
|---|---|---|
| IndustryPage.GetAllLinkUrls | tests/e2e/pageObjects/IndustryPage.ts:39-51 | The loop returns exactly the truthy hrefs of the anchors, in anchor order. Its length is the number of anchors with a non-empty href, which is at most the number of anchors. Every returned URL is non-empty. |
| IndustryPage.GetLinkDetails | tests/e2e/pageObjects/IndustryPage.ts:56-77 | The loop returns one record per anchor with a truthy href, in order, and no other records. |
| IndustryPage.DetailsMatchUrls | tests/e2e/pageObjects/IndustryPage.ts:60-73 | There is one detail record per URL of `getAllLinkUrls`, at the same position. Its url is that raw href and is non-empty. Its `isExternal` is the classification of that url. Its text is the trimmed inner text of the anchor, or `""` when reading the text failed. |
| IndustryPage.IsExternalIff | tests/e2e/pageObjects/IndustryPage.ts:66 | A link is external iff its href starts with `http` and the reference domain occurs at no position of it. An href not starting with `http` is internal. |
| IndustryPage.DomainAnywhereIsInternal | tests/e2e/pageObjects/IndustryPage.ts:66 | Any href containing `criticalriver.com`, wherever it occurs, is internal. |
| IndustryPage.InternalExternalPartition | tests/e2e/pageObjects/IndustryPage.ts:116-131 | The internal and external lists are order-preserving subsequences of the records with url and text kept. Their lengths add up to the number of records. Together they hold every record exactly as often as it occurs. |
| IndustryPage.InternalExternalClassified | tests/e2e/pageObjects/IndustryPage.ts:116-131 | Every internal link's url is classified internal, and every external link's url is classified external. |
| IndustryPage.FilterNavigableSpec | tests/e2e/pageObjects/IndustryPage.ts:136-147 | A URL is kept iff it occurs in the input, has a non-whitespace character, is not `/`, and does not start (case-sensitively) with `#`, `javascript:`, `mailto:` or `tel:`. The output is an order-preserving subsequence of the input. |
| IndustryPage.FilterNavigableKeepsDuplicates | tests/e2e/pageObjects/IndustryPage.ts:137 | A kept URL occurs in the output exactly as often as in the input. A dropped URL does not occur at all. |
| IndustryPage.FilterNavigableIdempotent | tests/e2e/pageObjects/IndustryPage.ts:136-147 | Filtering the output a second time changes nothing. |
| IndustryPage.NavigableByFirstChar | tests/e2e/pageObjects/IndustryPage.ts:139-145 | A URL other than `/` is navigable when its first character is not whitespace and is none of `#`, `j`, `m`, `t`. |
| IndustryPage.FilterNavigableExample | tests/e2e/pageObjects/IndustryPage.ts:136-147 | Of `#a`, `javascript:void(0)`, `mailto:x@y.com`, `tel:123`, `/`, `/page` and two spaces, only `/page` is kept. |
| IndustryPage.ExamplePageUrls | tests/e2e/specs/example.spec.ts:16-20 | On the five-anchor demonstration page, every anchor yields its href, in order. |
| IndustryPage.ExamplePageNavigable | tests/e2e/specs/example.spec.ts:16-20 | On the demonstration page, the navigable filter keeps exactly `http://example.com` and `/internal`. |
| IndustryPage.ResolveUrl | tests/e2e/pageObjects/IndustryPage.ts:152-160 | An absolute `http://` or `https://` URL is returned unchanged. Any other URL is handed to the resolver with the page's URL. |
| IndustryPage.ResolveUrlIdempotent | tests/e2e/pageObjects/IndustryPage.ts:152-160 | Resolving twice is resolving once, for any resolver that returns its own non-http(s) results (such as `mailto:` or `data:` URLs) unchanged. |
| Text.StartsWithLowerIff | tests/e2e/specs/industry-links.spec.ts:160-162 | `toLowerCase().startsWith(p)` holds iff the string's first `|p|` characters fold, letter by letter, to `p`. |
| Text.IncludesIffOccurs | tests/e2e/pageObjects/IndustryPage.ts:66 | The left-to-right `includes` scan is true iff the substring occurs at some position. |
| Text.TrimSpec | tests/e2e/pageObjects/IndustryPage.ts:70 | `trim()` returns the piece of the string that remains after its leading and trailing whitespace: everything before and after that piece is whitespace, and the piece neither starts nor ends with whitespace. It is empty iff the string is all whitespace. |
| Text.IntToDecimalRoundTrip | tests/e2e/specs/industry-links.spec.ts:109 | The decimal rendering of any integer status is well formed and reads back to the same integer. |
| Text.JoinIncludesEach | tests/e2e/specs/industry-links.spec.ts:141 | Every piece of a `join` occurs in the joined string. |
| Seqs.DedupSpec | tests/e2e/specs/industry-links.spec.ts:73-79 | The de-duplicated list has no repetitions and holds exactly the input's values. They are listed in the order of their first occurrence. |
| IndustryLinks.ResolveUnique | tests/e2e/specs/industry-links.spec.ts:73-79 | The loop returns the de-duplication of the resolved navigable URLs. The result has no repetitions. Every resolved URL appears in it and nothing else does. Its order is that of first occurrence. |
| IndustryLinks.ErrorTextNamesStatus | tests/e2e/specs/industry-links.spec.ts:107-110 | The error text of a failed status is `HTTP ` followed by a decimal number that reads back to the status. |
| IndustryLinks.CheckLinks | tests/e2e/specs/industry-links.spec.ts:88-123 | The loop returns exactly the successful and the broken records of the specification. Their lengths add up to the number of URLs checked. |
| IndustryLinks.CheckCountsAddUp | tests/e2e/specs/industry-links.spec.ts:88-123 | Every checked URL is counted once: the successful and broken lists are together as long as the input. |
| IndustryLinks.SuccessfulIff | tests/e2e/specs/industry-links.spec.ts:100-104 | A URL of a list without repetitions is successful iff its status is in 200..399. |
| IndustryLinks.BrokenIff | tests/e2e/specs/industry-links.spec.ts:105-119 | A URL of a list without repetitions is among the broken URLs iff it did not get a status in 200..399. That covers another status and a thrown error. |
| IndustryLinks.ExactlyOneList | tests/e2e/specs/industry-links.spec.ts:88-123 | Each URL of a list without repetitions lands in exactly one of the two lists. |
| IndustryLinks.BrokenRecordsFaithful | tests/e2e/specs/industry-links.spec.ts:100-119 | Every failed URL is recorded broken, with `HTTP <status>` or the error's message as its error. Every broken record is such a URL. |
| IndustryLinks.VerdictIff | tests/e2e/specs/industry-links.spec.ts:140-142 | The scenario passes iff every request returned a status in 200..399. |
| IndustryLinks.FailureMessageNamesEach | tests/e2e/specs/industry-links.spec.ts:140-142 | The failure message names every broken URL. |
| IndustryLinks.ValidateNavigableLinks | tests/e2e/specs/industry-links.spec.ts:60-143 | The scenario collects the hrefs, keeps the navigable ones, resolves and de-duplicates them, then checks each. Each unique URL lands in exactly one of the two lists, and their sizes add up. It passes iff every response is a status in 200..399. |
| IndustryLinks.SkipRuleHash | tests/e2e/specs/industry-links.spec.ts:160-164 | The lower-cased URL contains `#` iff the URL as written does, and any such URL is skipped. |
| IndustryLinks.SkipRuleIgnoresCase | tests/e2e/specs/industry-links.spec.ts:160-164 | A URL is skipped iff it contains `#` or begins, in any mix of cases, with `javascript:`, `data:` or `vbscript:`. |
| IndustryLinks.CheckInternalLinks | tests/e2e/specs/industry-links.spec.ts:155-197 | The loop requests exactly the links whose resolved URL is not skipped, in order. It records broken, with the link's text, exactly those whose status is outside 200..399 or whose request threw. |
| IndustryLinks.ValidateInternalLinks | tests/e2e/specs/industry-links.spec.ts:145-214 | The scenario takes the page's internal links, as `getInternalLinks()` does. It requests the resolved URL of each link that is not skipped, once per link and in order. It records the broken ones as the internal loop does. It passes iff every link is skipped or answered with a status in 200..399. |
| IndustryLinks.InternalVerdictIff | tests/e2e/specs/industry-links.spec.ts:174-193 | No internal link is broken iff every link is skipped or answered with a status in 200..399. |
| IndustryLinks.InternalBrokenFaithful | tests/e2e/specs/industry-links.spec.ts:174-193 | Every requested link that failed is recorded with its resolved URL, its own text and its error text. Every broken record is such a link. |
| IndustryLinks.InternalRequestedExact | tests/e2e/specs/industry-links.spec.ts:155-172 | The requested URLs are exactly the resolved URLs of the links, in order, with the skipped ones removed: one request per link that is not skipped, whatever the responses. |
| IndustryLinks.InternalRequestedSpec | tests/e2e/specs/industry-links.spec.ts:155-172 | Only URLs that are not skipped are requested, and every link whose resolved URL is not skipped is requested. There are at most as many requests as links. |
| IndustryLinks.InternalCheckKeepsDuplicates | tests/e2e/specs/industry-links.spec.ts:155-172 | Nothing is de-duplicated. A URL that is not skipped is requested exactly as often as links resolve to it, whatever their texts or raw hrefs. A skipped URL is never requested. |
| IndustryLinks.MailtoTelRequestedButNotNavigable | tests/e2e/specs/industry-links.spec.ts:160-164 | `mailto:` and `tel:` URLs are requested by the internal scenario but dropped by the navigable filter. |
| IndustryLinks.MixedCaseJavascriptSkippedButNavigable | tests/e2e/specs/industry-links.spec.ts:160-164 | The skip rule ignores case: `Javascript:` is skipped, yet the case-sensitive navigable filter keeps it. |
| IndustryLinks.DataAndFragmentSkippedButNavigable | tests/e2e/specs/industry-links.spec.ts:160-164 | A `data:` URL, and a URL with `#` after its first character, are skipped by the internal scenario but kept by the navigable filter. |

## Left out

- ValidateInternalLinks: the message attached to its expectation (`Found N broken internal link(s)`) is not modelled. It carries only the count, which is `|broken|`.
- Browser navigation and page readiness are not modelled. This covers `goto`, `isLoaded`, `getTitle`, `verifyTitle` and `hasLink`, which are direct calls into Playwright. The page is given as its sequence of anchors.
- `getAllLinks` is left out. It is a CSS-selector query whose result is the anchor sequence the model takes as input.
- The page-load test and the link-listing test are left out. The page-load test expects `isLoaded()` and a non-empty title. The link-listing test logs counts and expects at least one anchor.
- The relative branch of `resolveUrl` is a function parameter. That branch is `new URL(url, base)`, the WHATWG URL parser, and includes the exception it throws on an unparsable URL. Such an exception would abort the scenario; the model does not represent it.
- The HTTP requests are an oracle of outcomes: one per unique resolved URL in the scenario over all navigable links, one per internal link (unused when skipped) in the internal scenario. This leaves out their timeout, redirect limit and `failOnStatusCode` options.
- An error that is not an `Error` object is left out. The code renders it with `String(error)`; in the model the oracle supplies the message text directly.
- The `waitForTimeout(100)` pacing and all `console.log` output are timing and I/O. They are not modelled.
- Text.ToLower: folds ASCII capitals only. JavaScript's `toLowerCase` folds all of Unicode, but no non-ASCII character lower-cases to `#` or into a prefix the skip rule tests, so the skip decisions are the same.
- Strings are sequences of Unicode scalar values, not JavaScript's UTF-16 code units. The prefix and substring tests decide the same, but lengths of strings with astral characters differ.
- tests/e2e/helpers/mcp.ts is not part of this model. It reads environment variables and logs.
- tests/e2e/fixtures.ts is not part of this model. It is test-runner fixture wiring.
