# WebCrawler: a verified model of the crawler core

This project models `Crawler`, a same-domain web crawler from Reamso/WebCrawler. Given a domain and a base page, the crawler does three things:

- It follows every anchor whose absolute URL matches the domain's pattern.
- It records each page it visits once, in a shared visited list.
- It returns that list.

It has two traversal drivers:

- **Waves of parallel streams (`crawlFullParallelStream`).** The whole frontier is inspected, and the links it finds, merged without duplicates, become the next frontier.
- **Fork-join tasks (`compute`).** Every task claims its URL and submits one new task per link it finds.

The model runs both drivers sequentially over a fixed, finite web. It proves that each returns, without duplicates, exactly the in-domain URLs reachable from the base page. The two therefore agree, which is what the repository's equivalence test expects.

The modules are:

- `Wrappers`: `Option`. `None` stands for Java's `null`.
- `Lists`: the helpers for the Java lists.
  - `NoDup` means no element repeats.
  - `Distinct` is `stream().distinct().toList()` on an ordered stream: first occurrences, in encounter order.
  - `MergeLists` is `mergeLists`, with its order, associativity and unit laws.
- `DomainMatcher`: `isValid` and the compiled pattern `^http(s)?:\/\/<domain>(\/$|(\/[^\/]*)*$){1}`.
  - `IsValidUrl` is a plain string predicate.
  - `IsValidMatchesPattern` proves it equal to a transcription of the pattern's grammar, in which the path is a sequence of `/segment` pieces.
- `Pages`: what the crawler reads from a page.
  - A `Web` maps each URL to its document, a list of elements. A missing key is a download that throws `IOException`.
  - It holds `downloadWebPage`, `extractAnchors`, `extractUrlInDomain`, and the filter pipeline of `inspectPage` and `compute` (`Candidates`).
- `Reachability`: the link graph and the crawl invariant.
  - `Reachable` means there is a walk along in-domain links from a valid base page.
  - `CrawlState` is the invariant both drivers keep: the visited list has no duplicates and holds reachable URLs; every link of a visited page is visited or pending; a valid base page is visited or pending.
  - `FinishedCrawl` says what a finished crawl returns.
- `Crawling`: the state that changes in place.
  - `UrlList` is the shared `List<String>` of visited URLs.
  - `Pool` is the `ForkJoinPool`, a queue of submitted tasks.
  - `Crawler` has the source's fields and constructors, plus `InspectPage`, one wave, `CrawlFullParallelStream` and `Compute`.
  - The pool driver of `main` and the tests is `RunNextTask` and `ForkJoinCrawl`.
- `CrawlExamples`: the fixed webs of the repository's tests, with what the model says about them.

## Model

`IsValidUrl` and `IsValid` (isValid without and with null), `Reachable`, `CrawlState` and the other predicates are definitions; the rows below name the lemmas and methods whose contracts characterise them.

| member | source | states |
|---|---|---|
| DomainMatcher.IsValidMatchesPattern | src/java/web/crawler/Crawler.java:29-30 | A URL passes isValid exactly when the whole URL matches the compiled pattern: `http` or `https`, `://`, the domain read literally, then `/` alone or any number of `/segment` pieces with no `/` inside a segment |
| DomainMatcher.PathMatchesIff | src/java/web/crawler/Crawler.java:30 | The path group of the pattern (a lone `/` at the end, or any number of `/segment` pieces up to the end) accepts exactly the suffixes that are empty or start with `/` |
| DomainMatcher.SplitJoins | src/java/web/crawler/Crawler.java:30 | Every suffix that is empty or starts with `/` is a join of slash-free `/segment` pieces, so `(\/[^\/]*)*` accepts it |
| DomainMatcher.IsValidCases | src/java/web/crawler/Crawler.java:45-58 | isValid(null) is false, and isValid(url) of a non-null url holds exactly when url is `http://` or `https://`, the domain, then nothing or something starting with `/` |
| DomainMatcher.IsValidShape | src/java/web/crawler/Crawler.java:45-58 | isValid(url) holds exactly when url is `http://` or `https://`, the domain, then nothing or something starting with `/` |
| DomainMatcher.ValidHomePage | src/test/web/crawler/test/CrawlerTester.java:18-24 | `https://www.dorbit.space/` is valid for the domain `www.dorbit.space` |
| DomainMatcher.InvalidMisspeltHost | src/test/web/crawler/test/CrawlerTester.java:26-33 | `https://www.dorbit.spaace/` is not valid for `www.dorbit.space`, and isValid(null) is false |
| DomainMatcher.InvalidLookAlikeHost | src/java/web/crawler/Crawler.java:30 | A host that only starts with the domain (`example.com.evil.com`) is rejected, because the pattern must match up to a `/` or the end |
| Pages.DownloadWebPage | src/java/web/crawler/Crawler.java:60-75 | A document is returned exactly when the URL is valid and its download succeeds, and it is the page served there; otherwise null |
| Pages.AnchorsOf | src/java/web/crawler/Crawler.java:87 | getElementsByTag("a") holds exactly the document's elements whose tag is `a` |
| Pages.ExtractAnchors | src/java/web/crawler/Crawler.java:77-89 | A null document has no anchors; otherwise the anchors are exactly the document's elements with tag `a` |
| Pages.ExtractUrlInDomain | src/java/web/crawler/Crawler.java:91-106 | null exactly for a null or non-anchor element; for an anchor, its href when that is valid, and `""` otherwise |
| Pages.Candidates | src/java/web/crawler/Crawler.java:127-130 | The URLs kept by `map(extractUrlInDomain).filter(...)` are exactly the hrefs of anchors that are valid, not null, not `""` and not visited |
| Pages.EmptyIsInvalid | src/java/web/crawler/Crawler.java:129 | `""` never passes isValid, so the filter's `!url.equals("")` test drops no URL of the domain |
| Lists.Distinct | src/java/web/crawler/Crawler.java:131 | `distinct().toList()` returns a list without duplicates, holding exactly the input's elements, and no longer than the input |
| Lists.MergeLists | src/java/web/crawler/Crawler.java:158-167 | mergeLists returns a list without duplicates whose elements are exactly those of a and of b |
| Lists.MergeListsOrder | src/java/web/crawler/Crawler.java:163-166 | mergeLists keeps first-occurrence order: a's distinct elements, then b's distinct elements not in a |
| Lists.DistinctAppend | src/java/web/crawler/Crawler.java:163-166 | Deduplicating `a ++ b` gives a's distinct elements, then b's distinct elements not in a, in b's order |
| Lists.MergeListsAssociative | src/java/web/crawler/Crawler.java:152-153 | mergeLists is associative, so the wave's parallel reduce gives the same list whatever bracketing the stream picks |
| Lists.MergeListsIdentity | src/java/web/crawler/Crawler.java:153 | The reduce's seed, an empty list, is a left and right unit of mergeLists on lists without duplicates |
| Reachability.CrawlStateInit | src/java/web/crawler/Crawler.java:147-150 | Starting with nothing visited and only the base page pending (when it is valid) satisfies the crawl invariant |
| Reachability.CrawlStateStep | src/java/web/crawler/Crawler.java:117-131 | One claim-and-expand step keeps the crawl invariant: the URL leaves the pending list; if claimed, it is appended to visited and its unvisited links become pending |
| Reachability.ReachableListBounded | src/java/web/crawler/Crawler.java:151-154 | A visited list of reachable URLs without duplicates is no longer than the finite set of the web's URLs: the measure that makes the wave loop and the task loop terminate |
| Reachability.IsolatedBase | src/java/web/crawler/Crawler.java:147-155 | When every in-domain link of the base page is the base page itself, nothing else is reachable |
| Reachability.FinishedCrawl | src/java/web/crawler/Crawler.java:151-155 | A crawl with nothing left pending returns the reachable URLs, each once and each valid: none for an invalid base page, and only the base page when it has no other in-domain links |
| Crawling.UrlList.TryClaim | src/java/web/crawler/Crawler.java:119-124 | The synchronized check-then-insert: the claim succeeds exactly when the URL was not in the list, and only then is the URL appended |
| Crawling.UrlList.constructor | src/java/web/crawler/Crawler.java:31 | A new ArrayList of visited URLs is empty |
| Crawling.Pool.constructor | src/java/web/crawler/Crawler.java:220 | A new ForkJoinPool has no pending task |
| Crawling.Pool.Take | src/java/web/crawler/Crawler.java:169-170 | A worker takes the oldest pending task to run its compute(); that task leaves the queue and the others stay in order |
| Crawling.Pool.Execute | src/java/web/crawler/Crawler.java:199-201 | pool.execute appends the submitted task to the pending tasks |
| Crawling.Crawler.constructor | src/java/web/crawler/Crawler.java:27-34 | Crawler(domain) has a fresh, empty visited list, no pool and an empty base URL |
| Crawling.Crawler.Task | src/java/web/crawler/Crawler.java:36-43 | Crawler(domain, baseUrl, visitedUrls, pool) shares the given visited list and pool |
| Crawling.Crawler.InspectPage | src/java/web/crawler/Crawler.java:108-136 | For an invalid URL, a null visited list or an already visited URL, inspectPage returns an empty list and leaves visited as it was. Otherwise it appends curUrl once and returns the page's valid, unvisited links once each, in order. It never returns curUrl or `""`. Every link of the page ends up visited or returned, and a failed download returns nothing but still marks curUrl visited |
| Crawling.Crawler.InspectInto | src/java/web/crawler/Crawler.java:152-153 | One element of a wave, `map(inspectPage)` then `mergeLists` into the accumulated result: visited changes exactly as inspectPage changes it, and the result is mergeLists(next, inspectPage(url)) for the first pending url. It keeps the crawl invariant and the accumulator free of duplicates |
| Crawling.Crawler.Wave | src/java/web/crawler/Crawler.java:152-153 | One wave keeps the crawl invariant and returns the next frontier without duplicates. Visited keeps its old entries as a prefix, and grows whenever the wave returns a non-empty frontier |
| Crawling.Crawler.CrawlFullParallelStream | src/java/web/crawler/Crawler.java:138-156 | crawlFullParallelStream terminates and returns the reachable URLs, each once, all valid: an empty list for an invalid base page, and the base page alone when it has no other in-domain links |
| Crawling.Crawler.Compute | src/java/web/crawler/Crawler.java:169-205 | Without a visited list or a pool, nothing changes. Otherwise compute claims baseUrl as inspectPage does. If the claim succeeds, it submits one new task per valid unvisited link, in order and without deduplication, each sharing domain, visited list and pool; if not, it submits nothing |
| Crawling.RunNextTask | src/java/web/crawler/Crawler.java:184-204 | A worker takes the oldest task and runs its compute(). Visited changes exactly as that task's claim on its URL decides. The queue is the remaining tasks, in order, followed by one new task per valid unvisited link of the claimed page (none when the claim fails). The crawl invariant over the pending tasks' URLs is kept, visited keeps its old entries as a prefix, and visited grows or the queue shrinks |
| Crawling.ForkJoinCrawl | src/java/web/crawler/Crawler.java:222-235 | The fork-join traversal terminates. Its shared list ends as the reachable URLs, each once, all valid: empty for an invalid base page, and the base page alone when it has no other in-domain links |
| Crawling.ParallelStreamForkJoinEquivalence | src/test/web/crawler/test/CrawlerTester.java:216-243 | On the same web, both traversals return lists of the same size with the same elements |
| CrawlExamples.PointlessSitesOutside | src/test/web/crawler/test/CrawlerTester.java:141-152 | `http://www.blankwebsite.com/` is valid for `www.blankwebsite.com`, and `http://www.pointlesssites.com/` is not |
| CrawlExamples.BlankHomeLinks | src/test/web/crawler/test/CrawlerTester.java:84-95 | The blank website's home page has exactly one anchor, to pointlesssites, and no link in its domain |
| CrawlExamples.BlankWebsiteCrawl | src/test/web/crawler/test/CrawlerTester.java:141-154 | On the blank website, inspectPage of the home page finds nothing (as in inspectPageT1), and both traversals return the home page alone (as in crawlFullParallelStreamT2 and forkJoinT2) |
| CrawlExamples.ReadmeOutsideItself | src/test/web/crawler/test/CrawlerTester.java:97-105 | With the README URL as its own domain, that URL is invalid, nothing is downloaded and there are no anchors |
| CrawlExamples.ReadmeInspect | src/test/web/crawler/test/CrawlerTester.java:117-124 | inspectPage of the README URL with itself as domain finds nothing and visits nothing |

## Left out

- Downloading and parsing are not modelled: `Jsoup.connect(url).get()`, `getElementsByTag` and `attr("abs:href")` belong to the HTML library and the network. The web is a fixed map from URL to the page's elements, in document order. Each element carries its tag name and its href, already resolved to an absolute URL. An `IOException` is a URL missing from the map.
- Concurrency is not modelled. Each synchronized block is one atomic step, and everything else runs sequentially in encounter order: the parallel streams, the filter's reads of the visited list while other tasks add to it, and the pool's worker threads. With a real parallel stream, a URL claimed by another page of the same wave can still pass this page's filter, so the frontier may hold a URL that is already visited. Its claim then fails, so visited and the final result are the same.
- Crawling.Crawler.Wave: states the invariant it keeps and the progress it makes, not the exact next frontier. The parallel reduce is modelled as a left-to-right fold; `MergeListsAssociative` and `MergeListsIdentity` show that any bracketing the stream picks gives the same list.
- Crawling.Crawler.CrawlFullParallelStream: the result is stated as a set (reachable URLs, each once), not as a particular order of visits. The same holds for Crawling.ForkJoinCrawl.
- Crawling.Pool: the `ForkJoinPool` is a first-in first-out queue of tasks. `compute`'s `forEach` submits in encounter order; the real pool and a parallel `forEach` may use any order. The results are proved as sets, so the order does not change what the model claims.
- Crawling.ForkJoinCrawl: runs tasks until none is pending. `main` and the tests instead wait until `getActiveThreadCount()` reads 0, polled once a second. That wait, and its timing, are not modelled.
- Domains with regex metacharacters other than `.` are not modelled. Only `.` is escaped when the pattern is built, and the model reads the domain literally.
- The `pattern` field is not a field of the model; it is a function of `domain`, and `IsValidUrl` stands for it.
- Crawling.Crawler.InspectPage: curUrl is a string, not a nullable one, so inspectPage(null, visited) is not modelled. isValid(null) is false (`DomainMatcher.IsValid`), so the source returns an empty list there. The same holds for the basePage of Crawling.Crawler.CrawlFullParallelStream, and for the baseUrl a task is built with: Crawling.Crawler.Compute does nothing for a null baseUrl in the source (isValid(null) is false), while the model's baseUrl is always a string.
- `main` is not modelled beyond the crawl itself: its timing, printing and thread-count choice are left out. Its final comparison is `ParallelStreamForkJoinEquivalence`.
- The tests' assertions on the downloaded HTML text (`downloadWebPageT1`) are not modelled, since they depend on the live page.
