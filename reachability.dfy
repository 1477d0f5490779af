/**
 * The link graph a crawl explores, and the set both traversal drivers must
 * end with: every URL reachable from the base page through in-domain anchors.
 */
module Reachability {
  import opened Lists
  import opened DomainMatcher
  import opened Pages

  /** The in-domain URLs the page at u links to: what inspectPage finds there with nothing visited. */
  function PageLinks(domain: string, web: Web, u: string): seq<string>
  {
    Candidates(domain, ExtractAnchors(DownloadWebPage(domain, web, u)), [])
  }

  /** A walk along links, each step from a page to one of its in-domain links. */
  ghost predicate IsPath(domain: string, web: Web, p: seq<string>)
    decreases |p|
  {
    || |p| == 1
    || (&& |p| > 1
        && IsPath(domain, web, p[..|p| - 1])
        && p[|p| - 1] in PageLinks(domain, web, p[|p| - 2]))
  }

  /** u is reached from a valid base page by following links. */
  ghost predicate Reachable(domain: string, web: Web, base: string, u: string)
  {
    && IsValidUrl(domain, base)
    && exists p :: IsPath(domain, web, p) && p[0] == base && p[|p| - 1] == u
  }

  ghost predicate AllReachable(domain: string, web: Web, base: string, s: seq<string>)
  {
    forall u :: u in s ==> Reachable(domain, web, base, u)
  }

  /** Every link of a page in visited is visited or still pending. */
  ghost predicate ClosedExcept(domain: string, web: Web, visited: seq<string>, pending: seq<string>)
  {
    forall u, x :: u in visited && x in PageLinks(domain, web, u) ==> x in visited || x in pending
  }

  /**
   * Pending URLs may be replaced by any list that covers the ones not yet
   * visited; URLs outside the domain may be dropped, as no page links to them.
   */
  lemma ClosedExceptCovered(domain: string, web: Web, visited: seq<string>, pending: seq<string>, pending': seq<string>)
    requires ClosedExcept(domain, web, visited, pending)
    requires forall x :: x in pending && IsValidUrl(domain, x) ==> x in visited || x in pending'
    ensures ClosedExcept(domain, web, visited, pending')
  {
    forall u, x | u in visited && x in PageLinks(domain, web, u)
      ensures x in visited || x in pending'
    {
      PageLinksInUniverse(domain, web, u, u, x);
    }
  }

  /** Every href on every page: a finite bound on what a crawl can ever visit. */
  ghost function AllHrefs(web: Web): set<string>
  {
    set u, e | u in web && e in web[u] :: e.href
  }

  ghost function Universe(web: Web, base: string): set<string>
  {
    {base} + AllHrefs(web)
  }

  /** The links of a page are hrefs of that page, all in the domain. */
  lemma PageLinksInUniverse(domain: string, web: Web, base: string, u: string, x: string)
    requires x in PageLinks(domain, web, u)
    ensures x in Universe(web, base) && IsValidUrl(domain, x)
  {
    var e :| e in ExtractAnchors(DownloadWebPage(domain, web, u)) && e.tagName == "a" && e.href == x;
    assert u in web && e in web[u];
  }

  /** A valid base page reaches itself. */
  lemma ReachableBase(domain: string, web: Web, base: string)
    requires IsValidUrl(domain, base)
    ensures Reachable(domain, web, base, base)
  {
    assert IsPath(domain, web, [base]);
  }

  /** Following one link from a reachable page reaches its target. */
  lemma ReachableStep(domain: string, web: Web, base: string, u: string, x: string)
    requires Reachable(domain, web, base, u)
    requires x in PageLinks(domain, web, u)
    ensures Reachable(domain, web, base, x)
  {
    var p :| IsPath(domain, web, p) && p[0] == base && p[|p| - 1] == u;
    PathSnoc(domain, web, p, x);
  }

  /** A walk extended by a link of its last page is a walk from the same page to that link. */
  lemma PathSnoc(domain: string, web: Web, p: seq<string>, x: string)
    requires IsPath(domain, web, p)
    requires x in PageLinks(domain, web, p[|p| - 1])
    ensures IsPath(domain, web, p + [x]) && (p + [x])[0] == p[0] && (p + [x])[|p + [x]| - 1] == x
  {
    SnocPrefix(p, x);
  }

  /** Reachable URLs are valid and within the finite universe of the crawl. */
  lemma ReachableInUniverse(domain: string, web: Web, base: string, u: string)
    requires Reachable(domain, web, base, u)
    ensures u in Universe(web, base) && IsValidUrl(domain, u)
  {
    var p :| IsPath(domain, web, p) && p[0] == base && p[|p| - 1] == u;
    if |p| > 1 {
      PageLinksInUniverse(domain, web, base, p[|p| - 2], u);
    }
  }

  /** Nothing is reachable from a base page outside the domain. */
  lemma ReachableNeedsValidBase(domain: string, web: Web, base: string, s: seq<string>)
    requires AllReachable(domain, web, base, s)
    ensures s != [] ==> IsValidUrl(domain, base)
  {
    if s != [] {
      assert Reachable(domain, web, base, s[0]);
    }
  }

  /** A walk that starts in a link-closed set stays in it. */
  lemma {:induction false} PathStaysInClosed(domain: string, web: Web, s: seq<string>, p: seq<string>)
    requires IsPath(domain, web, p) && p[0] in s
    requires ClosedExcept(domain, web, s, [])
    ensures p[|p| - 1] in s
  {
    if |p| > 1 {
      var init := p[..|p| - 1];
      assert IsPath(domain, web, init);
      PathStaysInClosed(domain, web, s, init);
      assert p[|p| - 1] in PageLinks(domain, web, p[|p| - 2]);
    }
  }

  /**
   * A duplicate-free list of reachable URLs that holds the base page and every
   * link of each of its pages holds exactly the reachable URLs.
   */
  lemma ClosedIsReachable(domain: string, web: Web, base: string, s: seq<string>)
    requires AllReachable(domain, web, base, s)
    requires IsValidUrl(domain, base) ==> base in s
    requires ClosedExcept(domain, web, s, [])
    ensures forall u :: u in s <==> Reachable(domain, web, base, u)
  {
    forall u | Reachable(domain, web, base, u) ensures u in s {
      var p :| IsPath(domain, web, p) && p[0] == base && p[|p| - 1] == u;
      PathStaysInClosed(domain, web, s, p);
    }
  }

  /** A duplicate-free list of reachable URLs has no more elements than the universe. */
  lemma ReachableListBounded(domain: string, web: Web, base: string, s: seq<string>)
    requires NoDup(s) && AllReachable(domain, web, base, s)
    ensures |s| <= |Universe(web, base)|
  {
    NoDupCard(s);
    forall u | u in Elems(s) ensures u in Universe(web, base) {
      ReachableInUniverse(domain, web, base, u);
    }
    SubsetCard(Elems(s), Universe(web, base));
  }

  /** A base page whose in-domain links lead nowhere else reaches only itself. */
  lemma IsolatedBase(domain: string, web: Web, base: string, u: string)
    requires forall x :: x in PageLinks(domain, web, base) ==> x == base
    requires Reachable(domain, web, base, u)
    ensures u == base
  {
    var p :| IsPath(domain, web, p) && p[0] == base && p[|p| - 1] == u;
    IsolatedPath(domain, web, base, p);
  }

  /** Every walk from an isolated base page ends at the base page. */
  lemma {:induction false} IsolatedPath(domain: string, web: Web, base: string, p: seq<string>)
    requires forall x :: x in PageLinks(domain, web, base) ==> x == base
    requires IsPath(domain, web, p) && p[0] == base
    ensures p[|p| - 1] == base
  {
    if |p| > 1 {
      var init := p[..|p| - 1];
      assert IsPath(domain, web, init) && init[0] == base;
      IsolatedPath(domain, web, base, init);
      assert init[|init| - 1] == p[|p| - 2];
      assert p[|p| - 1] in PageLinks(domain, web, base);
    }
  }

  /** A duplicate-free list holding exactly one URL is that one-element list. */
  lemma SingletonList(s: seq<string>, base: string)
    requires NoDup(s)
    requires forall u :: u in s <==> u == base
    ensures s == [base]
  {
    NoDupCard(s);
    assert Elems(s) == {base};
  }

  /**
   * What a finished crawl returns: a duplicate-free list of reachable URLs,
   * holding the base page and every link of its pages, is the reachable set;
   * it is empty for an invalid base page and [base] for an isolated one.
   */
  lemma FinishedCrawl(domain: string, web: Web, base: string, s: seq<string>)
    requires CrawlState(domain, web, base, s, [])
    ensures forall u :: u in s ==> IsValidUrl(domain, u)
    ensures forall u :: u in s <==> Reachable(domain, web, base, u)
    ensures !IsValidUrl(domain, base) ==> s == []
    ensures IsValidUrl(domain, base) && (forall x :: x in PageLinks(domain, web, base) ==> x == base) ==> s == [base]
  {
    ClosedIsReachable(domain, web, base, s);
    ReachableNeedsValidBase(domain, web, base, s);
    forall u | u in s ensures IsValidUrl(domain, u) {
      ReachableInUniverse(domain, web, base, u);
    }
    if IsValidUrl(domain, base) && (forall x :: x in PageLinks(domain, web, base) ==> x == base) {
      forall u | u in s ensures u == base {
        IsolatedBase(domain, web, base, u);
      }
      SingletonList(s, base);
    }
  }

  /**
   * The invariant both traversal drivers keep, for the visited list and the
   * URLs still pending (frontier or queued tasks): the visited list holds
   * each URL once, only reachable URLs are visited or pending (the base page
   * may be pending even when invalid), every link of a visited page is visited
   * or pending, and a valid base page is visited or pending.
   */
  ghost predicate CrawlState(domain: string, web: Web, base: string, visited: seq<string>, pending: seq<string>)
  {
    && NoDup(visited)
    && AllReachable(domain, web, base, visited)
    && (forall u :: u in pending ==> u == base || Reachable(domain, web, base, u))
    && ClosedExcept(domain, web, visited, pending)
    && (IsValidUrl(domain, base) ==> base in visited || base in pending)
  }

  /** The invariant holds at the start: nothing visited, the base page pending. */
  lemma CrawlStateInit(domain: string, web: Web, base: string, pending: seq<string>)
    requires forall u :: u in pending ==> u == base
    requires IsValidUrl(domain, base) ==> base in pending
    ensures CrawlState(domain, web, base, [], pending)
  {
  }

  /** Only the membership of the pending list matters. */
  lemma CrawlStateReorder(domain: string, web: Web, base: string, visited: seq<string>,
                          pending: seq<string>, pending': seq<string>)
    requires CrawlState(domain, web, base, visited, pending)
    requires forall x :: x in pending' <==> x in pending
    ensures CrawlState(domain, web, base, visited, pending')
  {
    ClosedExceptCovered(domain, web, visited, pending, pending');
  }

  /**
   * One claim-and-expand step keeps the invariant: url leaves the pending
   * list; if it is in the domain and not yet visited it is claimed, and its
   * links that are not visited are found and become pending.
   */
  lemma CrawlStateStep(domain: string, web: Web, base: string, visited: seq<string>, visited': seq<string>,
                       url: string, found: seq<string>, acc: seq<string>, rest: seq<string>, pending': seq<string>)
    requires CrawlState(domain, web, base, visited, acc + ([url] + rest))
    requires visited' == if IsValidUrl(domain, url) && url !in visited then visited + [url] else visited
    requires forall x :: x in found ==> x in PageLinks(domain, web, url)
    requires IsValidUrl(domain, url) && url !in visited ==>
      forall x :: x in PageLinks(domain, web, url) ==> x in visited' || x in found
    requires forall x :: x in pending' <==> x in acc || x in found || x in rest
    ensures CrawlState(domain, web, base, visited', pending')
  {
    var claimed := IsValidUrl(domain, url) && url !in visited;
    assert url == base || Reachable(domain, web, base, url);
    if claimed && url == base {
      ReachableBase(domain, web, base);
    }
    forall x | x in found ensures Reachable(domain, web, base, x) {
      ReachableStep(domain, web, base, url, x);
    }
    forall u, x | u in visited' && x in PageLinks(domain, web, u)
      ensures x in visited' || x in pending'
    {
      if u in visited {
        assert x in visited || x in acc + ([url] + rest);
        PageLinksInUniverse(domain, web, u, u, x);
      }
    }
  }
}
