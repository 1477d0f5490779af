/**
 * The crawler: the shared visited list, the claim-and-expand step, and the two
 * traversal drivers (waves of parallel streams, and fork-join tasks), run
 * sequentially. Both end with exactly the URLs reachable from the base page.
 */
module Crawling {
  import opened Lists
  import opened DomainMatcher
  import opened Pages
  import opened Reachability

  /** A java.util.List<String> of URLs shared by reference: the visited list. */
  class UrlList {
    var items: seq<string>

    constructor ()
      ensures items == []
    {
      items := [];
    }

    /**
     * The synchronized block of inspectPage and compute: contains, then add
     * when absent. claimed is the negation of the source's `semaphore`.
     */
    method TryClaim(url: string) returns (claimed: bool)
      modifies this
      ensures claimed <==> url !in old(items)
      ensures items == if claimed then old(items) + [url] else old(items)
    {
      claimed := url !in items;
      if claimed {
        items := items + [url];
      }
    }
  }

  /** The ForkJoinPool, as the queue of submitted tasks not yet run. */
  class Pool {
    var tasks: seq<Crawler>

    constructor ()
      ensures tasks == []
    {
      tasks := [];
    }

    /** ForkJoinPool.execute: submit a task. */
    method Execute(task: Crawler)
      modifies this
      ensures tasks == old(tasks) + [task]
    {
      tasks := tasks + [task];
    }

    /** A worker picks up the oldest pending task. */
    method Take() returns (task: Crawler)
      requires tasks != []
      modifies this
      ensures task == old(tasks)[0] && tasks == old(tasks)[1..]
    {
      task := tasks[0];
      tasks := tasks[1..];
    }
  }

  /** The base URLs of a list of tasks. */
  function TaskUrls(tasks: seq<Crawler>): seq<string>
  {
    seq(|tasks|, i requires 0 <= i < |tasks| => tasks[i].baseUrl)
  }

  /**
   * The URLs of the oldest task and of the others, written with an empty
   * prefix to match the acc + ([url] + rest) shape that CrawlStateStep expects.
   */
  lemma TaskUrlsCons(tasks: seq<Crawler>)
    requires tasks != []
    ensures TaskUrls(tasks) == [] + ([tasks[0].baseUrl] + TaskUrls(tasks[1..]))
  {
  }

  /** The URLs of two task lists one after the other. */
  lemma TaskUrlsAppend(a: seq<Crawler>, b: seq<Crawler>)
    ensures TaskUrls(a + b) == TaskUrls(a) + TaskUrls(b)
  {
  }

  class Crawler {
    const domain: string
    /** The web the crawler downloads from (Jsoup.connect(url).get()). */
    const web: Web
    const visitedUrls: UrlList?
    const pool: Pool?
    const baseUrl: string

    /** Crawler(String domain). */
    constructor (domain: string, web: Web)
      ensures this.domain == domain && this.web == web
      ensures visitedUrls != null && fresh(visitedUrls) && visitedUrls.items == []
      ensures pool == null && baseUrl == ""
    {
      this.domain := domain;
      this.web := web;
      this.visitedUrls := new UrlList();
      this.pool := null;
      this.baseUrl := "";
    }

    /** Crawler(domain, baseUrl, visitedUrls, pool): one task of the fork-join traversal. */
    constructor Task(domain: string, web: Web, baseUrl: string, visitedUrls: UrlList?, pool: Pool?)
      ensures this.domain == domain && this.web == web && this.baseUrl == baseUrl
      ensures this.visitedUrls == visitedUrls && this.pool == pool
    {
      this.domain := domain;
      this.web := web;
      this.visitedUrls := visitedUrls;
      this.pool := pool;
      this.baseUrl := baseUrl;
    }

    /** The claim on url succeeds: url is in the domain and nobody visited it yet. */
    predicate Claims(visited: seq<string>, url: string)
    {
      IsValidUrl(domain, url) && url !in visited
    }

    /** t works on the same domain, web, visited list and pool as this crawler. */
    predicate SharesWith(t: Crawler)
    {
      t.domain == domain && t.web == web && t.visitedUrls == visitedUrls && t.pool == pool
    }

    /**
     * Crawler.inspectPage: claim curUrl in visited, then return the in-domain
     * links of its page that are not visited, without repetitions.
     */
    method InspectPage(curUrl: string, visited: UrlList?) returns (found: seq<string>)
      modifies visited
      ensures visited != null ==>
        visited.items == if Claims(old(visited.items), curUrl) then old(visited.items) + [curUrl] else old(visited.items)
      ensures found ==
        if visited != null && Claims(old(visited.items), curUrl)
        then Distinct(Candidates(domain, ExtractAnchors(DownloadWebPage(domain, web, curUrl)), visited.items))
        else []
      ensures NoDup(found)
      ensures forall u :: u in found ==>
        && IsValidUrl(domain, u) && u != ""
        && u in PageLinks(domain, web, curUrl)
        && visited != null && u !in visited.items
      ensures curUrl !in found
      ensures visited != null && Claims(old(visited.items), curUrl) ==>
        forall x :: x in PageLinks(domain, web, curUrl) ==> x in visited.items || x in found
      ensures visited != null && Claims(old(visited.items), curUrl) && curUrl !in web ==> found == []
    {
      found := [];
      if IsValidUrl(domain, curUrl) && visited != null {
        var claimed := visited.TryClaim(curUrl);
        if claimed {
          var d := DownloadWebPage(domain, web, curUrl);
          found := Distinct(Candidates(domain, ExtractAnchors(d), visited.items));
        }
      }
    }

    /**
     * One wave of crawlFullParallelStream:
     * toVisit.parallelStream().distinct().map(inspectPage).reduce([], mergeLists),
     * run in encounter order (mergeLists is associative, see MergeListsAssociative).
     * basePage only names the crawl the invariant is about.
     */
    method Wave(ghost basePage: string, toVisit: seq<string>, visited: UrlList) returns (next: seq<string>)
      requires CrawlState(domain, web, basePage, visited.items, toVisit)
      modifies visited
      ensures CrawlState(domain, web, basePage, visited.items, next)
      ensures NoDup(next)
      ensures old(visited.items) <= visited.items
      ensures next != [] ==> |old(visited.items)| < |visited.items|
    {
      var pending := Distinct(toVisit);
      next := [];
      CrawlStateReorder(domain, web, basePage, visited.items, toVisit, next + pending);
      while pending != []
        invariant CrawlState(domain, web, basePage, visited.items, next + pending)
        invariant NoDup(next)
        invariant old(visited.items) <= visited.items
        invariant next != [] ==> |old(visited.items)| < |visited.items|
        decreases |pending|
      {
        next := InspectInto(basePage, next, pending, visited);
        pending := pending[1..];
      }
      CrawlStateReorder(domain, web, basePage, visited.items, next + pending, next);
    }

    /**
     * One element of a wave: inspectPage on the first URL still pending in the
     * frontier, its result merged into the links the wave has found so far
     * (mergeLists(next, found)).
     */
    method InspectInto(ghost basePage: string, next: seq<string>, pending: seq<string>, visited: UrlList)
      returns (merged: seq<string>)
      requires pending != []
      requires CrawlState(domain, web, basePage, visited.items, next + pending)
      requires NoDup(next)
      modifies visited
      ensures visited.items ==
        if Claims(old(visited.items), pending[0]) then old(visited.items) + [pending[0]] else old(visited.items)
      ensures merged == MergeLists(next,
        if Claims(old(visited.items), pending[0])
        then Distinct(Candidates(domain, ExtractAnchors(DownloadWebPage(domain, web, pending[0])), visited.items))
        else [])
      ensures CrawlState(domain, web, basePage, visited.items, merged + pending[1..])
      ensures NoDup(merged)
      ensures merged != [] ==> next != [] || |old(visited.items)| < |visited.items|
    {
      ghost var before := visited.items;
      var url := pending[0];
      FirstRest(pending);
      var found := InspectPage(url, visited);
      CrawlStateStep(domain, web, basePage, before, visited.items, url, found, next, pending[1..],
                     MergeLists(next, found) + pending[1..]);
      merged := MergeLists(next, found);
    }

    /**
     * Crawler.crawlFullParallelStream: waves over the frontier until a wave
     * finds nothing new; returns the visited list.
     */
    method CrawlFullParallelStream(basePage: string) returns (result: seq<string>)
      ensures NoDup(result)
      ensures forall u :: u in result ==> IsValidUrl(domain, u)
      ensures forall u :: u in result <==> Reachable(domain, web, basePage, u)
      ensures !IsValidUrl(domain, basePage) ==> result == []
      ensures IsValidUrl(domain, basePage) && (forall x :: x in PageLinks(domain, web, basePage) ==> x == basePage) ==>
        result == [basePage]
    {
      var toVisit: seq<string> := [];
      var visited := new UrlList();
      if IsValidUrl(domain, basePage) {
        toVisit := [basePage];
      }
      CrawlStateInit(domain, web, basePage, toVisit);
      ghost var universe := Universe(web, basePage);
      while toVisit != []
        invariant CrawlState(domain, web, basePage, visited.items, toVisit)
        invariant |visited.items| <= |universe|
        decreases |universe| - |visited.items|, if toVisit == [] then 0 else 1
      {
        toVisit := Wave(basePage, toVisit, visited);
        ReachableListBounded(domain, web, basePage, visited.items);
      }
      result := visited.items;
      FinishedCrawl(domain, web, basePage, result);
    }

    /**
     * Crawler.compute: claim baseUrl in the shared visited list, then submit a
     * task to the pool for every in-domain link of its page that is not
     * visited. Unlike inspectPage there is no distinct(): a link written twice
     * spawns two tasks. Without a visited list or a pool, or for a URL outside
     * the domain, nothing changes.
     */
    method Compute()
      modifies visitedUrls, pool
      ensures visitedUrls == null || pool == null ==>
        (visitedUrls != null ==> visitedUrls.items == old(visitedUrls.items)) &&
        (pool != null ==> pool.tasks == old(pool.tasks))
      ensures visitedUrls != null && pool != null ==>
        && visitedUrls.items ==
             (if Claims(old(visitedUrls.items), baseUrl) then old(visitedUrls.items) + [baseUrl] else old(visitedUrls.items))
        && |old(pool.tasks)| <= |pool.tasks|
        && pool.tasks[..|old(pool.tasks)|] == old(pool.tasks)
        && TaskUrls(pool.tasks[|old(pool.tasks)|..]) ==
             (if Claims(old(visitedUrls.items), baseUrl)
              then Candidates(domain, ExtractAnchors(DownloadWebPage(domain, web, baseUrl)), visitedUrls.items)
              else [])
        && forall t :: t in pool.tasks[|old(pool.tasks)|..] ==> fresh(t) && SharesWith(t)
    {
      if visitedUrls != null && IsValidUrl(domain, baseUrl) && pool != null {
        var claimed := visitedUrls.TryClaim(baseUrl);
        if claimed {
          var d := DownloadWebPage(domain, web, baseUrl);
          var urls := Candidates(domain, ExtractAnchors(d), visitedUrls.items);
          ghost var pending := pool.tasks;
          for k := 0 to |urls|
            invariant visitedUrls.items == old(visitedUrls.items) + [baseUrl]
            invariant |pool.tasks| == |pending| + k && pool.tasks[..|pending|] == pending
            invariant TaskUrls(pool.tasks[|pending|..]) == urls[..k]
            invariant forall t :: t in pool.tasks[|pending|..] ==> fresh(t) && SharesWith(t)
          {
            ghost var tasks := pool.tasks;
            var child := new Crawler.Task(domain, web, urls[k], visitedUrls, pool);
            pool.Execute(child);
            assert pool.tasks[|pending|..] == tasks[|pending|..] + [child];
            assert urls[..k + 1] == urls[..k] + [urls[k]];
          }
        }
      }
    }
  }

  /**
   * A worker of the pool takes the oldest pending task and runs it. root is
   * the first task of the crawl: every pending task shares its domain, web,
   * visited list and pool.
   */
  method RunNextTask(root: Crawler)
    requires root.visitedUrls != null && root.pool != null && root.pool.tasks != []
    requires forall t :: t in root.pool.tasks ==> root.SharesWith(t)
    requires CrawlState(root.domain, root.web, root.baseUrl, root.visitedUrls.items, TaskUrls(root.pool.tasks))
    modifies root.visitedUrls, root.pool
    ensures forall t :: t in root.pool.tasks ==> root.SharesWith(t)
    ensures CrawlState(root.domain, root.web, root.baseUrl, root.visitedUrls.items, TaskUrls(root.pool.tasks))
    ensures root.visitedUrls.items ==
      if root.Claims(old(root.visitedUrls.items), old(root.pool.tasks)[0].baseUrl)
      then old(root.visitedUrls.items) + [old(root.pool.tasks)[0].baseUrl]
      else old(root.visitedUrls.items)
    ensures |old(root.pool.tasks)| - 1 <= |root.pool.tasks|
    ensures root.pool.tasks[..|old(root.pool.tasks)| - 1] == old(root.pool.tasks)[1..]
    ensures TaskUrls(root.pool.tasks[|old(root.pool.tasks)| - 1..]) ==
      if root.Claims(old(root.visitedUrls.items), old(root.pool.tasks)[0].baseUrl)
      then Candidates(root.domain, ExtractAnchors(DownloadWebPage(root.domain, root.web, old(root.pool.tasks)[0].baseUrl)),
                      root.visitedUrls.items)
      else []
    ensures old(root.visitedUrls.items) <= root.visitedUrls.items
    ensures |root.visitedUrls.items| == |old(root.visitedUrls.items)| ==> |root.pool.tasks| < |old(root.pool.tasks)|
  {
    var visited, pool := root.visitedUrls, root.pool;
    ghost var before, pending := visited.items, pool.tasks;
    var task := pool.Take();
    assert task in pending;
    ghost var rest := pool.tasks;
    TaskUrlsCons(pending);
    task.Compute();
    ghost var added := pool.tasks[|rest|..];
    PrefixSuffix(pool.tasks, |rest|);
    TaskUrlsAppend(rest, added);
    CrawlStateStep(root.domain, root.web, root.baseUrl, before, visited.items, task.baseUrl, TaskUrls(added), [], TaskUrls(rest),
                   TaskUrls(pool.tasks));
  }

  /**
   * The fork-join traversal as main and the tests drive it: a fresh visited
   * list and pool, one task for baseUrl, then tasks are run until the pool is
   * idle; the result is the visited list.
   */
  method ForkJoinCrawl(domain: string, web: Web, baseUrl: string) returns (forkUrls: seq<string>)
    ensures NoDup(forkUrls)
    ensures forall u :: u in forkUrls ==> IsValidUrl(domain, u)
    ensures forall u :: u in forkUrls <==> Reachable(domain, web, baseUrl, u)
    ensures !IsValidUrl(domain, baseUrl) ==> forkUrls == []
    ensures IsValidUrl(domain, baseUrl) && (forall x :: x in PageLinks(domain, web, baseUrl) ==> x == baseUrl) ==>
      forkUrls == [baseUrl]
  {
    var visited := new UrlList();
    var pool := new Pool();
    var baseCrawler := new Crawler.Task(domain, web, baseUrl, visited, pool);
    pool.Execute(baseCrawler);
    assert TaskUrls(pool.tasks) == [baseUrl];
    CrawlStateInit(domain, web, baseUrl, TaskUrls(pool.tasks));
    ghost var universe := Universe(web, baseUrl);
    while pool.tasks != []
      invariant forall t :: t in pool.tasks ==> baseCrawler.SharesWith(t)
      invariant CrawlState(domain, web, baseUrl, visited.items, TaskUrls(pool.tasks))
      invariant |visited.items| <= |universe|
      decreases |universe| - |visited.items|, |pool.tasks|
    {
      RunNextTask(baseCrawler);
      ReachableListBounded(domain, web, baseUrl, visited.items);
    }
    forkUrls := visited.items;
    assert TaskUrls(pool.tasks) == [];
    FinishedCrawl(domain, web, baseUrl, forkUrls);
  }

  /**
   * ParallelStreamForkJoinEquivalenceT1: on the same web, both traversals find
   * the same URLs, as many of them, each once.
   */
  method ParallelStreamForkJoinEquivalence(domain: string, web: Web, baseUrl: string)
    returns (fullParallel: seq<string>, forkUrls: seq<string>)
    ensures |forkUrls| == |fullParallel|
    ensures forall u :: u in forkUrls <==> u in fullParallel
  {
    var c := new Crawler(domain, web);
    fullParallel := c.CrawlFullParallelStream(baseUrl);
    forkUrls := ForkJoinCrawl(domain, web, baseUrl);
    NoDupCard(fullParallel);
    NoDupCard(forkUrls);
    assert Elems(fullParallel) == Elems(forkUrls);
  }
}
