/**
 * The scenarios of CrawlerTester on small fixed webs: a site whose only page
 * links off-domain, and a "domain" that is itself a full URL.
 */
module CrawlExamples {
  import opened Wrappers
  import opened DomainMatcher
  import opened Pages
  import opened Reachability
  import opened Crawling

  const BlankDomain := "www.blankwebsite.com"
  const BlankHome := "http://www.blankwebsite.com/"
  const PointlessSites := "http://www.pointlesssites.com/"

  /** The blank website: one page whose only anchor leads to another site. */
  function BlankWeb(): Web
  {
    map[BlankHome := [Element("link", "http://www.blankwebsite.com/sitestyle.css"), Element("a", PointlessSites)]]
  }

  /** The only anchor of the blank website is outside its domain. */
  lemma PointlessSitesOutside()
    ensures IsValidUrl(BlankDomain, BlankHome)
    ensures !IsValidUrl(BlankDomain, PointlessSites)
  {
    var a := Authority(false, BlankDomain);
    assert BlankHome == a + "/";
    assert BlankHome[..|a|] == a && BlankHome[|a|..] == "/";
    assert PointlessSites[11] == 'p' && a[11] == 'b';
    assert PointlessSites[4] == ':' && Authority(true, BlankDomain)[4] == 's';
  }

  /** extractAnchorT1 and the page behind crawlFullParallelStreamT2: one anchor, and no link in the domain. */
  lemma BlankHomeLinks()
    ensures ExtractAnchors(DownloadWebPage(BlankDomain, BlankWeb(), BlankHome)) == [Element("a", PointlessSites)]
    ensures PageLinks(BlankDomain, BlankWeb(), BlankHome) == []
  {
    PointlessSitesOutside();
    var doc := BlankWeb()[BlankHome];
    assert AnchorsOf(doc[1..][1..]) == [];
    assert AnchorsOf(doc[1..]) == [Element("a", PointlessSites)];
    var anchors := ExtractAnchors(DownloadWebPage(BlankDomain, BlankWeb(), BlankHome));
    assert Candidates(BlankDomain, anchors[1..], []) == [];
  }

  /**
   * inspectPageT1, crawlFullParallelStreamT2 and forkJoinT2 on the blank
   * website: inspecting the home page finds nothing new, and both traversals
   * return the home page alone.
   */
  method BlankWebsiteCrawl() returns (found: seq<string>, fullParallel: seq<string>, forkUrls: seq<string>)
    ensures found == []
    ensures fullParallel == [BlankHome] && forkUrls == [BlankHome]
  {
    BlankHomeLinks();
    PointlessSitesOutside();
    var c := new Crawler(BlankDomain, BlankWeb());
    var visited := new UrlList();
    found := c.InspectPage(BlankHome, visited);
    fullParallel := c.CrawlFullParallelStream(BlankHome);
    forkUrls := ForkJoinCrawl(BlankDomain, BlankWeb(), BlankHome);
  }

  const ReadmeUrl := "https://github.com/sonata-project/empty-website/blob/main/README.md"

  /**
   * extractAnchorT2 and inspectPageT2 use the README's URL as the domain too;
   * the pattern then asks for "https://https://github.com/...", so the URL is
   * outside its own "domain", nothing is downloaded and nothing is found.
   */
  lemma ReadmeOutsideItself(web: Web)
    ensures !IsValidUrl(ReadmeUrl, ReadmeUrl)
    ensures DownloadWebPage(ReadmeUrl, web, ReadmeUrl) == None
    ensures ExtractAnchors(DownloadWebPage(ReadmeUrl, web, ReadmeUrl)) == []
  {
    assert |Authority(false, ReadmeUrl)| > |ReadmeUrl|;
    assert |Authority(true, ReadmeUrl)| > |ReadmeUrl|;
  }

  /** inspectPageT2: inspecting the README with itself as the domain finds nothing and visits nothing. */
  method ReadmeInspect(web: Web) returns (found: seq<string>, visitedAfter: seq<string>)
    ensures found == [] && visitedAfter == []
  {
    ReadmeOutsideItself(web);
    var c := new Crawler(ReadmeUrl, web);
    var visited := new UrlList();
    found := c.InspectPage(ReadmeUrl, visited);
    visitedAfter := visited.items;
  }
}
