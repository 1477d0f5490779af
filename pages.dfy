/**
 * What the crawler reads from a page. Fetching and parsing belong to the HTML
 * library; here a page is the list of its elements, each with its tag name and
 * its href already resolved to an absolute URL (attr("abs:href")).
 */
module Pages {
  import opened Wrappers
  import opened DomainMatcher

  /** An element of a parsed document; href is "" when the element has none. */
  datatype Element = Element(tagName: string, href: string)

  /** A parsed document: its elements in document order. */
  type Document = seq<Element>

  /**
   * The web as the crawler sees it: the document served at each URL. A URL
   * that is not a key is one whose download throws an IOException.
   */
  type Web = map<string, Document>

  /** Crawler.downloadWebPage: null (None) for an invalid URL or a failed download. */
  function DownloadWebPage(domain: string, web: Web, url: string): (doc: Option<Document>)
    ensures doc.Some? <==> IsValidUrl(domain, url) && url in web
    ensures doc.Some? ==> doc.value == web[url]
  {
    if !IsValidUrl(domain, url) then None
    else if url in web then Some(web[url])
    else None
  }

  /** The elements with tag "a", in document order (getElementsByTag("a")). */
  function AnchorsOf(doc: Document): (anchors: seq<Element>)
    ensures forall e :: e in anchors <==> e in doc && e.tagName == "a"
  {
    if doc == [] then []
    else if doc[0].tagName == "a" then [doc[0]] + AnchorsOf(doc[1..])
    else AnchorsOf(doc[1..])
  }

  /** Crawler.extractAnchors: a null document has no anchors. */
  function ExtractAnchors(doc: Option<Document>): (anchors: seq<Element>)
    ensures doc.None? ==> anchors == []
    ensures forall e :: e in anchors <==> doc.Some? && e in doc.value && e.tagName == "a"
  {
    match doc
    case None => []
    case Some(d) => AnchorsOf(d)
  }

  /**
   * Crawler.extractUrlInDomain: null (None) for a null or non-anchor element,
   * the href when it is in the domain, and "" otherwise.
   */
  function ExtractUrlInDomain(domain: string, elem: Option<Element>): (url: Option<string>)
    ensures url.None? <==> elem.None? || elem.value.tagName != "a"
    ensures url.Some? ==> url == Some(elem.value.href) || url == Some("")
    ensures url.Some? && url.value != "" <==> elem.Some? && elem.value.tagName == "a" && IsValidUrl(domain, elem.value.href)
  {
    if elem.None? || elem.value.tagName != "a" then None
    else if IsValidUrl(domain, elem.value.href) then Some(elem.value.href)
    else Some("")
  }

  /**
   * The stream pipeline of inspectPage and compute before distinct():
   * map(extractUrlInDomain), then keep the URLs that are not null, not "" and
   * not already visited.
   */
  function Candidates(domain: string, anchors: seq<Element>, visited: seq<string>): (urls: seq<string>)
    ensures forall u :: u in urls <==>
      && u !in visited
      && IsValidUrl(domain, u)
      && exists e :: e in anchors && e.tagName == "a" && e.href == u
  {
    if anchors == [] then []
    else
      var rest := Candidates(domain, anchors[1..], visited);
      var url := ExtractUrlInDomain(domain, Some(anchors[0]));
      assert forall e :: e in anchors <==> e == anchors[0] || e in anchors[1..];
      if url.Some? && url.value != "" && url.value !in visited then [url.value] + rest else rest
  }

  /** The empty string never passes isValid, so filtering out "" loses no URL of the domain. */
  lemma EmptyIsInvalid(domain: string)
    ensures !IsValidUrl(domain, "")
  {
    assert |Authority(false, domain)| > 0;
    assert |Authority(true, domain)| > 0;
  }
}
