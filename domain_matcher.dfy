/**
 * The crawler's domain filter. Crawler's constructors compile the pattern
 *   ^http(s)?:\/\/<domain with '.' escaped>(\/$|(\/[^\/]*)*$){1}
 * and isValid asks Matcher.matches(), i.e. the whole URL must match.
 * The domain is read literally, as the pattern does once '.' is escaped.
 */
module DomainMatcher {
  import opened Wrappers

  /** The literal prefix of the pattern: "http://" or "https://", then the domain. */
  function Authority(secure: bool, domain: string): string
  {
    (if secure then "https" else "http") + "://" + domain
  }

  predicate HasPrefix(s: string, prefix: string)
  {
    |prefix| <= |s| && s[..|prefix|] == prefix
  }

  /** What may follow the domain: nothing, or something that starts with '/'. */
  predicate IsPathSuffix(r: string)
  {
    r == [] || r[0] == '/'
  }

  /** Crawler.isValid on a non-null URL. */
  predicate IsValidUrl(domain: string, url: string)
  {
    || (HasPrefix(url, Authority(false, domain)) && IsPathSuffix(url[|Authority(false, domain)|..]))
    || (HasPrefix(url, Authority(true, domain)) && IsPathSuffix(url[|Authority(true, domain)|..]))
  }

  /** Crawler.isValid, where None stands for a null URL. */
  predicate IsValid(domain: string, url: Option<string>)
  {
    url.Some? && IsValidUrl(domain, url.value)
  }

  // ---------------------------------------------------------------------------
  // The path part of the pattern, read as a grammar.

  /** `(\/[^\/]*)*`: every segment is written after a '/'. */
  function JoinSegments(segments: seq<string>): string
  {
    if segments == [] then [] else "/" + segments[0] + JoinSegments(segments[1..])
  }

  /** `[^\/]*` for every segment. */
  predicate AllSlashFree(segments: seq<string>)
  {
    forall i :: 0 <= i < |segments| ==> '/' !in segments[i]
  }

  /** The group `(\/$|(\/[^\/]*)*$)` matched against everything after the domain. */
  ghost predicate PathMatches(r: string)
  {
    || r == "/"
    || exists segments :: AllSlashFree(segments) && JoinSegments(segments) == r
  }

  /** The whole pattern, with `^` and the whole-input requirement of matches(). */
  ghost predicate PatternMatches(domain: string, url: string)
  {
    || (HasPrefix(url, Authority(false, domain)) && PathMatches(url[|Authority(false, domain)|..]))
    || (HasPrefix(url, Authority(true, domain)) && PathMatches(url[|Authority(true, domain)|..]))
  }

  /** The end of the segment that starts at i: the next '/' at or after i, or the end of r. */
  function SegmentEnd(r: string, i: nat): (j: nat)
    requires i <= |r|
    ensures i <= j <= |r|
    ensures j == |r| || r[j] == '/'
    ensures forall k :: i <= k < j ==> r[k] != '/'
    decreases |r| - i
  {
    if i == |r| || r[i] == '/' then i else SegmentEnd(r, i + 1)
  }

  /** Cuts a path into its segments, at every '/'. */
  function Split(r: string): (segments: seq<string>)
    requires IsPathSuffix(r)
    decreases |r|
  {
    if r == [] then []
    else
      var j := SegmentEnd(r, 1);
      [r[1..j]] + Split(r[j..])
  }

  /** Joining a segment in front of others. */
  lemma JoinCons(segment: string, segments: seq<string>)
    ensures JoinSegments([segment] + segments) == "/" + segment + JoinSegments(segments)
  {
    assert ([segment] + segments)[1..] == segments;
  }

  /** The first segment of a path holds no '/'. */
  lemma FirstSegmentSlashFree(r: string, j: nat)
    requires 1 <= j <= |r|
    requires forall k :: 1 <= k < j ==> r[k] != '/'
    ensures '/' !in r[1..j]
  {
    forall k | 0 <= k < j - 1 ensures r[1..j][k] != '/' {
      assert r[1..j][k] == r[1 + k];
    }
  }

  /** Split yields slash-free segments that join back to the path. */
  lemma {:induction false} SplitJoins(r: string)
    requires IsPathSuffix(r)
    ensures AllSlashFree(Split(r)) && JoinSegments(Split(r)) == r
    decreases |r|
  {
    if r != [] {
      var j := SegmentEnd(r, 1);
      var segment, tail := r[1..j], r[j..];
      SplitJoins(tail);
      FirstSegmentSlashFree(r, j);
      AllSlashFreeCons(segment, Split(tail));
      JoinCons(segment, Split(tail));
      SlashSegmentTail(r, j);
    }
  }

  /** A slash-free segment in front of slash-free segments. */
  lemma AllSlashFreeCons(segment: string, segments: seq<string>)
    requires '/' !in segment && AllSlashFree(segments)
    ensures AllSlashFree([segment] + segments)
  {
    assert forall i :: 1 <= i < |segments| + 1 ==> ([segment] + segments)[i] == segments[i - 1];
  }

  /** A path is its leading '/', its first segment and the rest of the path. */
  lemma SlashSegmentTail(r: string, j: nat)
    requires IsPathSuffix(r) && 1 <= j <= |r|
    ensures r == "/" + r[1..j] + r[j..]
  {
  }

  /** Joined segments are empty or start with '/'. */
  lemma JoinedIsPathSuffix(segments: seq<string>)
    ensures IsPathSuffix(JoinSegments(segments))
  {
    if segments != [] {
      assert JoinSegments(segments)[0] == '/';
    }
  }

  /** The path group of the pattern accepts exactly the suffixes that are empty or start with '/'. */
  lemma PathMatchesIff(r: string)
    ensures PathMatches(r) <==> IsPathSuffix(r)
  {
    if PathMatches(r) && r != "/" {
      var segments :| AllSlashFree(segments) && JoinSegments(segments) == r;
      JoinedIsPathSuffix(segments);
    }
    if IsPathSuffix(r) {
      SplitJoins(r);
    }
  }

  /** isValid's string predicate is exactly the compiled pattern. */
  lemma IsValidMatchesPattern(domain: string, url: string)
    ensures IsValidUrl(domain, url) <==> PatternMatches(domain, url)
  {
    var plain, secure := Authority(false, domain), Authority(true, domain);
    if HasPrefix(url, plain) {
      PathMatchesIff(url[|plain|..]);
    }
    if HasPrefix(url, secure) {
      PathMatchesIff(url[|secure|..]);
    }
  }

  /** Valid URLs are exactly the domain's authority followed by a path suffix. */
  lemma IsValidShape(domain: string, url: string)
    ensures IsValidUrl(domain, url) <==>
      exists secure: bool, r: string :: IsPathSuffix(r) && url == Authority(secure, domain) + r
  {
    var plain, secure := Authority(false, domain), Authority(true, domain);
    if HasPrefix(url, plain) {
      assert url == plain + url[|plain|..];
    }
    if HasPrefix(url, secure) {
      assert url == secure + url[|secure|..];
    }
    if exists s: bool, r: string :: IsPathSuffix(r) && url == Authority(s, domain) + r {
      var s: bool, r: string :| IsPathSuffix(r) && url == Authority(s, domain) + r;
      assert url[..|Authority(s, domain)|] == Authority(s, domain);
      assert url[|Authority(s, domain)|..] == r;
    }
  }

  /**
   * Crawler.isValid on any argument: null is rejected, and a URL passes exactly
   * when it is the domain's authority followed by nothing or by a '/'-path.
   */
  lemma IsValidCases(domain: string, url: Option<string>)
    ensures url.None? ==> !IsValid(domain, url)
    ensures url.Some? ==>
      (IsValid(domain, url) <==>
       exists secure: bool, r: string :: IsPathSuffix(r) && url.value == Authority(secure, domain) + r)
  {
    if url.Some? {
      IsValidShape(domain, url.value);
    }
  }

  /** isValidT1: the crawler's home page is in its domain. */
  lemma ValidHomePage()
    ensures IsValid("www.dorbit.space", Some("https://www.dorbit.space/"))
  {
    var url, a := "https://www.dorbit.space/", Authority(true, "www.dorbit.space");
    assert url == a + "/";
    assert url[..|a|] == a && url[|a|..] == "/";
  }

  /** isValidT2: a misspelt host is outside the domain, and so is null. */
  lemma InvalidMisspeltHost()
    ensures !IsValid("www.dorbit.space", Some("https://www.dorbit.spaace/"))
    ensures !IsValid("www.dorbit.space", None)
  {
    var url := "https://www.dorbit.spaace/";
    assert url[22] == 'a' && Authority(true, "www.dorbit.space")[22] == 'c';
    assert url[4] == 's' && Authority(false, "www.dorbit.space")[4] == ':';
  }

  /** A host that only starts with the domain is outside it: the pattern is anchored. */
  lemma InvalidLookAlikeHost()
    ensures !IsValid("example.com", Some("https://example.com.evil.com/"))
  {
    var url, a := "https://example.com.evil.com/", Authority(true, "example.com");
    assert url[|a|] == '.';
    assert url[4] == 's' && Authority(false, "example.com")[4] == ':';
  }
}
