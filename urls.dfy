/**
  The textual URL handling of the controller: the canonical host it reads
  back from a monitor's URL, and the URL it gives a monitor it creates.
 */
module Urls {

  /** The text after the last '/' of `s` (all of `s` when it has none), as
      `s.split("/")[-1]` gives it. */
  function LastSegment(s: string): (r: string)
    ensures |r| <= |s| && r == s[|s| - |r|..]
    ensures '/' !in r
    ensures |r| < |s| ==> s[|s| - |r| - 1] == '/'
  {
    if |s| == 0 then ""
    else if s[|s| - 1] == '/' then ""
    else LastSegment(s[..|s| - 1]) + [s[|s| - 1]]
  }

  /** Python's `s.replace(pat, rep)` for a non-empty pattern: occurrences are
      replaced left to right, without overlap. */
  function Replace(s: string, pat: string, rep: string): (r: string)
    requires |pat| > 0
    ensures rep == pat ==> r == s
    ensures |rep| <= |pat| ==> |r| <= |s|
    decreases |s|
  {
    if |s| < |pat| then s
    else if s[..|pat|] == pat then rep + Replace(s[|pat|..], pat, rep)
    else [s[0]] + Replace(s[1..], pat, rep)
  }

  /** A pattern holding a character the text lacks never matches. */
  lemma {:induction false} ReplaceWithoutOccurrence(s: string, pat: string, rep: string, c: char)
    requires |pat| > 0 && c in pat && c !in s
    ensures Replace(s, pat, rep) == s
    decreases |s|
  {
    if |s| >= |pat| {
      var k :| 0 <= k < |pat| && pat[k] == c;
      assert s[..|pat|][k] == s[k];
      assert s[..|pat|] != pat;
      assert c !in s[1..];
      ReplaceWithoutOccurrence(s[1..], pat, rep, c);
      assert s == [s[0]] + s[1..];
    }
  }

  /** The canonical host of a monitor URL: its last '/'-separated segment,
      with "https://" and then "http://" removed from that segment. Both
      removals are no-ops, since the segment has no '/'. */
  function StripUrlComponents(url: string): (host: string)
    ensures host == LastSegment(url)
    ensures host == url[|url| - |host|..] && '/' !in host
    ensures |host| < |url| ==> url[|url| - |host| - 1] == '/'
    ensures '/' !in url ==> host == url
  {
    var segment := LastSegment(url);
    ReplaceWithoutOccurrence(segment, "https://", "", '/');
    ReplaceWithoutOccurrence(segment, "http://", "", '/');
    Replace(Replace(segment, "https://", ""), "http://", "")
  }

  /** The URL given to a new monitor for `host`. */
  function MonitorUrl(host: string, secure: bool): string
  {
    (if secure then "https" else "http") + "://" + host
  }

  /** A monitor URL is the scheme "https://" exactly when secure, else
      "http://", followed by the host; so a '/' comes right before the host. */
  lemma MonitorUrlShape(host: string, secure: bool)
    ensures var url := MonitorUrl(host, secure);
      && |url| > |host| && url[|url| - |host|..] == host && url[|url| - |host| - 1] == '/'
      && (url[..|url| - |host|] == "https://" <==> secure)
      && (url[..|url| - |host|] == "http://" <==> !secure)
  {
    var url := MonitorUrl(host, secure);
    var scheme := if secure then "https://" else "http://";
    assert url == scheme + host;
    assert url[..|url| - |host|] == scheme;
    assert "https://" != "http://" by { assert "https://"[4] != "http://"[4]; }
  }

  /** After a '/', a segment without '/' is the last segment. */
  lemma SegmentAfterSlash(prefix: string, host: string)
    requires |prefix| > 0 && prefix[|prefix| - 1] == '/' && '/' !in host
    ensures LastSegment(prefix + host) == host
  {
    var s := prefix + host;
    assert s[|s| - |host|..] == host;
  }

  /** The canonical host of a created monitor is the host it was created
      for, whenever that host holds no '/'. */
  lemma StripRecoversHost(host: string, secure: bool)
    requires '/' !in host
    ensures StripUrlComponents(MonitorUrl(host, secure)) == host
  {
    var scheme := if secure then "https" else "http";
    assert MonitorUrl(host, secure) == (scheme + "://") + host;
    SegmentAfterSlash(scheme + "://", host);
  }

  /** A host that holds a '/' is not read back from its own URL: the
      canonical host stops at the last '/'. */
  lemma SlashedHostIsNotRecovered(host: string, secure: bool)
    requires '/' in host
    ensures StripUrlComponents(MonitorUrl(host, secure)) != host
  {
  }

  /** The canonical host of a bare HTTPS URL is its host. */
  lemma StripHttpsExample()
    ensures StripUrlComponents("https://a.example.com") == "a.example.com"
  {
    assert MonitorUrl("a.example.com", true) == "https://a.example.com";
    StripRecoversHost("a.example.com", true);
  }

  /** The canonical host of a bare HTTP URL is its host. */
  lemma StripHttpExample()
    ensures StripUrlComponents("http://a.example.com") == "a.example.com"
  {
    assert MonitorUrl("a.example.com", false) == "http://a.example.com";
    StripRecoversHost("a.example.com", false);
  }

  /** A URL with a path yields its last path segment, not its host. */
  lemma StripPathExample()
    ensures StripUrlComponents("https://a.example.com/health") == "health"
  {
    SegmentAfterSlash("https://a.example.com/", "health");
    assert "https://a.example.com/health" == "https://a.example.com/" + "health";
  }
}
