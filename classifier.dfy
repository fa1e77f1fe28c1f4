/** The consumer's classification (`Consumer::get_domain` and
    `Consumer::is_questionable`): take the host out of an event's URL line and
    look for a blocklisted word in it, ignoring ASCII case. */
module Classifier {
  import opened Text
  import opened Optional
  import opened Validation
  import opened Events

  // ---------------------------------------------------------------------------
  // Stage 1: url: [^:]+://([^/]+)(/(.*))?   -- group 1 is the authority
  // ---------------------------------------------------------------------------

  /** The first pattern matches the whole line with its "://" at `a` and its
      authority (group 1) spanning `line[a + 3..b]`. */
  ghost predicate GeneralSplitAt(line: string, a: nat, b: nat) {
    SchemeEnd(line, a) && HostRun(line, a, b) && PathGroup(line, b)
  }

  ghost predicate GeneralSplitMatches(line: string) {
    exists a: nat, b: nat :: GeneralSplitAt(line, a, b)
  }

  /** The authority captured by the first pattern, or None when the line does not match it. */
  function SplitAuthority(line: string): (r: Option<string>)
    ensures r.Some? <==> GeneralSplitMatches(line)
    ensures forall a: nat, b: nat :: GeneralSplitAt(line, a, b) ==> r == Some(line[a + 3..b])
    ensures r.Some? ==> r.value != [] && forall i :: 0 <= i < |r.value| ==> r.value[i] != '/'
  {
    if !StartsWith(line, URL_PREFIX) then None
    else
      var a := FindFrom(line, ':', |URL_PREFIX|);
      if a == |URL_PREFIX| || a + 3 > |line| || line[a + 1] != '/' || line[a + 2] != '/' then None
      else
        var b := FindFrom(line, '/', a + 3);
        if b == a + 3 || !PathGroup(line, b) then None
        else
          assert GeneralSplitAt(line, a, b);
          Some(line[a + 3..b])
  }

  // ---------------------------------------------------------------------------
  // Stage 2: ([^@]+@)?([^:]+)(:[[:digit:]]+)?   -- group 2 is the host
  // ---------------------------------------------------------------------------

  /** `[^@]+@` spanning `t[..u]`. */
  predicate UserinfoEnd(t: string, u: nat) {
    2 <= u <= |t| && t[u - 1] == '@' && forall i :: 0 <= i < u - 1 ==> t[i] != '@'
  }

  /** `([^:]+)(:[[:digit:]]+)?` spanning `t[u..]`, with the host spanning `t[u..k]`. */
  predicate HostAt(t: string, u: nat, k: nat) {
    u < k <= |t| && (forall i :: u <= i < k ==> t[i] != ':') && PortGroup(t, k, |t|)
  }

  /** The second pattern matches all of `t`, with the host spanning `t[u..k]`. */
  ghost predicate AuthorityAt(t: string, u: nat, k: nat) {
    (u == 0 || UserinfoEnd(t, u)) && HostAt(t, u, k)
  }

  ghost predicate AuthorityMatches(t: string) {
    exists u: nat, k: nat :: AuthorityAt(t, u, k)
  }

  /** The second pattern matches `t` with its optional userinfo group taken. */
  ghost predicate UserinfoMatches(t: string) {
    exists u: nat, k: nat :: UserinfoEnd(t, u) && HostAt(t, u, k)
  }

  /** Where the host that starts at `u` ends, if `t[u..]` is `host[:digits]`. */
  function HostEnd(t: string, u: nat): (r: Option<nat>)
    requires u <= |t|
    ensures forall k: nat :: HostAt(t, u, k) <==> r == Some(k)
    ensures r.Some? ==> HostAt(t, u, r.value)
  {
    var k := FindFrom(t, ':', u);
    if u < k && PortGroup(t, k, |t|) then Some(k) else None
  }

  /** The host (group 2) captured by the second pattern, or None when `t` does not match it.
      ECMAScript tries the optional userinfo group first: when the text after the
      first '@' is `host[:digits]`, that host wins; only otherwise is the whole
      authority read as `host[:digits]`. */
  function AuthorityHost(t: string): (r: Option<string>)
    ensures r.Some? <==> AuthorityMatches(t)
    ensures forall u: nat, k: nat :: UserinfoEnd(t, u) && HostAt(t, u, k) ==> r == Some(t[u..k])
    ensures !UserinfoMatches(t) ==> forall k: nat :: HostAt(t, 0, k) ==> r == Some(t[..k])
    ensures r.Some? ==> r.value != [] && forall i :: 0 <= i < |r.value| ==> r.value[i] != ':' && r.value[i] in t
  {
    var at := FindFrom(t, '@', 0);
    var afterUserinfo := if 0 < at < |t| then HostEnd(t, at + 1) else None;
    if afterUserinfo.Some? then
      assert UserinfoEnd(t, at + 1) && AuthorityAt(t, at + 1, afterUserinfo.value);
      Some(t[at + 1..afterUserinfo.value])
    else
      assert !UserinfoMatches(t);
      match HostEnd(t, 0)
      case Some(k) =>
        assert AuthorityAt(t, 0, k);
        Some(t[..k])
      case None => None
  }

  // ---------------------------------------------------------------------------
  // get_domain
  // ---------------------------------------------------------------------------

  /** The URL line has a domain: it matches the first pattern and its authority
      matches the second. */
  ghost predicate HasDomain(url: string) {
    exists a: nat, b: nat :: GeneralSplitAt(url, a, b) && AuthorityMatches(url[a + 3..b])
  }

  /** The bare host of a URL line: no userinfo, no port, no path; empty when
      either pattern fails. A failed first stage leaves the authority empty, and
      the second pattern does not match an empty authority. */
  function GetDomain(url: string): string {
    var authority := SplitAuthority(url).GetOr("");
    AuthorityHost(authority).GetOr("")
  }

  /** The domain is non-empty exactly when both patterns match. */
  lemma GetDomainNonEmpty(url: string)
    ensures GetDomain(url) != [] <==> HasDomain(url)
  {
    match SplitAuthority(url)
    case None =>
      assert !HasDomain(url);
      assert AuthorityHost("").None?;
    case Some(authority) =>
      assert HasDomain(url) <==> AuthorityMatches(authority);
  }

  /** The domain holds neither a ':' (no port) nor a '/' (no path). */
  lemma GetDomainIsBareHost(url: string)
    ensures forall i :: 0 <= i < |GetDomain(url)| ==> GetDomain(url)[i] != ':' && GetDomain(url)[i] != '/'
  {
    var authority := SplitAuthority(url).GetOr("");
    var host := AuthorityHost(authority).GetOr("");
    assert host == GetDomain(url);
    forall i | 0 <= i < |host| ensures host[i] != ':' && host[i] != '/' {
      assert host[i] in authority;
    }
  }

  /** Every line the URL grammar accepts matches the first pattern too, and the
      other way round: the optional `:digits` group of the grammar is already
      covered by `[^/]+`. So every published event has an authority. */
  lemma UrlGrammarsAgree(line: string)
    ensures IsValidUrl(line) <==> GeneralSplitMatches(line)
  {
    if IsValidUrl(line) {
      var a: nat, b: nat, c: nat :| a < |line| && a < b <= |line| && b <= c <= |line|
        && UrlSplitAt(line, a, b, c);
      assert HostRun(line, a, c);
      assert GeneralSplitAt(line, a, c);
    }
    if GeneralSplitMatches(line) {
      var a: nat, b: nat :| GeneralSplitAt(line, a, b);
      assert UrlSplitAt(line, a, b, b);
    }
  }

  // ---------------------------------------------------------------------------
  // is_questionable
  // ---------------------------------------------------------------------------

  /** The blocklist, in the order the words are tried. */
  const OFFENDING_WORDS: seq<string> := ["porn", "xxx", "sex", "Bieber"]

  /** `needle` occurs in `hay` at position `i`, comparing characters after `tolower`. */
  predicate MatchesAt(hay: string, needle: string, i: nat) {
    i + |needle| <= |hay| && forall k :: 0 <= k < |needle| ==> ToLower(hay[i + k]) == ToLower(needle[k])
  }

  /** `needle` occurs somewhere in `hay`, comparing characters after `tolower`. */
  predicate OccursFolded(hay: string, needle: string) {
    exists i: nat | i <= |hay| :: MatchesAt(hay, needle, i)
  }

  /** `std::search` from position `from` with the case-folding comparison: the
      first position of a match, or `|hay|` (the end iterator) when there is none. */
  function Search(hay: string, needle: string, from: nat): (r: nat)
    requires from <= |hay|
    ensures from <= r <= |hay|
    ensures r < |hay| ==> MatchesAt(hay, needle, r)
    ensures forall i: nat :: from <= i < r ==> !MatchesAt(hay, needle, i)
    decreases |hay| - from
  {
    if from + |needle| > |hay| then |hay|
    else if MatchesAt(hay, needle, from) then from
    else Search(hay, needle, from + 1)
  }

  /** Some blocklisted word occurs in `domain`, ignoring ASCII case. */
  predicate HasOffendingWord(domain: string) {
    exists w | w in OFFENDING_WORDS :: OccursFolded(domain, w)
  }

  /** The event is questionable when a blocklisted word occurs in the domain of its URL. */
  predicate IsQuestionable(event: BrowsingEvent) {
    HasOffendingWord(GetDomain(event.url))
  }

  /** Every blocklisted word is non-empty, so a match always lies inside the domain. */
  lemma OffendingWordsAreNonEmpty()
    ensures |OFFENDING_WORDS| == 4
    ensures forall j :: 0 <= j < |OFFENDING_WORDS| ==> OFFENDING_WORDS[j] != []
  {
  }

  /** The search loop of `is_questionable` over a domain: try the words in
      order with `std::search` and stop at the first one found. */
  method SearchOffendingWords(domain: string) returns (rv: bool)
    ensures rv == HasOffendingWord(domain)
  {
    var words := OFFENDING_WORDS;
    OffendingWordsAreNonEmpty();
    rv := false;
    var j := 0;
    while j < |words|
      invariant 0 <= j <= |words|
      invariant !rv
      invariant forall m, i: nat :: 0 <= m < j ==> !MatchesAt(domain, words[m], i)
    {
      var found := Search(domain, words[j], 0);
      if found != |domain| {
        assert words[j] in words && MatchesAt(domain, words[j], found);
        assert OccursFolded(domain, words[j]);
        rv := true;
        break;
      }
      forall i: nat ensures !MatchesAt(domain, words[j], i) {
        if i < |domain| {
          assert 0 <= i < found;
        }
      }
      j := j + 1;
    }
    if !rv {
      forall w | w in words ensures !OccursFolded(domain, w) {
        var m :| 0 <= m < |words| && words[m] == w;
      }
    }
  }

  /** `is_questionable` as the source computes it: take the domain, then search it. */
  method CheckQuestionable(event: BrowsingEvent) returns (rv: bool)
    ensures rv == IsQuestionable(event)
  {
    var domain := GetDomain(event.url);
    rv := SearchOffendingWords(domain);
  }

  /** Nothing but the URL line decides the classification. */
  lemma QuestionableDependsOnlyOnUrl(e1: BrowsingEvent, e2: BrowsingEvent)
    requires e1.url == e2.url
    ensures IsQuestionable(e1) == IsQuestionable(e2)
  {
  }

  /** An event whose URL yields no domain is never questionable. */
  lemma EmptyDomainNotQuestionable(event: BrowsingEvent)
    requires GetDomain(event.url) == []
    ensures !IsQuestionable(event)
  {
    forall w | w in OFFENDING_WORDS
      ensures !OccursFolded([], w)
    {
      assert |w| > 0;
    }
  }

  // ---------------------------------------------------------------------------
  // URL lines built from their parts, and the domain taken back out
  // ---------------------------------------------------------------------------

  /** The line `url: scheme://[userinfo@]host[:port][/path]`. */
  function UrlLine(scheme: string, userinfo: Option<string>, host: string,
                   port: Option<string>, path: Option<string>): string
  {
    URL_PREFIX + scheme + "://" + Authority(userinfo, host, port) + Path(path)
  }

  function Path(path: Option<string>): string {
    if path.Some? then "/" + path.value else ""
  }

  function Authority(userinfo: Option<string>, host: string, port: Option<string>): string {
    (if userinfo.Some? then userinfo.value + "@" else "") + host + (if port.Some? then ":" + port.value else "")
  }

  /** The first stage takes back exactly the authority a URL line was built with. */
  lemma SplitAuthorityOfUrlLine(scheme: string, authority: string, tail: string)
    requires scheme != [] && ':' !in scheme
    requires authority != [] && '/' !in authority
    requires tail == [] || (tail[0] == '/' && forall i :: 1 <= i < |tail| ==> !IsLineTerminator(tail[i]))
    ensures SplitAuthority(URL_PREFIX + scheme + "://" + authority + tail) == Some(authority)
  {
    var line := URL_PREFIX + scheme + "://" + authority + tail;
    var a := |URL_PREFIX| + |scheme|;
    var b := a + 3 + |authority|;
    assert forall k :: |URL_PREFIX| <= k < a ==> line[k] == scheme[k - |URL_PREFIX|];
    assert forall k :: a + 3 <= k < b ==> line[k] == authority[k - a - 3];
    assert forall k :: b <= k < |line| ==> line[k] == tail[k - b];
    assert line[..|URL_PREFIX|] == URL_PREFIX;
    assert SchemeEnd(line, a);
    assert line[a + 3..b] == authority;
    assert GeneralSplitAt(line, a, b);
  }

  /** The second stage takes back exactly the host an authority was built with,
      with or without userinfo and port. */
  lemma AuthorityHostOfAuthority(userinfo: Option<string>, host: string, port: Option<string>)
    requires userinfo.Some? ==> userinfo.value != [] && '@' !in userinfo.value
    requires host != [] && ':' !in host && (userinfo.None? ==> '@' !in host)
    requires port.Some? ==> port.value != [] && forall i :: 0 <= i < |port.value| ==> IsDigit(port.value[i])
    ensures AuthorityHost(Authority(userinfo, host, port)) == Some(host)
  {
    var pre := if userinfo.Some? then userinfo.value + "@" else "";
    var post := if port.Some? then ":" + port.value else "";
    var t := pre + host + post;
    var u := |pre|;
    var k := u + |host|;
    assert forall i :: 0 <= i < u ==> t[i] == pre[i];
    assert forall i :: u <= i < k ==> t[i] == host[i - u];
    assert forall i :: k <= i < |t| ==> t[i] == post[i - k];
    assert PortGroup(t, k, |t|);
    assert HostAt(t, u, k);
    assert t[u..k] == host;
    if userinfo.Some? {
      assert UserinfoEnd(t, u);
    } else {
      forall i | 0 <= i < |t| ensures t[i] != '@' {
        if k <= i && i > k {
          assert IsDigit(port.value[i - k - 1]);
        }
      }
      assert !UserinfoMatches(t);
    }
  }

  /** `get_domain` takes back exactly the host a URL line was built with: it drops
      the scheme, the userinfo, the port and the path. */
  lemma GetDomainOfUrlLine(scheme: string, userinfo: Option<string>, host: string,
                           port: Option<string>, path: Option<string>)
    requires scheme != [] && ':' !in scheme
    requires userinfo.Some? ==> userinfo.value != [] && '@' !in userinfo.value && '/' !in userinfo.value
    requires host != [] && ':' !in host && '/' !in host && (userinfo.None? ==> '@' !in host)
    requires port.Some? ==> port.value != [] && forall i :: 0 <= i < |port.value| ==> IsDigit(port.value[i])
    requires path.Some? ==> forall i :: 0 <= i < |path.value| ==> !IsLineTerminator(path.value[i])
    ensures GetDomain(UrlLine(scheme, userinfo, host, port, path)) == host
  {
    var authority := Authority(userinfo, host, port);
    assert '/' !in authority by {
      var pre := if userinfo.Some? then userinfo.value + "@" else "";
      var post := if port.Some? then ":" + port.value else "";
      assert authority == pre + host + post;
      assert '/' !in post by {
        if port.Some? {
          forall i | 0 <= i < |post| ensures post[i] != '/' {
            if i > 0 { assert IsDigit(port.value[i - 1]); }
          }
        }
      }
    }
    SplitAuthorityOfUrlLine(scheme, authority, Path(path));
    AuthorityHostOfAuthority(userinfo, host, port);
  }

  /** An `http` URL line with a bare host: it passes the URL grammar and its
      domain is that host. */
  lemma HttpUrlOfHost(url: string, host: string, tail: string)
    requires url == "url: http://" + host + tail
    requires host != [] && ':' !in host && '/' !in host && '@' !in host
    requires tail == [] || (tail[0] == '/' && forall i :: 1 <= i < |tail| ==> !IsLineTerminator(tail[i]))
    ensures IsValidUrl(url) && GetDomain(url) == host
  {
    assert url == URL_PREFIX + "http" + "://" + host + tail;
    SplitAuthorityOfUrlLine("http", host, tail);
    assert Authority(None, host, None) == host;
    AuthorityHostOfAuthority(None, host, None);
    UrlGrammarsAgree(url);
  }

  // ---------------------------------------------------------------------------
  // Worked cases
  // ---------------------------------------------------------------------------

  /** When the text after the first '@' is `host[:digits]` it is the host, even
      if it holds another '@'. */
  lemma UserinfoAlternativeWins()
    ensures GetDomain("url: http://u@h@k:8/p") == "h@k"
  {
    assert UrlLine("http", Some("u"), "h@k", Some("8"), Some("p")) == "url: http://u@h@k:8/p";
    GetDomainOfUrlLine("http", Some("u"), "h@k", Some("8"), Some("p"));
  }

  /** When the text after the first '@' is not `host[:digits]`, the whole
      authority is read as `host[:digits]`, '@' and all. */
  lemma WholeAuthorityFallback(url: string)
    requires url == "url: http://a@:80/"
    ensures GetDomain(url) == "a@"
  {
    FallbackAuthority(url);
    FallbackHost("a@:80");
  }

  lemma FallbackAuthority(url: string)
    requires url == "url: http://a@:80/"
    ensures SplitAuthority(url) == Some("a@:80")
  {
    assert url == URL_PREFIX + "http" + "://" + "a@:80" + "/";
    SplitAuthorityOfUrlLine("http", "a@:80", "/");
  }

  lemma FallbackHost(t: string)
    requires t == "a@:80"
    ensures AuthorityHost(t) == Some("a@")
  {
    assert HostAt(t, 0, 2) && t[..2] == "a@";
    assert !UserinfoMatches(t) by {
      forall u: nat, k: nat | UserinfoEnd(t, u) ensures !HostAt(t, u, k) {
        assert u == 2 && t[2] == ':';
      }
    }
  }

  /** Some blocklisted word occurring in the domain is enough to flag an event. */
  lemma QuestionableWhenOccurs(event: BrowsingEvent, w: string, i: nat)
    requires w in OFFENDING_WORDS && MatchesAt(GetDomain(event.url), w, i)
    ensures IsQuestionable(event)
  {
    assert OccursFolded(GetDomain(event.url), w);
  }

  /** A domain holding "xxx" makes its event questionable. */
  lemma QuestionableExample(event: BrowsingEvent)
    requires event.url == "url: http://www.xxxsite.com/page"
    ensures IsQuestionable(event)
  {
    XxxSiteDomain(event.url);
    XxxSiteQuestionable(event);
  }

  lemma XxxSiteQuestionable(event: BrowsingEvent)
    requires GetDomain(event.url) == "www.xxxsite.com"
    ensures IsQuestionable(event)
  {
    XxxAtFour(GetDomain(event.url));
    QuestionableWhenOccurs(event, "xxx", 4);
  }

  lemma XxxAtFour(domain: string)
    requires domain == "www.xxxsite.com"
    ensures MatchesAt(domain, "xxx", 4)
  {
    assert domain[4] == 'x' && domain[5] == 'x' && domain[6] == 'x';
  }

  lemma XxxSiteDomain(url: string)
    requires url == "url: http://www.xxxsite.com/page"
    ensures IsValidUrl(url) && GetDomain(url) == "www.xxxsite.com"
  {
    HttpUrlOfHost(url, "www.xxxsite.com", "/page");
  }

  lemma ExampleDomain(url: string)
    requires url == "url: http://example.com/page"
    ensures IsValidUrl(url) && GetDomain(url) == "example.com"
  {
    HttpUrlOfHost(url, "example.com", "/page");
  }

  /** No blocklisted word occurs in "example.com", in any case. */
  lemma NoOffendingWordInExample(w: string)
    requires w in OFFENDING_WORDS
    ensures !OccursFolded("example.com", w)
  {
    var d := "example.com";
    assert forall i :: 0 <= i < |d| ==> ToLower(d[i]) == d[i];
    forall i: nat ensures !MatchesAt(d, w, i) {
      if i + |w| <= |d| {
        if w == "xxx" {
          assert d[i] != 'x' || d[i + 1] != 'x';
          assert ToLower(d[i]) != ToLower(w[0]) || ToLower(d[i + 1]) != ToLower(w[1]);
        } else if w == "porn" {
          assert d[i + 2] != 'r' && ToLower(w[2]) == 'r';
          assert ToLower(d[i + 2]) != ToLower(w[2]);
        } else {
          assert d[i] != ToLower(w[0]);
          assert ToLower(d[i]) != ToLower(w[0]);
        }
      }
    }
  }

  /** A domain holding no blocklisted word leaves its event unflagged. */
  lemma NotQuestionableExample(event: BrowsingEvent)
    requires event.url == "url: http://example.com/page"
    ensures !IsQuestionable(event)
  {
    ExampleDomain(event.url);
    forall w | w in OFFENDING_WORDS ensures !OccursFolded("example.com", w) {
      NoOffendingWordInExample(w);
    }
  }
}
