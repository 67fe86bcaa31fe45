/** The request side of the string-scanning worker (platforms/akamai/src/main-standalone.js,
    `responseProvider`, lines 129-160): the path and query taken out of the request URL by
    `/https?:\/\/[^/]+(.*)$/`, the bypass test, the origin URL, and the content-type test.  The
    fetch itself is a parameter: the origin's content type and body are what it returned. */
module StandaloneRequest {
  import opened JsString
  import opened Patterns
  import opened Standalone

  // ---------------------------------------------------------------------------------------------
  // The URL pattern.

  /** The characters `.` does not match: the line terminators. */
  predicate IsLineTerminator(c: char) {
    c == '\n' || c == '\r' || c == '\U{2028}' || c == '\U{2029}'
  }

  /** `.*$` from `k`: nothing from `k` to the end is a line terminator. */
  predicate DotsToEnd(s: string, k: nat) {
    forall x {:trigger s[x]} :: k <= x < |s| ==> !IsLineTerminator(s[x])
  }

  /** `https?:\/\/` at `i` (case-sensitive): the offset after it.  The optional `s` is tried
      first; without it the next character has to be `:`. */
  function SchemeEnd(url: string, i: nat): (r: Option<nat>)
    ensures r.Some? ==> r.value <= |url| && (r.value == i + 7 || r.value == i + 8)
  {
    if !At(url, "http", i, false) then None
    else if At(url, "s://", i + 4, false) then Some(i + 8)
    else if At(url, "://", i + 4, false) then Some(i + 7)
    else None
  }

  /** `[^/]+`, greedy: the first `/` at or after `j`, or the end of the text. */
  function HostEnd(url: string, j: nat): (k: nat)
    requires j <= |url|
    ensures j <= k <= |url|
  {
    match IndexOf(url, "/", j) case Some(k) => k case None => |url|
  }

  /** The whole pattern at `i`: where the capture `(.*)` starts.  Giving `[^/]+` back only lengthens
      what `.*` has to cover, so the greedy choice is the only one that can succeed. */
  function PathStartAt(url: string, i: nat): (r: Option<nat>)
    ensures r.Some? ==> r.value <= |url|
  {
    match SchemeEnd(url, i)
    case None => None
    case Some(j) =>
      if j < |url| && url[j] != '/' then
        var k := HostEnd(url, j + 1);
        if DotsToEnd(url, k) then Some(k) else None
      else None
  }

  function PathMatcher(url: string): nat -> Option<nat> {
    (i: nat) => PathStartAt(url, i)
  }

  /** Lines 132-133: the text the capture group holds for the leftmost match, or `/`. */
  function FullPath(url: string): string {
    match First(PathMatcher(url), 0, |url|)
    case None => "/"
    case Some(m) => url[m.1..]
  }

  /** Lines 134-136: the path before the first `?` and the query from it on. */
  function SplitQuery(fullPath: string): (string, string) {
    var questionIndex := IndexOfOrMinus(fullPath, "?");
    var path := if questionIndex != -1 then Substring(fullPath, 0, questionIndex) else fullPath;
    var search := if questionIndex != -1 then Substring(fullPath, questionIndex, |fullPath|) else "";
    (path, search)
  }

  /** The path and the query put back together give the full path; the path holds no `?`, and
      the query is empty or starts with the first `?`. */
  lemma SplitQueryParts(fullPath: string)
    ensures var (path, search) := SplitQuery(fullPath);
            path + search == fullPath
            && '?' !in path
            && (search == "" <==> '?' !in fullPath)
            && (search != "" ==> search[0] == '?')
  {
    FindSpec(fullPath, "?", 0, false);
    var (path, search) := SplitQuery(fullPath);
    match IndexOf(fullPath, "?", 0)
    case None =>
      forall x | 0 <= x < |fullPath| ensures fullPath[x] != '?' {
        AtChars(fullPath, "?", x, false);
      }
    case Some(q) =>
      AtChars(fullPath, "?", q, false);
      assert path == fullPath[..q] && search == fullPath[q..];
      forall x | 0 <= x < q ensures path[x] != '?' {
        AtChars(fullPath, "?", x, false);
      }
      assert fullPath[..q] + fullPath[q..] == fullPath;
  }

  /** The captured path is the default `/`, empty (a URL that ends after the host), or starts at
      the `/` that ends the host; in every case it holds no line terminator. */
  lemma FullPathShape(url: string)
    ensures var p := FullPath(url);
            (p == "/" || p == "" || p[0] == '/') && DotsToEnd(p, 0)
  {
    match First(PathMatcher(url), 0, |url|)
    case None =>
    case Some(m) =>
      assert PathMatcher(url)(m.0) == PathStartAt(url, m.0);
      var j := SchemeEnd(url, m.0).value;
      FindSpec(url, "/", j + 1, false);
      var p := url[m.1..];
      if p != "" {
        assert IndexOf(url, "/", j + 1) == Some(m.1);
        AtChars(url, "/", m.1, false);
      }
      forall x | 0 <= x < |p| ensures !IsLineTerminator(p[x]) {
        assert p[x] == url[m.1 + x];
      }
  }

  /** The scheme `https://` or `http://` at the start of a URL ends where it is written to. */
  lemma SchemeEndOf(secure: bool, tail: string)
    ensures var scheme := if secure then "https://" else "http://";
            SchemeEnd(scheme + tail, 0) == Some(|scheme|)
  {
    var scheme := if secure then "https://" else "http://";
    var url := scheme + tail;
    AtChars(url, "http", 0, false);
    AtChars(url, "s://", 4, false);
    AtChars(url, "://", 4, false);
    assert url[0] == 'h' && url[1] == 't' && url[2] == 't' && url[3] == 'p';
    if secure {
      assert url[4] == 's' && url[5] == ':' && url[6] == '/' && url[7] == '/';
    } else {
      assert url[4] == ':' && url[5] == '/' && url[6] == '/';
    }
  }

  /** `[^/]+` after the first host character stops at the end of a host that holds no `/`,
      when what follows is empty or starts with `/`. */
  lemma HostEndOf(pre: string, host: string, rest: string)
    requires host != [] && '/' !in host
    requires rest == [] || rest[0] == '/'
    ensures HostEnd(pre + host + rest, |pre| + 1) == |pre| + |host|
  {
    var url := pre + host + rest;
    var j := |pre|;
    var k := j + |host|;
    FindSpec(url, "/", j + 1, false);
    forall x | j + 1 <= x < k ensures !At(url, "/", x, false) {
      AtChars(url, "/", x, false);
      assert url[x] == host[x - j];
    }
    if rest != [] {
      AtChars(url, "/", k, false);
      assert url[k] == rest[0];
    } else {
      forall x | j + 1 <= x ensures !At(url, "/", x, false) {
        AtChars(url, "/", x, false);
      }
    }
  }

  /** A URL written as scheme, host and path gives that path back, when the host is not empty
      and holds no `/`, and the path is empty or starts with `/` and holds no line terminator. */
  lemma FullPathOf(secure: bool, host: string, rest: string)
    requires host != [] && '/' !in host
    requires (rest == [] || rest[0] == '/') && DotsToEnd(rest, 0)
    ensures FullPath((if secure then "https://" else "http://") + host + rest) == rest
  {
    var scheme := if secure then "https://" else "http://";
    var url := scheme + host + rest;
    var j := |scheme|;
    SchemeEndOf(secure, host + rest);
    assert scheme + (host + rest) == url;
    HostEndOf(scheme, host, rest);
    var k := j + |host|;
    assert url[j] == host[0];
    forall x | k <= x < |url| ensures !IsLineTerminator(url[x]) {
      assert url[x] == rest[x - k];
    }
    assert PathStartAt(url, 0) == Some(k);
    assert url[k..] == rest;
  }

  // ---------------------------------------------------------------------------------------------
  // Bypass, origin URL, content type.

  /** Line 138: the path starts with one of the bypass prefixes. */
  predicate ShouldBypass(path: string) {
    StartsWithAny(path, BypassPaths)
  }

  /** Lines 146-147: `contentType.includes(type)` for one of the HTML content types (the header is
      read as `getHeader('content-type') || ''`). */
  predicate IsHtmlType(contentType: Option<string>) {
    IncludesAny(OrEmpty(contentType), HtmlContentTypes)
  }

  /** What the worker answers with: the origin's own response for `url`, or a response whose
      body is the processed document. */
  datatype Response = Origin(url: string) | Processed(url: string, body: string)

  /** Lines 141 and 144: the origin URL the request is forwarded to. */
  function Target(url: string): string {
    var (path, search) := SplitQuery(FullPath(url));
    AemOrigin + path + search
  }

  /** The request reaches the origin at the same full path, query included. */
  lemma TargetKeepsPath(url: string)
    ensures Target(url) == AemOrigin + FullPath(url)
  {
    SplitQueryParts(FullPath(url));
    var (path, search) := SplitQuery(FullPath(url));
    assert AemOrigin + path + search == AemOrigin + (path + search);
  }

  /** Lines 129-159, with the origin's content type and body as parameters. */
  function Respond(url: string, contentType: Option<string>, body: string, isAuthenticated: bool): Response {
    var path := SplitQuery(FullPath(url)).0;
    if ShouldBypass(path) then Origin(Target(url))
    else if !IsHtmlType(contentType) then Origin(Target(url))
    else Processed(Target(url), Process(body, isAuthenticated))
  }

  /** Every request goes to the origin at the same full path, query included; a bypassed path
      or a non-HTML response comes back untouched, and only an HTML response is processed. */
  lemma RespondCases(url: string, contentType: Option<string>, body: string, isAuthenticated: bool)
    ensures var r := Respond(url, contentType, body, isAuthenticated);
            var path := SplitQuery(FullPath(url)).0;
            r.url == AemOrigin + FullPath(url)
            && (r.Origin? <==> ShouldBypass(path) || !IsHtmlType(contentType))
            && (r.Processed? ==> r.body == Process(body, isAuthenticated))
  {
    TargetKeepsPath(url);
  }

  /** A bypassed path starts with `/`, so a URL whose path is empty is never bypassed. */
  lemma BypassNeedsSlash(path: string)
    requires ShouldBypass(path)
    ensures path != [] && path[0] == '/'
  {
    var k :| 0 <= k < |BypassPaths| && StartsWith(path, BypassPaths[k]);
    assert path[0] == path[..|BypassPaths[k]|][0];
  }

  /** A path under `/fragments/` is bypassed. */
  lemma FragmentsBypassed(rest: string)
    ensures ShouldBypass("/fragments/" + rest)
  {
    var p := "/fragments/" + rest;
    assert p[..|BypassPaths[0]|] == BypassPaths[0];
  }
}
