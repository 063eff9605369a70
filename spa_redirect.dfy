/**
 * The Lambda@Edge origin-response handler of lib/spa-redirect/index.mjs.
 * When a GET request got a 403 or 404 from the origin, it fetches the
 * index page of the request's first path segment through the distribution
 * and returns a response built from that fetch; every other response is
 * returned as it came. The HTTP fetch is a parameter: a function from the
 * URL to what the fetch produced.
 */
module SpaRedirect {
  import opened Wrappers
  import opened JsString
  import opened CloudFrontEvents
  import SpaResponseOrigin

  const IndexPage := "index.html"

  /** The origin headers a regenerated response may carry, in lower case. */
  const AllowedHeaders: seq<string> := [
    "content-type",
    "content-length",
    "content-encoding",
    "transfer-encoding",
    "last-modified",
    "date",
    "etag"
  ]

  const FailureBody := "An error occurred loading the page"

  // ---------------------------------------------------------------- getIndexPath

  /** `uri` without one leading `/`, if it has one; any further `/` stays. */
  function DropLeadingSlash(uri: string): (r: string)
    ensures "/" <= uri ==> "/" + r == uri
    ensures !("/" <= uri) ==> r == uri
  {
    if "/" <= uri then uri[1..] else uri
  }

  /**
   * `getIndexPath`: the index page under the first segment of the URI.
   * The result starts with `/`, ends with `/index.html`, and what stands
   * between holds no `/`. The file name is the module constant `INDEX_PAGE`
   * (the source reads it as `this.INDEX_PAGE`; see GetIndexPathAsWritten).
   */
  function GetIndexPath(uri: string): (path: string)
    ensures |path| >= 11 && path[0] == '/' && path[|path| - 11..] == "/index.html"
    ensures forall i :: 0 < i < |path| - 11 ==> path[i] != '/'
  {
    var requestUri := DropLeadingSlash(uri);
    var appPath := Split(requestUri, '/')[0];
    IndexPathShape(appPath);
    WithLeadingSlash(appPath + "/" + IndexPage)
  }

  /** The step that makes sure the index path starts with a `/`, adding one only when it is missing. */
  function WithLeadingSlash(indexPath: string): (r: string)
    ensures "/" <= r
    ensures "/" <= indexPath ==> r == indexPath
    ensures !("/" <= indexPath) ==> r == "/" + indexPath
  {
    if "/" <= indexPath then indexPath else "/" + indexPath
  }

  /**
   * Dropping the leading `/` and putting it back restores a URI that starts
   * with exactly one `/`; a URI starting with `//` keeps only one of them.
   */
  lemma LeadingSlashRoundTrip(uri: string)
    requires "/" <= uri
    ensures WithLeadingSlash(DropLeadingSlash(uri)) == uri <==> !("//" <= uri)
  {
    if "//" <= uri {
      assert |WithLeadingSlash(DropLeadingSlash(uri))| == |uri| - 1;
    } else if |uri| > 1 {
      assert uri[1] != '/';
      assert DropLeadingSlash(uri)[0] == uri[1];
    }
  }

  lemma IndexPathShape(appPath: string)
    requires '/' !in appPath
    ensures var path := WithLeadingSlash(appPath + "/" + IndexPage);
            && |path| >= 11 && path[0] == '/' && path[|path| - 11..] == "/index.html"
            && forall i :: 0 < i < |path| - 11 ==> path[i] != '/'
  {
    var indexPath := appPath + "/" + IndexPage;
    if appPath == [] {
      assert indexPath == "/index.html";
    } else {
      assert indexPath[0] == appPath[0];
      var path := "/" + indexPath;
      assert WithLeadingSlash(indexPath) == path;
      assert path == "/" + appPath + "/index.html";
      assert forall i :: 0 < i < |path| - 11 ==> path[i] == appPath[i - 1];
    }
  }

  /**
   * The first `/`-free part of the URI once at most one leading `/` is
   * dropped: the longest prefix of what remains that holds no `/`.
   */
  function FirstSegment(uri: string): (segment: string)
    ensures '/' !in segment
    ensures segment <= DropLeadingSlash(uri)
    ensures segment == DropLeadingSlash(uri) || DropLeadingSlash(uri)[|segment|] == '/'
  {
    Split(DropLeadingSlash(uri), '/')[0]
  }

  /**
   * What getIndexPath keeps: an empty first segment gives the root index
   * page, any other one `/<segment>/index.html`.
   */
  lemma GetIndexPathOfSegment(uri: string)
    ensures FirstSegment(uri) == [] ==> GetIndexPath(uri) == "/index.html"
    ensures FirstSegment(uri) != [] ==> GetIndexPath(uri) == "/" + FirstSegment(uri) + "/index.html"
  {
    var segment := FirstSegment(uri);
    assert GetIndexPath(uri) == WithLeadingSlash(segment + "/" + IndexPage);
    IndexPathOfSegment(segment);
  }

  lemma IndexPathOfSegment(segment: string)
    requires '/' !in segment
    ensures segment == [] ==> WithLeadingSlash(segment + "/" + IndexPage) == "/index.html"
    ensures segment != [] ==> WithLeadingSlash(segment + "/" + IndexPage) == "/" + segment + "/index.html"
  {
    var indexPath := segment + "/" + IndexPage;
    if segment != [] {
      assert indexPath[0] == segment[0] != '/';
      assert "/" + indexPath == "/" + segment + "/index.html";
    } else {
      assert indexPath == "/index.html";
    }
  }

  /** A URI whose remainder after the leading `/` holds no `/` is all one segment. */
  lemma FirstSegmentOfWhole(uri: string)
    requires '/' !in DropLeadingSlash(uri)
    ensures FirstSegment(uri) == DropLeadingSlash(uri)
  {
    SplitWithoutSeparator(DropLeadingSlash(uri), '/');
  }

  /** A URI whose remainder is `segment/rest` has `segment` as its first segment. */
  lemma FirstSegmentOfJoined(uri: string, segment: string, rest: string)
    requires '/' !in segment
    requires DropLeadingSlash(uri) == segment + "/" + rest
    ensures FirstSegment(uri) == segment
  {
    SplitHeadOfJoined(segment, rest, '/');
  }

  /** A one-segment URI such as `/en` goes to `/en/index.html`. */
  lemma GetIndexPathOfLanguage(language: string)
    requires language != [] && '/' !in language
    ensures GetIndexPath("/" + language) == "/" + language + "/index.html"
  {
    assert DropLeadingSlash("/" + language) == language;
    FirstSegmentOfWhole("/" + language);
    GetIndexPathOfSegment("/" + language);
  }

  /** A deeper URI such as `/it/foo/bar` goes to `/it/index.html`: only the first segment counts. */
  lemma GetIndexPathOfDeepUri(language: string, rest: string)
    requires language != [] && '/' !in language
    ensures GetIndexPath("/" + language + "/" + rest) == "/" + language + "/index.html"
  {
    var uri := "/" + language + "/" + rest;
    assert DropLeadingSlash(uri) == language + "/" + rest;
    FirstSegmentOfJoined(uri, language, rest);
    GetIndexPathOfSegment(uri);
  }

  /** The empty URI and `/` give the root index page. */
  lemma GetIndexPathOfRoot()
    ensures GetIndexPath("") == "/index.html"
    ensures GetIndexPath("/") == "/index.html"
  {
    FirstSegmentOfWhole("");
    GetIndexPathOfSegment("");
    assert DropLeadingSlash("/") == "";
    FirstSegmentOfWhole("/");
    GetIndexPathOfSegment("/");
  }

  /** Only one leading `/` is dropped, so `//x` has an empty first segment and gives the root index page. */
  lemma GetIndexPathDropsOneSlash(rest: string)
    ensures GetIndexPath("//" + rest) == "/index.html"
  {
    var uri := "//" + rest;
    assert DropLeadingSlash(uri) == "" + "/" + rest;
    FirstSegmentOfJoined(uri, "", rest);
    GetIndexPathOfSegment(uri);
  }

  /**
   * An index path under a segment is a fixed point of getIndexPath, but the
   * root index page is not: `/index.html` maps to `/index.html/index.html`.
   */
  lemma GetIndexPathFixedPoints(uri: string)
    ensures var path := GetIndexPath(uri);
            GetIndexPath(path) == path <==> path != "/index.html"
  {
    var path := GetIndexPath(uri);
    var segment := FirstSegment(uri);
    GetIndexPathOfSegment(uri);
    if segment == [] {
      RootIndexPathIsNotFixed();
    } else {
      assert DropLeadingSlash(path) == segment + "/" + IndexPage;
      FirstSegmentOfJoined(path, segment, IndexPage);
      GetIndexPathOfSegment(path);
    }
  }

  /** `/index.html` is read as a request for the segment `index.html`. */
  lemma RootIndexPathIsNotFixed()
    ensures GetIndexPath("/index.html") != "/index.html"
  {
    var path := "/" + IndexPage;
    assert "/" <= path;
    assert DropLeadingSlash(path) == IndexPage;
    FirstSegmentOfWhole(path);
    GetIndexPathOfSegment(path);
    assert |GetIndexPath(path)| == 22;
  }

  // ---------------------------------------------------------------- filterHeaders

  /**
   * `allowedHeaders.includes(name.toLowerCase())`: the name matches an
   * allowlisted name character by character once its ASCII capitals are
   * lowered.
   */
  predicate IsAllowed(name: string)
    ensures IsAllowed(name) <==> exists allowed :: allowed in AllowedHeaders && LowersTo(name, allowed)
  {
    LowersToLowerCase(name);
    ToLowerCase(name) in AllowedHeaders
  }

  /** Every allowlisted name, spelled as in the list, is kept. */
  lemma AllowedNamesAreKept()
    ensures forall name :: name in AllowedHeaders ==> IsAllowed(name)
  {
    forall name | name in AllowedHeaders
      ensures IsAllowed(name)
    {
      assert forall i :: 0 <= i < |name| ==> 'a' <= name[i] <= 'z' || name[i] == '-';
      LowerCaseKeepsLowerText(name);
    }
  }

  /** The header list `[{key: name, value}]` the source builds for a kept header: one entry, keyed by the name as spelled. */
  function HeaderList(name: string, value: string): (entries: seq<HeaderEntry>)
    ensures |entries| == 1
    ensures entries[0].key == Some(name) && entries[0].value == value
  {
    [HeaderEntry(Some(name), value)]
  }

  /**
   * The headers filterHeaders keeps: exactly the origin headers whose name,
   * lower-cased, is allowlisted, each under its own name as the origin
   * spelled it, with the list `[{key: name, value}]`.
   */
  function FilteredHeaders(headers: Option<map<string, string>>): (r: Headers)
    ensures headers.None? ==> r == map[]
    ensures headers.Some? ==> forall name :: name in r <==> name in headers.value && IsAllowed(name)
    ensures headers.Some? ==> forall name :: name in r ==> r[name] == [HeaderEntry(Some(name), headers.value[name])]
  {
    match headers
    case None => map[]
    case Some(h) => map name | name in h && IsAllowed(name) :: HeaderList(name, h[name])
  }

  /**
   * `filterHeaders`: walks the origin headers and copies each allowlisted
   * one, compared case-insensitively, into a fresh header map. Absent
   * headers give an empty map.
   */
  method FilterHeaders(headers: Option<map<string, string>>) returns (responseHeaders: Headers)
    ensures headers.None? ==> responseHeaders == map[]
    ensures headers.Some? ==>
              forall name :: name in responseHeaders <==> name in headers.value && IsAllowed(name)
    ensures headers.Some? ==>
              forall name :: name in responseHeaders ==> responseHeaders[name] == [HeaderEntry(Some(name), headers.value[name])]
    ensures responseHeaders == FilteredHeaders(headers)
  {
    responseHeaders := map[];
    if headers.Some? {
      var h := headers.value;
      var pending := h.Keys;
      while pending != {}
        invariant pending <= h.Keys
        invariant forall name :: name in responseHeaders <==> name in h && name !in pending && IsAllowed(name)
        invariant forall name :: name in responseHeaders ==> responseHeaders[name] == HeaderList(name, h[name])
        decreases pending
      {
        var headerName :| headerName in pending;
        if ToLowerCase(headerName) in AllowedHeaders {
          responseHeaders := responseHeaders[headerName := HeaderList(headerName, h[headerName])];
        }
        pending := pending - {headerName};
      }
    }
  }

  /** Whether a header is kept does not depend on the casing of its name. */
  lemma AllowedIgnoresCase(name: string)
    ensures IsAllowed(name) <==> IsAllowed(ToLowerCase(name))
  {
    LowerCaseIsIdempotent(name);
  }

  /** Two spellings of one allowed header are both kept, each under its own casing. */
  lemma FilterKeepsEverySpelling(h: map<string, string>, a: string, b: string)
    requires a in h && b in h && a != b
    requires ToLowerCase(a) == ToLowerCase(b) && IsAllowed(a)
    ensures var kept := FilteredHeaders(Some(h));
            && a in kept && b in kept
            && kept[a] == [HeaderEntry(Some(a), h[a])] && kept[b] == [HeaderEntry(Some(b), h[b])]
  {
  }

  // ---------------------------------------------------------------- generateResponseAndLog

  /** What the HTTP GET of the index page produced. */
  datatype FetchResult =
    | FetchFailed
    | Fetched(status: nat, headers: Option<map<string, string>>, data: string)

  /** A response generated by the Lambda; `body == None` is JavaScript's `undefined`. */
  datatype Generated = Generated(status: string, headers: Headers, body: Option<string>, path: string)

  /** The URL generateResponseAndLog fetches: an `https://` URL on the distribution, ending in the index path. */
  function IndexUrl(distributionDomainName: string, indexPath: string): (url: string)
    ensures "https://" <= url
    ensures |url| == 8 + |distributionDomainName| + |indexPath|
    ensures url[8..8 + |distributionDomainName|] == distributionDomainName
    ensures url[|url| - |indexPath|..] == indexPath
  {
    "https://" + distributionDomainName + indexPath
  }

  /**
   * The response returned when the fetch fails: status `'500'`, the error
   * text, and one `content-type: text/plain` header given without a `key`.
   * That header is spelled as it appears in the allowlist.
   */
  function ServerError(indexPath: string): (r: Generated)
    ensures r.status == "500" && r.body == Some(FailureBody) && r.path == indexPath
    ensures r.headers.Keys == {"content-type"} && r.headers["content-type"] == [HeaderEntry(None, "text/plain")]
    ensures forall name :: name in r.headers ==> name in AllowedHeaders
  {
    Generated("500", map[AllowedHeaders[0] := [HeaderEntry(None, "text/plain")]], Some(FailureBody), indexPath)
  }

  /**
   * `generateResponseAndLog`, with the fetch of the index page given as
   * `fetch`. The index page of the request's first segment is fetched
   * through the distribution; a failure gives a 500 with a single
   * `content-type: text/plain` header, a success the fetched status, body
   * and allowlisted headers. The path is the index path either way.
   */
  function GenerateResponse(distributionDomainName: string, uri: string, fetch: string -> FetchResult): (r: Generated)
    ensures r.path == GetIndexPath(uri)
    ensures fetch(IndexUrl(distributionDomainName, r.path)).FetchFailed? ==>
              && r.status == "500"
              && r.headers.Keys == {"content-type"}
              && r.headers["content-type"] == [HeaderEntry(None, "text/plain")]
              && r.body == Some(FailureBody)
    ensures fetch(IndexUrl(distributionDomainName, r.path)).Fetched? ==>
              var f := fetch(IndexUrl(distributionDomainName, r.path));
              && r.status == NumberToString(f.status)
              && r.body == Some(f.data)
              && (forall name :: name in r.headers <==> f.headers.Some? && name in f.headers.value && IsAllowed(name))
              && (forall name :: name in r.headers ==> r.headers[name] == [HeaderEntry(Some(name), f.headers.value[name])])
  {
    var indexPath := GetIndexPath(uri);
    match fetch(IndexUrl(distributionDomainName, indexPath))
    case FetchFailed => ServerError(indexPath)
    case Fetched(status, headers, data) =>
      Generated(NumberToString(status), FilteredHeaders(headers), Some(data), indexPath)
  }

  // ---------------------------------------------------------------- handler

  /**
   * `status == '403' || status == '404'`: loose equality. A number is
   * compared with the number the literal denotes, so a number matches
   * exactly when the strict `=== 403 || === 404` test would; a string is
   * compared as text, so it matches exactly when it is the canonical
   * decimal text of such a number.
   */
  predicate IsMissingLoose(status: Status)
    ensures status.Num? ==> (IsMissingLoose(status) <==> SpaResponseOrigin.IsMissingStrict(status))
    ensures status.Str? ==>
              (IsMissingLoose(status) <==>
                 IsCanonicalDecimal(status.s) && SpaResponseOrigin.IsMissingStrict(Num(DecimalValue(status.s))))
  {
    match status
    case Str(s) =>
      MissingStatusTexts(s);
      s == "403" || s == "404"
    case Num(n) => n == 403 || n == 404
  }

  /** The texts `'403'` and `'404'` are the only canonical decimal texts of 403 and 404. */
  lemma MissingStatusTexts(s: string)
    ensures (s == "403" || s == "404") <==> IsCanonicalDecimal(s) && (DecimalValue(s) == 403 || DecimalValue(s) == 404)
  {
    assert NumberToString(4) == "4";
    assert NumberToString(40) == "40";
    assert NumberToString(403) == "403" && NumberToString(404) == "404";
    if IsCanonicalDecimal(s) {
      DecimalRoundTrip(s);
    }
  }

  /** The handler returns the response it was given, or a generated one. */
  datatype Reply = Unchanged(response: Response) | Regenerated(generated: Generated)

  /**
   * `handler`: only a GET answered with 403 or 404 is regenerated, from the
   * index page of its URI; any other response object is returned as it is.
   */
  function Handler(request: Request, response: Response, distributionDomainName: string, fetch: string -> FetchResult): (r: Reply)
    reads request, response
    ensures r.Unchanged? <==> !(request.httpMethod == "GET" && IsMissingLoose(response.status))
    ensures r.Unchanged? ==> r.response == response
    ensures r.Regenerated? ==>
              && r.generated.path == GetIndexPath(request.uri)
              && r.generated == GenerateResponse(distributionDomainName, request.uri, fetch)
  {
    if request.httpMethod == "GET" && IsMissingLoose(response.status) then
      Regenerated(GenerateResponse(distributionDomainName, request.uri, fetch))
    else
      Unchanged(response)
  }

  /**
   * The string CloudFront sends and the equal number both count as a 403
   * or 404; other statuses do not.
   */
  lemma LooseStatusMatches()
    ensures IsMissingLoose(Str("404")) && IsMissingLoose(Num(404)) && IsMissingLoose(Str("403")) && IsMissingLoose(Num(403))
    ensures !IsMissingLoose(Str("200")) && !IsMissingLoose(Str("500")) && !IsMissingLoose(Str("0404"))
  {
  }

  // ---------------------------------------------------------------- the code as written

  /**
   * getIndexPath as written reads `this.INDEX_PAGE`. It is called as a
   * plain function inside an ES module, where `this` is `undefined`, so the
   * read throws before any path is built.
   */
  function GetIndexPathAsWritten(uri: string): (r: Result<string, JsError>)
    ensures r.Failure? && r.error.TypeError?
  {
    Failure(TypeError("Cannot read properties of undefined (reading 'INDEX_PAGE')"))
  }

  /** For a URI such as `/en` the code as written throws where the module constant gives `/en/index.html`. */
  lemma IndexPageLookupThrows(language: string)
    requires language != [] && '/' !in language
    ensures GetIndexPathAsWritten("/" + language).Failure?
    ensures GetIndexPath("/" + language) == "/" + language + "/index.html"
  {
    GetIndexPathOfLanguage(language);
  }

  /** What `httpGet` settles with: it rejects, or resolves with the body text alone. */
  datatype HttpGetResult = Rejected(reason: JsError) | Resolved(data: string)

  /**
   * generateResponseAndLog as written against the `httpGet` it calls, with
   * getIndexPath corrected so that this defect is seen on its own: the
   * promise resolves with the raw body string, so `response.status`,
   * `response.headers` and `response.data` are all `undefined`. The status
   * becomes the text "undefined", the headers are filtered from `undefined`
   * and the body is `undefined`.
   */
  function GenerateResponseAsWritten(distributionDomainName: string, uri: string, httpGet: string -> HttpGetResult): (r: Generated)
    ensures r.path == GetIndexPath(uri)
    ensures httpGet(IndexUrl(distributionDomainName, r.path)).Rejected? ==> r == ServerError(r.path)
    ensures httpGet(IndexUrl(distributionDomainName, r.path)).Resolved? ==>
              r.status == "undefined" && r.headers == map[] && r.body == None
  {
    var indexPath := GetIndexPath(uri);
    match httpGet(IndexUrl(distributionDomainName, indexPath))
    case Rejected(_) => ServerError(indexPath)
    case Resolved(_) => Generated("undefined", FilteredHeaders(None), None, indexPath)
  }

  /**
   * A page fetched successfully is lost as written: its body, status and
   * headers never reach the response, whereas the corrected model returns
   * them, the headers filtered.
   */
  lemma FetchedPageIsLost(
    distributionDomainName: string, uri: string,
    page: string, status: nat, headers: Option<map<string, string>>)
    ensures var asWritten := GenerateResponseAsWritten(distributionDomainName, uri, _ => Resolved(page));
            asWritten.body == None && asWritten.status == "undefined" && asWritten.headers == map[]
    ensures var corrected := GenerateResponse(distributionDomainName, uri, _ => Fetched(status, headers, page));
            && corrected.body == Some(page) && corrected.status == NumberToString(status)
            && corrected.headers == FilteredHeaders(headers)
  {
  }

  /**
   * Stands in for the ERR_INVALID_PROTOCOL TypeError Node's `http.get`
   * throws for an `https:` URL; Node names the URL's own protocol in the
   * message, which for every URL built here is `https:`.
   */
  const InvalidProtocol := TypeError("Protocol \"https:\" not supported. Expected \"http:\"")

  /**
   * Stands in for the other TypeErrors Node's `http.get` throws for a URL it
   * does not send: ERR_INVALID_PROTOCOL, naming the URL's protocol, for any
   * other scheme, and ERR_INVALID_URL for text that does not parse.
   */
  const UnsupportedUrl := TypeError("Invalid URL or protocol not supported. Expected \"http:\"")

  /**
   * `httpGet` as written: it calls `get` from Node's `http` module, which
   * sends only `http:` URLs. For an `https:` URL, and for any other URL,
   * it throws inside the promise executor, so the promise rejects.
   */
  function HttpGetAsWritten(url: string, network: string -> HttpGetResult): (r: HttpGetResult)
    ensures "http:" <= url ==> r == network(url)
    ensures "https:" <= url ==> r == Rejected(InvalidProtocol)
    ensures !("http:" <= url) ==> r.Rejected?
  {
    assert "https:" <= url ==> url[4] != "http:"[4];
    if "http:" <= url then network(url)
    else if "https:" <= url then Rejected(InvalidProtocol)
    else Rejected(UnsupportedUrl)
  }

  /**
   * Every URL generateResponseAndLog builds starts with `https://`, so with
   * getIndexPath corrected, every regeneration as written still ends in the
   * 500 response, whatever the network would have answered.
   */
  lemma EveryRegenerationFails(distributionDomainName: string, uri: string, network: string -> HttpGetResult)
    ensures GenerateResponseAsWritten(distributionDomainName, uri, url => HttpGetAsWritten(url, network))
              == ServerError(GetIndexPath(uri))
  {
    var path := GetIndexPath(uri);
    var httpGet := u => HttpGetAsWritten(u, network);
    HttpsIsRejected(IndexUrl(distributionDomainName, path), network);
    assert httpGet(IndexUrl(distributionDomainName, path)).Rejected?;
  }

  /** Node's `http.get` rejects every URL that starts with `https://`. */
  lemma HttpsIsRejected(url: string, network: string -> HttpGetResult)
    requires "https://" <= url
    ensures HttpGetAsWritten(url, network) == Rejected(InvalidProtocol)
  {
    assert url[..6] == "https:" && url[4] != "http:"[4];
  }

  /**
   * The handler as written, all three defects together: getIndexPath throws
   * before any fetch is made, so every request the handler means to
   * regenerate makes it reject with that TypeError, and only the responses
   * it passes through come back.
   */
  function HandlerAsWritten(request: Request, response: Response): (r: Result<Reply, JsError>)
    reads request, response
    ensures r.Failure? <==> request.httpMethod == "GET" && IsMissingLoose(response.status)
    ensures r.Failure? ==> r.error == GetIndexPathAsWritten(request.uri).error
    ensures r.Success? ==> r.value == Unchanged(response)
  {
    if request.httpMethod == "GET" && IsMissingLoose(response.status) then
      Failure(GetIndexPathAsWritten(request.uri).error)
    else
      Success(Unchanged(response))
  }
}
