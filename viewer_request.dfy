/**
 * The CloudFront Function of lib/handler.mjs, run on viewer requests: it
 * replaces a leading `/sub-site/` of the request URI by `/`, so that the
 * origin sees paths relative to the sub-site. The pattern is anchored
 * (`^`) and has no `g` flag, so at most the one leading occurrence goes.
 */
module ViewerRequest {
  import opened CloudFrontEvents

  const SubSitePrefix := "/sub-site/"

  /** `uri.replace(/^\/sub-site\//, "/")`. */
  function StripSubSite(uri: string): (r: string)
    ensures SubSitePrefix <= uri ==> "/sub-site" + r == uri
    ensures !(SubSitePrefix <= uri) ==> r == uri
  {
    if SubSitePrefix <= uri then "/" + uri[|SubSitePrefix|..] else uri
  }

  /** The URI changes exactly when it starts with `/sub-site/`. */
  lemma StripChangesOnlyPrefixed(uri: string)
    ensures StripSubSite(uri) != uri <==> SubSitePrefix <= uri
  {
    if SubSitePrefix <= uri {
      assert |StripSubSite(uri)| == |uri| - 9;
    }
  }

  /** When the prefix is there, the URI is exactly nine characters shorter and still starts with `/`. */
  lemma StripShortensByNine(uri: string)
    requires SubSitePrefix <= uri
    ensures |StripSubSite(uri)| == |uri| - 9
    ensures StripSubSite(uri)[0] == '/'
  {
  }

  /** Only the leading occurrence is removed, so the rewrite is not idempotent. */
  lemma StripIsNotIdempotent()
    ensures StripSubSite("/sub-site/sub-site/x") == "/sub-site/x"
    ensures StripSubSite(StripSubSite("/sub-site/sub-site/x")) == "/x"
  {
    assert SubSitePrefix <= "/sub-site/sub-site/x";
    assert "/sub-site/sub-site/x"[10..] == "sub-site/x";
    assert SubSitePrefix <= "/sub-site/x";
    assert "/sub-site/x"[10..] == "x";
  }

  /**
   * An occurrence behind a first segment, as in `/a/sub-site/x`, is left
   * alone: only a first segment that is `sub-site` itself is stripped.
   */
  lemma StripIgnoresInnerOccurrence(segment: string, rest: string)
    requires '/' !in segment && segment != "sub-site"
    ensures StripSubSite("/" + segment + SubSitePrefix + rest) == "/" + segment + SubSitePrefix + rest
  {
    var uri := "/" + segment + SubSitePrefix + rest;
    var k: nat;
    if |segment| < 8 {
      k := |segment| + 1;
      assert uri[k] == '/';
    } else if |segment| > 8 {
      k := 9;
      assert uri[k] == segment[8];
    } else {
      var i :| 0 <= i < 8 && segment[i] != "sub-site"[i];
      k := i + 1;
      assert uri[k] == segment[i];
    }
    assert k < |SubSitePrefix| && uri[k] != SubSitePrefix[k];
  }

  /**
   * The handler: rewrites `request.uri` in place and returns the same
   * request object; no other property of the request changes.
   */
  method Handler(request: Request) returns (r: Request)
    modifies request`uri
    ensures r == request
    ensures request.uri == StripSubSite(old(request.uri))
  {
    request.uri := StripSubSite(request.uri);
    r := request;
  }
}
