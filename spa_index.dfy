/**
 * The rewrite `uri.split('/')[0] + '/index.html'` that both SPA origin
 * handlers apply: keep what precedes the first `/` and append the index page.
 */
module SpaIndex {
  import opened JsString
  import opened NodePath

  const IndexSuffix := "/index.html"

  /**
   * The result is a prefix of `uri` that holds no `/` and reaches up to the
   * first `/` of `uri` (or its end), followed by `/index.html`.
   */
  function IndexUri(uri: string): (r: string)
    ensures |r| >= |IndexSuffix| && r[|r| - |IndexSuffix|..] == IndexSuffix
    ensures r[..|r| - |IndexSuffix|] <= uri
    ensures '/' !in r[..|r| - |IndexSuffix|]
    ensures |r| - |IndexSuffix| == |uri| || uri[|r| - |IndexSuffix|] == '/'
  {
    var head := Split(uri, '/')[0];
    assert (head + IndexSuffix)[..|head|] == head;
    head + IndexSuffix
  }

  /** Every URI CloudFront forwards starts with `/`, so it is sent to the root `/index.html`. */
  lemma AbsoluteUriGoesToRootIndex(uri: string)
    requires |uri| > 0 && uri[0] == '/'
    ensures IndexUri(uri) == "/index.html"
  {
  }

  /** The rewritten URI always carries the extension `.html`. */
  lemma IndexUriHasHtmlExt(uri: string)
    ensures Ext(IndexUri(uri)) == ".html"
  {
    ExtOfIndexHtml(Split(uri, '/')[0]);
  }

  /** A relative URI keeps its first segment: `en/about` becomes `en/index.html`. */
  lemma RelativeUriKeepsFirstSegment(segment: string, rest: string)
    requires '/' !in segment
    ensures IndexUri(segment + "/" + rest) == segment + "/index.html"
  {
    SplitHeadOfJoined(segment, rest, '/');
  }
}
