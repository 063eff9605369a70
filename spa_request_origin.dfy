/**
 * The Lambda@Edge origin-request handler of
 * lib/spa-request-origin/index.mjs: a URI whose last component has no
 * extension is a client-side route, so it is sent to the index page;
 * requests for files with an extension go through unchanged.
 */
module SpaRequestOrigin {
  import opened Wrappers
  import opened NodePath
  import opened SpaIndex
  import opened CloudFrontEvents

  /**
   * The URI the handler leaves in `request.uri`. After the rewrite every URI
   * has an extension; a URI is changed exactly when it had none, and then
   * it becomes the index page of its first `/`-split part.
   */
  function RewriteUri(uri: string): (r: string)
    ensures Ext(r) != ""
    ensures r == uri <==> Ext(uri) != ""
    ensures r != uri ==> r == IndexUri(uri)
  {
    IndexUriHasHtmlExt(uri);
    if Ext(uri) == "" then IndexUri(uri) else uri
  }

  /** An extensionless absolute URI such as `/about` or `/en/` becomes exactly `/index.html`. */
  lemma RouteGoesToRootIndex(uri: string)
    requires |uri| > 0 && uri[0] == '/' && Ext(uri) == ""
    ensures RewriteUri(uri) == "/index.html"
  {
    AbsoluteUriGoesToRootIndex(uri);
  }

  /** Rewriting twice is rewriting once: the index page keeps its `.html`. */
  lemma RewriteIsIdempotent(uri: string)
    ensures RewriteUri(RewriteUri(uri)) == RewriteUri(uri)
  {
  }

  /** Asset requests such as `/main.js`, `/img/logo.png` or `/.config.json` pass through. */
  lemma AssetPassesThrough(dir: string, stem: string, suffix: string)
    requires stem != [] && '/' !in stem
    requires '.' !in suffix && '/' !in suffix
    requires stem + "." + suffix != ".."
    ensures RewriteUri(dir + "/" + stem + "." + suffix) == dir + "/" + stem + "." + suffix
  {
    ExtOfFile(dir, stem, suffix);
  }

  /**
   * The handler: rewrites `request.uri` in place when it has no extension,
   * then hands the same request to the callback with a null error.
   */
  method Handler(request: Request) returns (error: Option<JsError>, forwarded: Request)
    modifies request`uri
    ensures error == None && forwarded == request
    ensures request.uri == RewriteUri(old(request.uri))
  {
    if Ext(request.uri) == "" {
      request.uri := IndexUri(request.uri);
    }
    return None, request;
  }
}
