/**
 * The Lambda@Edge origin-response handler of
 * lib/spa-response-origin/index.mjs: on a 403 or 404 it points
 * `response.uri` at the index page; any other response goes back as it is.
 * The status test is a strict `===` against the numbers 403 and 404.
 */
module SpaResponseOrigin {
  import opened Wrappers
  import opened SpaIndex
  import opened CloudFrontEvents

  /** `status === 404 || status === 403`: only a numeric status can match. */
  predicate IsMissingStrict(status: Status)
    ensures IsMissingStrict(status) ==> status.Num?
  {
    status == Num(404) || status == Num(403)
  }

  /** CloudFront hands the status as a string, and no string passes the strict test. */
  lemma StringStatusNeverMatches(s: string)
    ensures !IsMissingStrict(Str(s))
  {
  }

  /**
   * How the handler ends: the callback is called once with a null error
   * and the response, or the returned promise rejects with the error thrown.
   */
  datatype Completion = Callback(error: Option<JsError>, response: Response) | Rejected(reason: JsError)

  /** The error `response.uri.split` throws when the response has no `uri`. */
  const UriMissing := TypeError("Cannot read properties of undefined (reading 'split')")

  /**
   * The handler. On a strict 403 or 404 `response.uri` is rewritten in
   * place; a response without `uri` makes the handler throw. Status and
   * every other property stay as they were.
   */
  method Handler(response: Response) returns (c: Completion)
    modifies response`uri
    ensures !IsMissingStrict(response.status) ==> c == Callback(None, response) && response.uri == old(response.uri)
    ensures IsMissingStrict(response.status) && old(response.uri).Some? ==>
              c == Callback(None, response) && response.uri == Some(IndexUri(old(response.uri).value))
    ensures IsMissingStrict(response.status) && old(response.uri).None? ==>
              c == Rejected(UriMissing) && response.uri == None
  {
    if IsMissingStrict(response.status) {
      match response.uri
      case None =>
        return Rejected(UriMissing);
      case Some(uri) =>
        response.uri := Some(IndexUri(uri));
        return Callback(None, response);
    }
    return Callback(None, response);
  }
}
