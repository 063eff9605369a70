/**
 * The parts of CloudFront's event records that the edge functions read or
 * write. The request and the response are objects the handlers update in
 * place, so they are classes; the values inside them are datatypes.
 */
module CloudFrontEvents {
  import opened Wrappers

  /**
   * A JavaScript value held in a `status` property. CloudFront hands the
   * status as a string such as "404"; a number is possible from any other
   * caller, and the handlers compare against both kinds.
   */
  datatype Status = Num(n: int) | Str(s: string)

  /** One element of a CloudFront header list `[{key, value}]`; `key` may be left out. */
  datatype HeaderEntry = HeaderEntry(key: Option<string>, value: string)

  /** Header lists keyed by header name. */
  type Headers = map<string, seq<HeaderEntry>>

  /** A JavaScript exception. */
  datatype JsError = TypeError(message: string)

  /** `event.Records[0].cf.request` (or `event.request` for a CloudFront Function); `httpMethod` is its `method`. */
  class Request {
    var uri: string
    var httpMethod: string
    var clientIp: string
    var headers: Headers
  }

  /**
   * `event.Records[0].cf.response`. CloudFront's origin-response record has
   * no `uri`; lib/spa-response-origin/index.mjs reads and writes one, so it
   * is kept here as a property that may be absent.
   */
  class Response {
    var status: Status
    var statusDescription: string
    var headers: Headers
    var uri: Option<string>
  }
}
