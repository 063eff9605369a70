# CloudFront edge functions of the static-sites stack, in Dafny

The stack serves static sites from S3 through CloudFront. Four small edge
functions decide what the origin sees and what the viewer gets back. This
project models those functions and proves what they do to URIs, statuses and
headers:

- **Viewer-request prefix strip** (`lib/handler.mjs`, a CloudFront Function).
  A leading `/sub-site/` of `request.uri` is replaced by `/`. The request
  object is changed in place and returned. Modelled in `viewer_request.dfy`.
- **SPA origin-request rewrite** (`lib/spa-request-origin/index.mjs`,
  Lambda@Edge). If the last component of the URI has no extension, as Node's
  `path.parse(uri).ext` decides, `request.uri` becomes
  `uri.split('/')[0] + '/index.html'`. The request then goes to the callback
  with a null error. Modelled in `spa_request_origin.dfy`.
- **SPA origin-response rewrite** (`lib/spa-response-origin/index.mjs`,
  Lambda@Edge). If the status is strictly `===` to the number 403 or 404,
  `response.uri` is rewritten the same way. Otherwise the response goes back
  unchanged. Modelled in `spa_response_origin.dfy`.
- **SPA redirect** (`lib/spa-redirect/index.mjs`, Lambda@Edge on origin
  responses). A `GET` answered with `'403'` or `'404'` (loose `==`) is
  regenerated. The Lambda fetches `https://<distribution><index path>`,
  where the index path is `/<first segment>/index.html`, or `/index.html`
  when the first segment is empty (the URI `/`). It returns either a
  500 fallback or the fetched status, body and allowlisted headers. Every
  other response is returned as it came. Modelled in `spa_redirect.dfy`.

Supporting modules:

- `js_string.dfy`: the JavaScript string operations the code uses.
  `split` with a one-character separator, proved to be the inverse of
  `join` in both directions. Also `toLowerCase` and number-to-text.
- `node_path.dfy`: Node's POSIX `path.parse(p).ext`, including its quirks.
  `.env` has no extension, `..` has none, but `/..` has the extension `.`.
- `spa_index.dfy`: the rewrite `uri.split('/')[0] + '/index.html'` that both
  SPA origin handlers share.
- `cloudfront_events.dfy`: the request and response records. They are
  classes, because the handlers assign to their `uri` property in place.
  `status` is a JavaScript value (`Num` or `Str`), because one handler
  compares loosely against strings and another strictly against numbers.
- `wrappers.dfy`: `Option` and `Result`.

Methods that assign `uri` declare `modifies request`uri` (or
`response`uri`). So every other property, status included, provably stays as
it was.

Code and intent diverge in three places in `lib/spa-redirect/index.mjs`;
see "## Findings". The model states the corrected behaviour, and models the
code as written beside it.

Two observations follow the code and are not changed:

- CloudFront hands `status` to Lambda@Edge as a string. The strict test in
  `lib/spa-response-origin/index.mjs` therefore never fires for it
  (`SpaResponseOrigin.StringStatusNeverMatches`). A CloudFront response also
  has no `uri`. If the numeric test did fire on such a response,
  `response.uri.split` would throw. The model returns that as a rejected
  completion.
- CloudFront URIs always start with `/`, so `uri.split('/')[0]` is empty. The
  request handler therefore sends every client-side route to the root
  `/index.html`, not to a per-segment index. The response handler would do
  the same if its test fired on a response that had a `uri`
  (`SpaIndex.AbsoluteUriGoesToRootIndex`). The redirect Lambda drops the
  leading `/` before splitting (lib/spa-redirect/index.mjs:154-156), and its
  doc comment (lines 142-146) names the first segment of `/en` as `en`, so
  that `/en` goes to `/en/index.html`. The two origin handlers do not drop
  the `/`. The model follows their code, so they keep a first segment only
  for relative URIs (`SpaIndex.RelativeUriKeepsFirstSegment`).

## Model

| member | source | states |
|---|---|---|
| `JsString.Split` | lib/spa-request-origin/index.mjs:19 | `split('/')` gives at least one piece. No piece holds `/`. Joining the pieces gives the input back. The first piece is the longest `/`-free prefix. |
| `JsString.SplitJoin` | lib/spa-redirect/index.mjs:159 | Splitting a join of `/`-free pieces gives the same pieces (the other direction of the round trip). |
| `JsString.SplitHeadOfJoined` | lib/spa-redirect/index.mjs:159 | The first piece of `a/b` is `a` when `a` holds no `/`. |
| `JsString.ToLowerCase` | lib/spa-redirect/index.mjs:133 | `toLowerCase` keeps the length and lowers each ASCII capital in place, leaving every other character as it is. |
| `JsString.LowerCaseKeepsLowerText` | lib/spa-redirect/index.mjs:133 | Text without ASCII capitals is its own lower case. |
| `JsString.LowersToLowerCase` | lib/spa-redirect/index.mjs:133 | A text lowers to a given text character by character, with equal lengths, exactly when `toLowerCase` returns that text. |
| `JsString.LowerCaseIsIdempotent` | lib/spa-redirect/index.mjs:133 | Lower-casing a header name twice is the same as lower-casing it once. |
| `JsString.NumberToString` | lib/spa-redirect/index.mjs:105 | A status rendered by the template literal is a non-empty run of decimal digits with no leading zero, and its decimal value is the status. |
| `JsString.DecimalRoundTrip` | lib/spa-redirect/index.mjs:105 | Every run of digits without a leading zero is the rendering of the number it denotes: the other direction of the round trip. |
| `NodePath.Base` | lib/spa-request-origin/index.mjs:18 | The last path component holds no `/`. It is the path, trailing slashes removed, from just after its last `/` to the end, or all of it when it has no `/`. It is empty exactly when the path is nothing but slashes. |
| `NodePath.TrimmedEmptyIffSlashes` | lib/spa-request-origin/index.mjs:18 | Removing trailing slashes leaves nothing exactly when the path is nothing but slashes. |
| `NodePath.Ext` | lib/spa-request-origin/index.mjs:18 | `path.parse(uri).ext` is empty or a `.` followed by text with no `.` or `/`, a proper suffix of the last component. It is empty exactly when the component has no dot, has its only dot first, or is `..` anywhere but directly under the root. |
| `NodePath.ExtOfBase` | lib/spa-request-origin/index.mjs:18 | The same three statements for a base name, with a flag that says whether it stands directly under the root. |
| `NodePath.LaterDot` | lib/spa-request-origin/index.mjs:18 | The last dot of a base is not its first character exactly when a dot follows the first character. The text from the last dot holds no other dot. |
| `NodePath.ExtOfName` | lib/spa-request-origin/index.mjs:18 | For any base other than `..` whose last dot is not its first character, the extension is the base from that dot on. |
| `NodePath.ParentEntryHasNoExt` | lib/spa-request-origin/index.mjs:18 | `dir/..` has no extension for any non-empty `dir`, `//..` included. |
| `NodePath.BareParentHasNoExt` | lib/spa-request-origin/index.mjs:18 | `..` has no extension. |
| `NodePath.RootParentHasDotExt` | lib/spa-request-origin/index.mjs:18 | `/..` has the extension `.`. |
| `NodePath.ExtOfIndexHtml` | lib/spa-request-origin/index.mjs:18-19 | Any path ending in `/index.html` has the extension `.html`. |
| `NodePath.ExtOfFile` | lib/spa-request-origin/index.mjs:18 | A last component `stem.suffix` other than `..`, with a non-empty stem, has the extension `.suffix`. Dot-led stems are included: `.a.b` has `.b` and `..env` has `.env`. |
| `NodePath.DotFileHasNoExt` | lib/spa-request-origin/index.mjs:18 | A dot-file component such as `.env` has no extension. |
| `SpaIndex.IndexUri` | lib/spa-request-origin/index.mjs:19 | The result is `/index.html` after a `/`-free prefix of the URI. That prefix reaches the URI's first `/` or its end. |
| `SpaIndex.AbsoluteUriGoesToRootIndex` | lib/spa-response-origin/index.mjs:21 | A URI starting with `/` is rewritten to exactly `/index.html`. |
| `SpaIndex.IndexUriHasHtmlExt` | lib/spa-request-origin/index.mjs:19 | The rewritten URI always has the extension `.html`. |
| `SpaIndex.RelativeUriKeepsFirstSegment` | lib/spa-response-origin/index.mjs:21 | `seg/rest` with a `/`-free `seg` becomes `seg/index.html`. |
| `ViewerRequest.StripSubSite` | lib/handler.mjs:3 | With the `/sub-site/` prefix, putting `/sub-site` back before the result restores the URI. Without it the URI is unchanged (the regex is anchored). |
| `ViewerRequest.StripChangesOnlyPrefixed` | lib/handler.mjs:3 | The URI changes if and only if it starts with `/sub-site/`. |
| `ViewerRequest.StripShortensByNine` | lib/handler.mjs:3 | A prefixed URI becomes exactly 9 characters shorter and still starts with `/`. |
| `ViewerRequest.StripIsNotIdempotent` | lib/handler.mjs:3 | Only the leading occurrence goes (no `g` flag). `/sub-site/sub-site/x` becomes `/sub-site/x`, and a second pass gives `/x`. |
| `ViewerRequest.StripIgnoresInnerOccurrence` | lib/handler.mjs:3 | `/seg/sub-site/rest` is left alone for every `/`-free first segment other than `sub-site` itself. |
| `ViewerRequest.Handler` | lib/handler.mjs:1-5 | Returns the same request object. Only its `uri` is assigned, to the stripped URI. |
| `SpaRequestOrigin.RewriteUri` | lib/spa-request-origin/index.mjs:18-19 | The URI changes if and only if it has no extension. A changed URI is the index URI of its first `/`-split part. Every result has an extension. |
| `SpaRequestOrigin.RouteGoesToRootIndex` | lib/spa-request-origin/index.mjs:18-19 | An extensionless URI starting with `/` becomes exactly `/index.html`. |
| `SpaRequestOrigin.RewriteIsIdempotent` | lib/spa-request-origin/index.mjs:18-19 | A second application changes nothing. |
| `SpaRequestOrigin.AssetPassesThrough` | lib/spa-request-origin/index.mjs:18 | A request for `dir/stem.suffix`, such as `/main.js` or `/.config.json`, is not rewritten. `..` is the only exception. |
| `SpaRequestOrigin.Handler` | lib/spa-request-origin/index.mjs:3-22 | Only `request.uri` is assigned, to the rewritten URI. The same request goes to the callback with a null error. |
| `SpaResponseOrigin.IsMissingStrict` | lib/spa-response-origin/index.mjs:20 | Only a number can pass the strict `=== 404 \|\| === 403` test. |
| `SpaResponseOrigin.StringStatusNeverMatches` | lib/spa-response-origin/index.mjs:20 | No string status passes the strict `=== 404 \|\| === 403` test. |
| `SpaResponseOrigin.Handler` | lib/spa-response-origin/index.mjs:3-27 | Any other status: callback once with a null error, `uri` unchanged. Strict 403/404: `uri` becomes the index URI, and the callback is called once with a null error. A missing `uri` on that path makes the handler reject with a TypeError. Status and all other properties never change. |
| `SpaRedirect.DropLeadingSlash` | lib/spa-redirect/index.mjs:154-156 | A URI starting with `/` loses exactly that one character. Any other URI is unchanged. |
| `SpaRedirect.WithLeadingSlash` | lib/spa-redirect/index.mjs:162-165 | The result starts with `/`. A `/` is added only when it is missing. |
| `SpaRedirect.LeadingSlashRoundTrip` | lib/spa-redirect/index.mjs:154-165 | Putting back the dropped `/` restores a `/`-led URI if and only if the URI does not start with `//`. |
| `SpaRedirect.IndexPathOfSegment` | lib/spa-redirect/index.mjs:161-165 | An empty segment gives `/index.html`. Any other `/`-free segment gives `/<segment>/index.html`. |
| `SpaRedirect.GetIndexPath` | lib/spa-redirect/index.mjs:150-168 | The index path starts with `/` and ends with `/index.html`. No `/` stands between the two. |
| `SpaRedirect.FirstSegment` | lib/spa-redirect/index.mjs:154-159 | The segment getIndexPath keeps holds no `/`. It is a prefix of the URI with one leading `/` dropped, and it ends at that text's end or at a `/`: the longest `/`-free prefix. |
| `SpaRedirect.GetIndexPathOfSegment` | lib/spa-redirect/index.mjs:150-167 | An empty first segment gives `/index.html`. Any other segment gives `/<segment>/index.html`. |
| `SpaRedirect.GetIndexPathOfLanguage` | lib/spa-redirect/index.mjs:142-145 | `/en` (any one `/`-free segment) goes to `/en/index.html`. |
| `SpaRedirect.GetIndexPathOfDeepUri` | lib/spa-redirect/index.mjs:142-146 | `/it/foo/bar` (any deeper URI) goes to `/it/index.html`. |
| `SpaRedirect.GetIndexPathOfRoot` | lib/spa-redirect/index.mjs:153-165 | The empty URI and `/` both give exactly `/index.html`. |
| `SpaRedirect.GetIndexPathDropsOneSlash` | lib/spa-redirect/index.mjs:153-156 | At most one leading `/` is dropped, so `//x...` gives `/index.html`. |
| `SpaRedirect.GetIndexPathFixedPoints` | lib/spa-redirect/index.mjs:150-167 | A result is a fixed point of getIndexPath if and only if it is not the root `/index.html`. |
| `SpaRedirect.RootIndexPathIsNotFixed` | lib/spa-redirect/index.mjs:159-165 | `/index.html` is read as the segment `index.html`, so it does not map to itself. |
| `SpaRedirect.IsAllowed` | lib/spa-redirect/index.mjs:133 | A header name is kept exactly when it lowers, character by character, to one of the allowlisted names. |
| `SpaRedirect.AllowedNamesAreKept` | lib/spa-redirect/index.mjs:118-126 | Every allowlisted name, written as listed, is kept. |
| `SpaRedirect.HeaderList` | lib/spa-redirect/index.mjs:134 | A kept header becomes a one-element list whose entry has the header's own name as `key` and its value. |
| `SpaRedirect.FilteredHeaders` | lib/spa-redirect/index.mjs:128-139 | Absent headers give an empty map. The kept names are exactly the input names whose lower case is allowlisted, each with `[{key: name, value}]`. |
| `SpaRedirect.FilterHeaders` | lib/spa-redirect/index.mjs:117-140 | Absent headers give an empty map. The kept names are exactly the input names whose lower case is allowlisted, in their original casing. Each maps to the one-element list `[{key: name, value}]`. |
| `SpaRedirect.AllowedIgnoresCase` | lib/spa-redirect/index.mjs:133 | A name is kept if and only if its lower-cased form is kept. |
| `SpaRedirect.FilterKeepsEverySpelling` | lib/spa-redirect/index.mjs:132-135 | Two spellings of one allowed header are both kept, each under its own key. |
| `SpaRedirect.IndexUrl` | lib/spa-redirect/index.mjs:74 | The URL is `https://`, then the distribution domain, then the index path. |
| `SpaRedirect.ServerError` | lib/spa-redirect/index.mjs:85-92 | The fallback has status `'500'`, the error text and the index path. Its one header is `content-type: text/plain` without a `key`, a name spelled as in the allowlist. |
| `SpaRedirect.GenerateResponse` | lib/spa-redirect/index.mjs:68-110 | The path is always getIndexPath of the URI. A failed fetch gives status `'500'`, one `content-type: text/plain` header (no key) and the error body. A successful fetch gives its status as text, its body and exactly its allowlisted headers. |
| `SpaRedirect.Handler` | lib/spa-redirect/index.mjs:12-45 | The response object comes back unchanged if and only if the request is not a `GET` answered with 403 or 404. Otherwise the result is the generated response for the request URI. |
| `SpaRedirect.IsMissingLoose` | lib/spa-redirect/index.mjs:32 | A number passes the loose test exactly when it passes the strict one. A string passes exactly when it is the canonical decimal text of a number that passes the strict one. |
| `SpaRedirect.MissingStatusTexts` | lib/spa-redirect/index.mjs:32 | `'403'` and `'404'` are the only canonical decimal texts whose value is 403 or 404. |
| `SpaRedirect.LooseStatusMatches` | lib/spa-redirect/index.mjs:32 | The loose test accepts the strings `'403'` and `'404'` that CloudFront sends, and the numbers 403 and 404. It rejects `'200'`, `'500'` and `'0404'`. |
| `SpaRedirect.GetIndexPathAsWritten` | lib/spa-redirect/index.mjs:161 | As written, reading `this.INDEX_PAGE` always throws a TypeError. |
| `SpaRedirect.IndexPageLookupThrows` | lib/spa-redirect/index.mjs:161 | For `/en` (any one-segment URI), the code as written throws where `/en/index.html` was meant. |
| `SpaRedirect.GenerateResponseAsWritten` | lib/spa-redirect/index.mjs:47-59 | As written, with getIndexPath corrected, a resolved fetch gives status `"undefined"`, no headers and an `undefined` body. A rejected fetch gives the 500 response. |
| `SpaRedirect.FetchedPageIsLost` | lib/spa-redirect/index.mjs:104-109 | The page body, status and headers are lost as written. The corrected model returns them, with the headers filtered. |
| `SpaRedirect.HttpGetAsWritten` | lib/spa-redirect/index.mjs:1 | `get` from Node's `http` module sends only `http:` URLs. It rejects every `https:` URL with the protocol error, and any other URL too. |
| `SpaRedirect.HttpsIsRejected` | lib/spa-redirect/index.mjs:1 | Every URL starting with `https://` is rejected. |
| `SpaRedirect.EveryRegenerationFails` | lib/spa-redirect/index.mjs:74-93 | As written, with getIndexPath corrected, every regeneration ends in the 500 response, whatever the network answers. |
| `SpaRedirect.HandlerAsWritten` | lib/spa-redirect/index.mjs:12-45 | As written, with all three defects, the handler rejects with getIndexPath's TypeError exactly when it means to regenerate. Every other response is returned unchanged. |

## Findings

| source | as written | input that shows it | evidently intended | confidence | as-written member | corrected member |
|---|---|---|---|---|---|---|
| lib/spa-redirect/index.mjs:161 | `getIndexPath` reads `this.INDEX_PAGE`. It is called as a plain function in an ES module, so `this` is `undefined` and the read throws a TypeError. The throw happens before the `try`, so the handler's promise rejects. | a `GET /en` answered with `'404'` | `/en/index.html`, using the module constant `INDEX_PAGE` of line 2 | high; not executed | `SpaRedirect.GetIndexPathAsWritten`, `SpaRedirect.IndexPageLookupThrows`, `SpaRedirect.HandlerAsWritten` | `SpaRedirect.GetIndexPath` |
| lib/spa-redirect/index.mjs:53 | `httpGet` resolves with the body text alone. Lines 105-107 read `.status`, `.headers` and `.data` from that string, which are all `undefined`. | a fetch that resolves with `<html>...</html>` | the fetched status, allowlisted headers and body | high; not executed | `SpaRedirect.GenerateResponseAsWritten`, `SpaRedirect.FetchedPageIsLost` | `SpaRedirect.GenerateResponse` |
| lib/spa-redirect/index.mjs:1 | `get` comes from Node's `http` module but is given an `https://` URL (line 74). It throws `ERR_INVALID_PROTOCOL` inside the promise executor, so the fetch always rejects. | any regenerated request, e.g. `GET /en` answered with `'403'` | an HTTPS fetch of the index page | high; not executed | `SpaRedirect.HttpGetAsWritten`, `SpaRedirect.EveryRegenerationFails` | `SpaRedirect.GenerateResponse` |

## Left out

- The CDK composition is not modelled: `lib/Site.ts`, `lib/CommonResources.ts`, `lib/cloudfront-s3-static-sites-stack.ts` and `bin/cloudfront-s3-static-sites.ts`. It declares buckets, distributions, WAF and origin access and owns no algorithm.
- Logging is not modelled: every `console.*` call, including the `parseInt(response.status) >= 400` guard around one (lib/spa-redirect/index.mjs:18). It does not affect any result.
- Async plumbing is abstracted. `async`, `await` and the callback are left out. A handler's result is what it returns or hands to the callback. A throw becomes a rejected completion or a `Failure`.
- The event wrapper `event.Records[0].cf` is not modelled. Handlers take the request and response objects directly. The distribution domain name is a parameter.
- The network is not modelled. The HTTP fetch is a parameter: a function from the URL to its outcome. The options object passed as the second argument of `httpGet` (line 81) is ignored by `httpGet`, so the `x-lambda-origin-request` header is never sent. The model's fetch takes only the URL.
- The unused `lens` object of `lib/handler.mjs` (lines 7-31) is not modelled.
- JavaScript numbers are modelled as integers. Fractional and `NaN` statuses are not represented.
- Header values are modelled as strings. Node can deliver a list for some headers, such as `set-cookie`.
- `toLowerCase` is modelled on ASCII letters only. Only two non-ASCII characters lower-case to text containing ASCII letters (U+0130 and U+212A), and neither can form an allowlisted name. So the allowlist test is the same either way.
- `SpaRedirect.FilterHeaders`: does not model the order of the keys in the result (JavaScript objects keep insertion order; Dafny maps are unordered).
- `SpaRedirect.HttpGetAsWritten`: decides by a case-sensitive `http:` / `https:` prefix. It does not model Node's URL parsing: upper-case schemes, or an `http:` URL that fails to parse. Only `https://` URLs reach it.
- `SpaRedirect.GenerateResponseAsWritten`: isolates the `httpGet` defect, with getIndexPath corrected. The composition of all three defects is `SpaRedirect.HandlerAsWritten`.
- `SpaRedirect.GenerateResponse`: takes the fetched status as a non-negative integer, rendered in decimal. It does not model other JavaScript values in that position.
