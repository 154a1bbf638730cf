# thundernet core, modelled in Dafny

thundernet is a gateway that fetches web pages on behalf of small clients and serves them a
simplified form. This project models three pieces of it and proves properties of them.

- **Navigation extraction and the HTML gate** (`simplifier.dfy`, module `Simplifier`).
  `createNavigation` scans the anchors of the first `<header>`/`<nav>` from left to right.
  It keeps the new `<nav>`'s links and a one-shot logo flag. An anchor is dropped when:
  - it is a jump link (`#` in its href);
  - it is visually hidden (a `px` width below 10);
  - its text repeats an accepted link's text;
  - its href contains a deny-listed keyword.
  The first accepted anchor with an image signal clears the `<nav>` and becomes an image-only
  logo link. `simplifyHtml` builds a body that holds only that `<nav>`. `simplifyResource`
  applies it behind a mimetype gate.
- **Resource retrieval** (`resources.dfy`, module `Resources`).
  - The depth and scheme checks.
  - The size limit, applied to the declared `content-length` and to the running total of
    streamed bytes.
  - Recursive redirect following.
  - The resource built on completion, and the compressed copy `retrieveResource` adds.
- **Operational status** (`status.dfy`, module `Status`). These are the module's `status` and
  `until` fields, their initial values, and `load`'s precedence:
  - the configured `off`/`decommissioned` wins;
  - then a persisted `tempoff`, with its `until`;
  - otherwise `active`.

Two support modules hold shared definitions. `Wrappers` has `Option` and `Result`.
`JsText` has the ECMAScript string primitives the code uses: the `\s`/`trim` white-space set,
`trim`, ASCII `toLowerCase`, `startsWith`/`endsWith`/`includes`, `indexOf`, a first-occurrence
`replace`, and `parseInt` with no radix.

Stateful code is imperative Dafny:
- `Simplifier.CreateNavigation` updates the link sequence and the logo flag in a loop, with
  the two `forEach` accumulations of `shouldCancel` as loops of their own.
- `Resources.ReadChunks` is the `data` handler as a loop.
- `Resources.Resource` is a class with a constructor only. `Resources.RetrieveResource`
  assigns its `compressedBuffer` field.
- `Status.OperationalStatus` is a class whose `Load` method assigns its `status` and `until`
  fields.

Each method is proved equal to a specification function:
- `CreateNavigation`, `SimplifyHtml` and `SimplifyResource` to `Navigation` (a fold of `Step`
  over the anchors, `Scan`);
- `VisitAnchor` to `Step`;
- `MatchesAcceptedText` to `IsDuplicate`, and `MatchesDenyKeyword` to `IsDenied`;
- `ReadChunks` to `RunningTotalExceeds`;
- `PerformResourceRequest` and `RetrieveResource` to `Request`;
- `OperationalStatus.Load` to `LoadEffect`.

The properties are lemmas about those functions.

Environment:
- The DOM is abstracted. A page is its title plus, for each `header, nav` match, that match's
  anchors reduced to the attributes the scan reads.
- Parsing and serialisation are opaque functions in `HtmlCodec`.
- The network is an oracle from a URL to what `get` does for it. It answers with a response,
  fails the request, or throws at once. A promise is its first settlement.
- The compressor is an opaque function.
- The configuration and state reads are passed to `Load` as values.

Facts of the code that the model keeps:
- An oversize response is a rejection with "Resource has exceeded maximum request size". It is
  not a successful resource flagged as too large.
- A resource stores the raw `content-type` header as its mimetype, parameters included. It
  has no `fromCache` or `lastUpdated` field.
- The depth check comes before the scheme check.
- The default size limit is 10 MiB (10485760 bytes), although the comment beside the constant
  says 10 KiB.

## Model

| member | source | states |
|---|---|---|
| Simplifier.CollapseSpaceRuns | simplifier.js:54 | deleting every white-space character that precedes another leaves no two white-space characters in a row, keeps the last character, keeps whether the first is white space, and keeps every other character in order |
| Simplifier.DropSRunsBeforeSpace | simplifier.js:40 | the literal-`s` pattern deletes exactly the runs of the letter `s` that end before white space: afterwards no `s` precedes white space and every character other than `s` is kept in order |
| Simplifier.LinkText | simplifier.js:54 | accepted link text neither starts nor ends with white space, has no white-space run longer than one, and keeps every non-white-space character of the raw text in order |
| Simplifier.CollapseSplit | simplifier.js:54 | across a character that is not white space, the text before it and the text after it are collapsed independently |
| Simplifier.CollapseRun | simplifier.js:54 | each maximal white-space run is replaced by its last character, and the text on each side is collapsed on its own |
| Simplifier.DropSplit | simplifier.js:40 | after a character other than `s`, the literal-`s` pattern works on the text before and after independently |
| Simplifier.DropSRun | simplifier.js:40 | a maximal run of `s` is deleted when white space follows it and kept whole otherwise |
| Simplifier.DropWithoutSBeforeSpace | simplifier.js:40 | text with no `s` right before white space is left unchanged by the literal-`s` pattern |
| Simplifier.LinkTextJoin | simplifier.js:54 | two pieces of text joined by a white-space run have their link text joined by that run's last character |
| Simplifier.KeysAgreeWithoutRuns | simplifier.js:40-54 | for raw text whose trimmed form has no white-space run and no `s` before white space, the duplicate key is the lowercased link text under both revisions |
| Simplifier.TrimKeepsNonSpace | simplifier.js:54 | `trim` removes only white space |
| Simplifier.LinkTextIdempotent | simplifier.js:54 | normalising link text a second time changes nothing |
| JsText.Trim | simplifier.js:40 | `trim` yields the longest slice with no white space at either end; everything cut off is white space |
| JsText.Lower | simplifier.js:40 | lowercasing keeps the length, leaves no capital letter, and keeps every character that is not a capital letter |
| JsText.LowerIdempotent | simplifier.js:40 | lowercasing a second time changes nothing |
| JsText.ParseInt | simplifier.js:32 | `parseInt` with no radix gives NaN exactly when no digit of its radix (16 after a `0x` prefix, else 10) follows the leading white space and optional sign, and gives a negative number only after a `-` |
| JsText.ParseIntPixels | simplifier.js:32 | `parseInt` reads a CSS pixel length such as `"7px"` back as its number |
| Simplifier.JumpLinkSkipped | simplifier.js:30-35 | an anchor with `#` in its href is skipped and leaves the `<nav>` as it was |
| Simplifier.PixelWidthHides | simplifier.js:30-35 | an anchor without `#` whose width is `n` written in `px` is treated as hidden exactly when `n < 10` |
| Simplifier.UrlArgAt | simplifier.js:62 | the match attempt at one position succeeds exactly when `url\(["']([^)]+)["']\)` matches there, and gives its group |
| Simplifier.FindUrl | simplifier.js:62 | the leftmost match of the `url(...)` pattern, or none at all |
| Simplifier.StyleUrl | simplifier.js:61-71 | a style declaration throws exactly when it mentions `url` and the quoted pattern matches nowhere; a group it yields is the group of the leftmost match; it yields nothing only when `url` is absent |
| Simplifier.StyleUrlLeftmost | simplifier.js:62 | when the pattern matches at some position and at none before it, the declaration yields that match's group |
| Simplifier.QuotedUrlRead | simplifier.js:61-65 | a declaration starting with a quoted `url(...)` yields the text between the quotes |
| Simplifier.UnquotedUrlThrows | simplifier.js:61-62 | a declaration that mentions `url` but has no quote character, such as `url(logo.png)`, throws |
| Simplifier.SvgWithNamespace | simplifier.js:80-85 | SVG markup that mentions `xmlns` is kept; otherwise the first `<svg ` becomes `<svg ` followed by the namespace attribute and a space, with the text before and after it unchanged; markup without `<svg ` is kept |
| Simplifier.LinkImagePrecedence | simplifier.js:56-88 | an anchor's image: an error from `background` first, then one from `backgroundImage`; otherwise the first `<svg>` (as a namespaced data URI) wins over the first `<img>`, which wins over `backgroundImage`'s URL, which wins over `background`'s; the alternative text is the `<img>`'s alt when there is an `<img>` and the link text otherwise; there is no image exactly when there is no `<svg>`, no `<img>` and neither style mentions `url` |
| JsText.ReplaceFirst | simplifier.js:84 | a string-pattern `replace` puts the replacement in place of the first occurrence, keeping the text before and after it, and changes nothing when there is none |
| JsText.IndexOf | simplifier.js:84 | the first occurrence of a substring, or none exactly when it does not occur |
| Simplifier.IsDuplicateIff | simplifier.js:39-41 | the duplicate test holds exactly when some accepted link's lowercased text equals the key |
| Simplifier.IsDeniedIff | simplifier.js:43-45 | an href is denied exactly when its lowercased form contains one of the sixteen keywords |
| Simplifier.MatchesAcceptedText | simplifier.js:39-41 | the accumulated `shouldCancel` is true exactly when some accepted link's lowercased text equals the key |
| Simplifier.MatchesDenyKeyword | simplifier.js:43-45 | the accumulated `shouldCancel` is true exactly when it already was or the lowercased href contains one of the sixteen keywords |
| Simplifier.VisitAnchor | simplifier.js:30-99 | the callback for one anchor produces the state `Step` specifies |
| Simplifier.CreateNavigation | simplifier.js:12-103 | the imperative scan returns the navigation `Navigation` specifies, or the error an anchor throws |
| Simplifier.StepExact | simplifier.js:47-99 | one anchor's step: a skipped anchor leaves the state as it was; otherwise an image error is thrown; otherwise an image while the logo is available replaces the `<nav>` with the single image-only link and takes the logo; otherwise the link with the normalised text is appended |
| Simplifier.AcceptedAnchorKept | simplifier.js:47-99 | an anchor not skipped at its turn ends the `<nav>` after its step with its href: appended behind every earlier link with its normalised text, or alone as the logo while the logo was available |
| Simplifier.ScanWellFormed | simplifier.js:29-100 | after any successful scan no link has `#` in its href or a deny-listed href, only the first link can be the logo, and while the logo is available there is none |
| Simplifier.ScanFromAnchors | simplifier.js:29-100 | the kept links were made, in the order of the anchors, from distinct scanned anchors that are neither jumps, hidden nor deny-listed, each with its anchor's href and, unless it is the logo, its normalised text |
| Simplifier.IntendedTextsDistinct | simplifier.js:39-54 | with the corrected duplicate test, no two kept links have the same lowercased text |
| Simplifier.LinksKeptAfterLogo | simplifier.js:90-99 | once the logo is taken it is never taken again, and every link kept by then stays, with later links only appended after it |
| Simplifier.LinksGrowWhileLogoUnchanged | simplifier.js:90-99 | while the logo flag is unchanged, every link kept so far stays, with later links only appended after it |
| Simplifier.NavigationShape | simplifier.js:12-103 | without a header or nav the navigation is the single link to `/` titled with the page title; otherwise it has the properties of the three scan lemmas above |
| Simplifier.OnlyFirstRegionScanned | simplifier.js:29 | two pages whose first header or nav has the same anchors get the same navigation |
| Simplifier.ErrorAbortsNavigation | simplifier.js:29-100 | an anchor that throws aborts the whole navigation, whatever follows it |
| Simplifier.ScanErrorSticks | simplifier.js:29-100 | once the scan has thrown, later anchors do not change the outcome |
| Simplifier.AsWrittenKeepsRepeatedText | simplifier.js:40 | as written, an anchor with a double space in its text, repeated verbatim, is kept twice |
| Simplifier.ScanRepeated | simplifier.js:37-54 | an anchor that is kept and has no image, scanned twice, is kept once when its normalised lowercased text equals its duplicate key and twice otherwise |
| Simplifier.IntendedSkipsRepeatedText | simplifier.js:40 | with the corrected pattern, the repeated anchor is kept once |
| Simplifier.SimplifyHtml | simplifier.js:105-121 | the new body is the serialisation of one `<nav>` holding exactly the navigation of the parsed page, or the error its scan throws |
| Simplifier.SimplifyResource | simplifier.js:123-131 | a resource that fails the gate is returned with its buffer untouched; otherwise its buffer becomes the encoded simplified page; status, mimetype and compressed buffer never change |
| Simplifier.MediaType | simplifier.js:124 | `split(";")[0]` is the longest prefix without `;` |
| Simplifier.HtmlMediaTypeIff | simplifier.js:124 | the corrected gate accepts `text/html` alone or followed by `;` and parameters, and nothing else |
| Simplifier.HtmlWithParameters | simplifier.js:124 | `text/html` followed by `;` and any parameters fails the gate as written and passes the corrected one |
| Simplifier.CharsetMimetypeMissed | simplifier.js:123-126 | `text/html; charset=utf-8` fails the gate as written, so the resource is returned untouched, but passes the corrected gate |
| Resources.Resource.constructor | resources.js:11-19 | a new resource holds the given buffer, status and mimetype, and no compressed buffer |
| Resources.DefaultLimitIsTenMiB | resources.js:8-46 | with no configured size, or size 0, a completed non-redirect response with no usable `content-length` resolves exactly when its body has at most 10485760 bytes, and is otherwise rejected with the size error |
| Resources.Concat | resources.js:61 | the concatenated buffer is as long as all chunks together |
| Resources.Request | resources.js:21-72 | depth above 5 rejects with the depth error before any scheme check; a URL without `http://` or `https://` rejects with the protocol error; a resolved request is never a redirect status and, for a non-negative limit, never longer than the limit |
| Resources.ThrowingGetRejects | resources.js:30-31 | a `get` that throws at once rejects the promise with the thrown error as its message |
| Resources.RunningTotalExceedsIffTotal | resources.js:41-51 | the running total exceeds the limit after some chunk exactly when there is a chunk and the whole body exceeds it |
| Resources.ReadChunks | resources.js:41-51 | the chunk loop stops exactly when the running total passes the limit, and otherwise has read every chunk in order |
| Resources.PerformResourceRequest | resources.js:21-72 | the request settles as `Request` specifies; a resolved resource is new, with no compressed buffer |
| Resources.RetrieveResource | resources.js:74-86 | a fetch that resolves gets `compressedBuffer = compress(buffer)` with every other field as fetched; a failed fetch propagates |
| Resources.CompletedRequestResolves | resources.js:53-65 | a request within the limit (a body of exactly the limit included, and a `content-length` that is NaN included) that completes with a non-redirect status gives the chunks concatenated in order, the status and the raw `content-type` |
| Resources.OversizeRejected | resources.js:35-51 | a declared length or streamed total above the limit rejects with the size error, before a stream error or a redirect is considered |
| Resources.RedirectSettlesAsTarget | resources.js:54-58 | a redirect settles as the request for `location` (or the same URL) at the next depth does |
| Resources.FollowChain | resources.js:53-58 | a chain of redirects lands where its last request, at the depth the chain reaches, lands |
| Resources.FiveRedirectsFollowed | resources.js:22-24 | five redirects in a row still reach the final server |
| Resources.SixthRedirectRejected | resources.js:22-24 | a sixth redirect in a row rejects with the depth error |
| Resources.RedirectFollowsLocation | resources.js:53-58 | a completed redirect within the limits settles as the request, one level deeper, for its `location` header when that is present and non-empty, and for the same URL otherwise |
| Resources.SelfRedirectRejected | resources.js:55 | a URL that redirects to itself, or gives no `location`, ends in the depth error from any depth |
| Status.OperationalStatus.constructor | status.js:4-5 | before any load the status is `off` and `until` is null |
| Status.OperationalStatus.Load | status.js:7-28 | the fields after `load` (and whether it threw) are those `LoadEffect` gives, and `until` is set only while `tempoff` |
| Status.LoadEffect | status.js:7-28 | `until` is kept only with `tempoff` and only when truthy; a failed read leaves the old status and a null `until`; otherwise the status is one of the four states |
| Status.ConfigOffIgnoresState | status.js:12-16 | a configured `off` or `decommissioned` becomes the status whatever the persisted state holds |
| Status.StateTempOffWins | status.js:20-25 | otherwise a persisted `tempoff` becomes the status, and `until` is the persisted value when it is truthy and null otherwise |
| Status.LoadThrowsIff | status.js:7-18 | `load` throws exactly when the configuration read throws, or when the configuration is neither `off` nor `decommissioned` and the state read throws; it then leaves the status as it was and `until` null |
| Status.OtherwiseActive | status.js:27 | in every other case the status is `active` with no `until` |
| Status.LoadForgetsPrior | status.js:7-28 | a load that reads its inputs does not depend on the status before it |

## Left out

- The jsdom parse, `querySelectorAll`, href and `src` URL resolution, and `body.innerHTML`/`Buffer` conversions are foreign library calls. They are opaque functions, and a page is given as the anchors they would find.
- `encodeURIComponent` stays symbolic: an SVG logo source is `SvgDataUri(markup)`, standing for the `data:image/svg+xml,` URI of the encoded markup.
- `toLowerCase` is modelled for ASCII letters only. There is no Unicode case mapping.
- `textContent` of a logo link is taken as empty, since it holds only an `<img>`.
- The `console.log` of the `header, nav` matches is a side effect with no logic.
- Real sockets, stream events, `response.destroy()` and settlement timing are I/O and concurrency. A response is a status, headers, a chunk sequence and how the stream ended, and a promise is its first settlement.
- Resources.PerformResourceRequest: an error on the request itself (a failed connection) has no listener, so the promise never settles. The model gives `Pending` and does not model the process-level error event. A `get` that throws at once (for example on a malformed URL) is modelled: the promise rejects with the thrown error.
- `config.data.size` is modelled as an integer or absent. Other JSON values and their truthiness are not modelled.
- The `compression` and `ep` modules are not part of this model. `compress` is an opaque function, and its asynchrony (and a failure of it) is not modelled.
- Status.OperationalStatus.Load: `config.load()` and `state.load()` are file reads. Their results are passed in, and either may throw.
- Status.OperationalStatus.Load: the statuses are taken as strings, so the loose equality against `"tempoff"` for non-string JSON values is not modelled. `new Date(until)` is kept as the value it is built from.
- The bare `<svg>` case: markup that spells its opening tag without a following space gets no namespace inserted, as in the code. The model states this and does not treat it as a defect.
- server.js, config.js, state.js, encryption.js, db.js, main.js and simplifier.test.js are not part of this model. They hold HTTP routing, file I/O, cryptography wrappers, database setup and bootstrap.
- Cache lookup, eviction, and article and footer extraction have no code in the files modelled.

## Findings

| source | as written | input that shows it | evidently intended | confidence | as-written member | corrected member |
|---|---|---|---|---|---|---|
| simplifier.js:40 | the duplicate test normalises the candidate's text with `/s+(?=\s)/g` (literal `s`), while accepted link text uses `/\s+(?=\s)/g`, so text with a white-space run never equals the stored text | two identical anchors with href `/a` and text `a  b` (two spaces): both are kept | the same `\s+(?=\s)` normalisation on both sides, so a repeated anchor is kept once | not executed | Simplifier.AsWrittenKeepsRepeatedText | Simplifier.IntendedTextsDistinct |
| simplifier.js:124 | `"text/html".split(";")[0]` splits the constant rather than the mimetype, so only a mimetype of exactly `text/html` is simplified | a page served as `text/html; charset=utf-8` is returned unsimplified | `resource.mimetype.split(";")[0] != "text/html"`: parameters after `;` are ignored | not executed | Simplifier.CharsetMimetypeMissed | Simplifier.HtmlMediaTypeIff |

Both findings are selected by a `Revision` value (`AsWritten` or `Intended`). It is passed to
`CreateNavigation`, `SimplifyHtml` and `SimplifyResource`. `AsWritten` is the code as it
stands, and `Intended` is the code with the two slips corrected. The scan lemmas hold for both
revisions, except `IntendedTextsDistinct`, which holds only for the corrected one.
