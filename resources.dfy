/**
 * Resource retrieval: the depth and scheme checks, the size limit on the declared length
 * and on the bytes streamed, redirect following, and the compressed copy added by
 * `retrieveResource`.
 *
 * The network is an oracle `net` from a URL to what the request for it produces; the
 * compressor is an opaque function on bytes. A promise is modelled by its first
 * settlement (`Settlement`): later calls to `resolve`/`reject` have no effect.
 */
module Resources {
  import opened Wrappers
  import opened JsText

  newtype byte = x: int | 0 <= x < 256

  /** The default size limit, `10 * 1024 * 1024` bytes (10 MiB). */
  const MaxDefaultRequestSize: int := 10 * 1024 * 1024
  const MaxRedirectionDepth: nat := 5
  /** Status codes that are followed as redirects. */
  const RedirectStatuses: seq<int> := [301, 302, 303, 304, 307, 308]

  const DepthMessage: string := "Max redirection depth exceeded"
  const ProtocolMessage: string := "URL must include a protocol identifier of either HTTP or HTTPS"
  const SizeMessage: string := "Resource has exceeded maximum request size"

  /** A fetched artifact: the raw bytes, the status code, the raw `content-type` header
      (absent when the response has none) and the compressed bytes, `None` until set. */
  class Resource {
    var buffer: seq<byte>
    var status: int
    var mimetype: Option<string>
    var compressedBuffer: Option<seq<byte>>

    constructor (buffer: seq<byte>, status: int, mimetype: Option<string>)
      ensures this.buffer == buffer && this.status == status && this.mimetype == mimetype
      ensures compressedBuffer == None
    {
      this.buffer := buffer;
      this.status := status;
      this.mimetype := mimetype;
      compressedBuffer := None;
    }
  }

  /** What `Number(...)` makes of a header value. */
  datatype JsNumber = NaN | Finite(value: real) | PositiveInfinity | NegativeInfinity

  /** `n > limit` in JavaScript: false whenever `n` is NaN. */
  predicate GreaterThan(n: JsNumber, limit: int)
    ensures n.NaN? || n.NegativeInfinity? ==> !GreaterThan(n, limit)
    ensures n.PositiveInfinity? ==> GreaterThan(n, limit)
    ensures n.Finite? ==> (GreaterThan(n, limit) <==> n.value > limit as real)
  {
    match n
    case NaN => false
    case Finite(v) => v > limit as real
    case PositiveInfinity => true
    case NegativeInfinity => false
  }

  /** How the response stream ends after its chunks: an `end` event or an `error` event. */
  datatype Ending = Completed | Failed(error: string)

  /** A response: status code, `location` header, `Number` of the `content-length` header,
      `content-type` header, the `data` chunks in order, and how the stream ends. */
  datatype Response = Response(
    statusCode: int,
    location: Option<string>,
    contentLength: JsNumber,
    contentType: Option<string>,
    chunks: seq<seq<byte>>,
    ending: Ending)

  /** A request either gets a response, fails before one arrives, or is refused by `get`
      itself, which throws at once (an unparsable URL such as `http://`). */
  datatype Exchange = Answered(response: Response) | RequestFailed | Throws(error: string)

  /** Why a request is rejected; a throw inside the promise's executor rejects it with the
      thrown error. */
  datatype Reason = DepthExceeded | MissingProtocol | TooLarge | StreamFailed(error: string) | Thrown(error: string)

  /** The first settlement of a promise; `Pending` when it never settles. */
  datatype Settlement<T> = Resolved(value: T) | Rejected(reason: Reason) | Pending

  /** The fields a completed request gives the new `Resource`. */
  datatype Fetched = Fetched(buffer: seq<byte>, status: int, mimetype: Option<string>)

  /** The value each rejection passes to `reject`. */
  function Message(reason: Reason): string {
    match reason
    case DepthExceeded => DepthMessage
    case MissingProtocol => ProtocolMessage
    case TooLarge => SizeMessage
    case StreamFailed(e) => e
    case Thrown(e) => e
  }

  /** `config.data.size || MAX_DEFAULT_REQUEST_SIZE`, with the configured size absent or a
      number. */
  function Limit(sizeSetting: Option<int>): (limit: int)
    ensures sizeSetting.Some? && sizeSetting.value != 0 ==> limit == sizeSetting.value
    ensures sizeSetting.None? || sizeSetting.value == 0 ==> limit == 10485760
  {
    if sizeSetting.Some? && sizeSetting.value != 0 then sizeSetting.value else MaxDefaultRequestSize
  }

  /** The number of bytes in `chunks`. */
  function TotalLength(chunks: seq<seq<byte>>): nat {
    if chunks == [] then 0 else TotalLength(chunks[..|chunks| - 1]) + |chunks[|chunks| - 1]|
  }

  /** `Buffer.concat(chunks)`. */
  function Concat(chunks: seq<seq<byte>>): (r: seq<byte>)
    ensures |r| == TotalLength(chunks)
  {
    if chunks == [] then [] else Concat(chunks[..|chunks| - 1]) + chunks[|chunks| - 1]
  }

  /** After some `data` event the running total is over the limit. */
  predicate RunningTotalExceeds(chunks: seq<seq<byte>>, limit: int) {
    exists k :: 1 <= k <= |chunks| && TotalLength(chunks[..k]) > limit
  }

  predicate HasProtocol(url: string) {
    StartsWith(url, "http://") || StartsWith(url, "https://")
  }

  predicate IsRedirect(code: int) {
    code in RedirectStatuses
  }

  /** `response.headers["location"] || url`: the `location` header unless it is missing or
      empty, in which case the same URL is requested again. */
  function RedirectTarget(resp: Response, url: string): (r: string)
    ensures r != url ==> resp.location == Some(r) && r != ""
    ensures resp.location.None? || resp.location == Some("") ==> r == url
    ensures resp.location.Some? && resp.location.value != "" ==> r == resp.location.value
  {
    if resp.location.Some? && resp.location.value != "" then resp.location.value else url
  }

  /** How `performResourceRequest(url, depth)` settles. */
  function Request(net: string -> Exchange, sizeSetting: Option<int>, url: string, depth: nat): (s: Settlement<Fetched>)
    ensures depth > MaxRedirectionDepth ==> s == Rejected(DepthExceeded)
    ensures depth <= MaxRedirectionDepth && !HasProtocol(url) ==> s == Rejected(MissingProtocol)
    ensures s.Resolved? ==> !IsRedirect(s.value.status)
    ensures s.Resolved? && Limit(sizeSetting) >= 0 ==> |s.value.buffer| <= Limit(sizeSetting)
    decreases MaxRedirectionDepth + 1 - depth
  {
    if depth > MaxRedirectionDepth then Rejected(DepthExceeded)
    else if !HasProtocol(url) then Rejected(MissingProtocol)
    else match net(url)
      case RequestFailed => Pending
      case Throws(e) => Rejected(Thrown(e))
      case Answered(resp) =>
        var limit := Limit(sizeSetting);
        if GreaterThan(resp.contentLength, limit) || RunningTotalExceeds(resp.chunks, limit) then Rejected(TooLarge)
        else if resp.ending.Failed? then Rejected(StreamFailed(resp.ending.error))
        else if IsRedirect(resp.statusCode) then Request(net, sizeSetting, RedirectTarget(resp, url), depth + 1)
        else
          assert resp.chunks != [] ==> resp.chunks[..|resp.chunks|] == resp.chunks;
          Resolved(Fetched(Concat(resp.chunks), resp.statusCode, resp.contentType))
  }

  /** The running total never decreases, so it exceeds the limit at some point exactly
      when there is a chunk and the whole length exceeds it. */
  lemma {:induction false} RunningTotalExceedsIffTotal(chunks: seq<seq<byte>>, limit: int)
    ensures RunningTotalExceeds(chunks, limit) <==> chunks != [] && TotalLength(chunks) > limit
  {
    if RunningTotalExceeds(chunks, limit) {
      var k :| 1 <= k <= |chunks| && TotalLength(chunks[..k]) > limit;
      PrefixLengthBound(chunks, k);
      assert chunks[..|chunks|] == chunks;
    }
    if chunks != [] && TotalLength(chunks) > limit {
      assert chunks[..|chunks|] == chunks;
    }
  }

  lemma {:induction false} PrefixLengthBound(chunks: seq<seq<byte>>, k: nat)
    requires k <= |chunks|
    ensures TotalLength(chunks[..k]) <= TotalLength(chunks)
    decreases |chunks|
  {
    if k < |chunks| {
      var init := chunks[..|chunks| - 1];
      assert init[..k] == chunks[..k];
      PrefixLengthBound(init, k);
    } else {
      assert chunks[..k] == chunks;
    }
  }

  /** The promise's state that the method mirrors. */
  ghost predicate Mirrors(s: Settlement<Resource>, spec: Settlement<Fetched>)
    reads if s.Resolved? then {s.value} else {}
  {
    match s
    case Resolved(r) =>
      spec.Resolved? && r.buffer == spec.value.buffer && r.status == spec.value.status
      && r.mimetype == spec.value.mimetype
    case Rejected(e) => spec == Rejected(e)
    case Pending => spec == Pending
  }

  /** The `data` handler applied to each chunk in turn: push the chunk, add its length to
      the running size, and stop (destroy and reject) once the size is over the limit. */
  method ReadChunks(chunks: seq<seq<byte>>, limit: int) returns (data: seq<seq<byte>>, exceeded: bool)
    ensures exceeded == RunningTotalExceeds(chunks, limit)
    ensures !exceeded ==> data == chunks
  {
    data := [];
    var size := 0;
    var i := 0;
    exceeded := false;
    while i < |chunks| && !exceeded
      invariant 0 <= i <= |chunks|
      invariant data == chunks[..i]
      invariant size == TotalLength(data)
      invariant !exceeded ==> forall k :: 1 <= k <= i ==> TotalLength(chunks[..k]) <= limit
      invariant exceeded ==> 1 <= i && TotalLength(chunks[..i]) > limit
    {
      assert chunks[..i + 1][..i] == chunks[..i];
      data := data + [chunks[i]];
      size := size + |chunks[i]|;
      if size > limit {
        exceeded := true;
      }
      i := i + 1;
    }
    if !exceeded {
      assert data == chunks;
    }
  }

  /** `performResourceRequest`: the checks, the `data` handler as a loop over the chunks
      (push, add the length, reject once over the limit), and the `end` handler. */
  method PerformResourceRequest(net: string -> Exchange, sizeSetting: Option<int>, url: string, depth: nat)
    returns (s: Settlement<Resource>)
    ensures Mirrors(s, Request(net, sizeSetting, url, depth))
    ensures s.Resolved? ==> fresh(s.value) && s.value.compressedBuffer == None
    decreases MaxRedirectionDepth + 1 - depth
  {
    if depth > MaxRedirectionDepth {
      return Rejected(DepthExceeded);
    }
    if !StartsWith(url, "http://") && !StartsWith(url, "https://") {
      return Rejected(MissingProtocol);
    }
    var exchange := net(url);
    if exchange.RequestFailed? {
      return Pending;
    }
    if exchange.Throws? {
      return Rejected(Thrown(exchange.error));
    }
    var response := exchange.response;
    var limit := Limit(sizeSetting);
    if GreaterThan(response.contentLength, limit) {
      return Rejected(TooLarge);
    }
    var data, exceeded := ReadChunks(response.chunks, limit);
    if exceeded {
      return Rejected(TooLarge);
    }
    if response.ending.Failed? {
      return Rejected(StreamFailed(response.ending.error));
    }
    if response.statusCode in RedirectStatuses {
      s := PerformResourceRequest(net, sizeSetting, RedirectTarget(response, url), depth + 1);
      return;
    }
    var resource := new Resource(Concat(data), response.statusCode, response.contentType);
    return Resolved(resource);
  }

  /** `retrieveResource`: fetch from depth 0, then store `compress(buffer)` on the resource;
      a rejected fetch propagates and nothing is compressed. */
  method RetrieveResource(net: string -> Exchange, sizeSetting: Option<int>, compress: seq<byte> -> seq<byte>, url: string)
    returns (s: Settlement<Resource>)
    ensures Mirrors(s, Request(net, sizeSetting, url, 0))
    ensures s.Resolved? ==> fresh(s.value) && s.value.compressedBuffer == Some(compress(s.value.buffer))
  {
    s := PerformResourceRequest(net, sizeSetting, url, 0);
    if s.Resolved? {
      var resource := s.value;
      resource.compressedBuffer := Some(compress(resource.buffer));
    }
  }

  // ---------------------------------------------------------------------------
  // Properties of the request

  /** `from` answers with a redirect to `to` that is within the size limit and completes. */
  predicate RedirectsTo(net: string -> Exchange, sizeSetting: Option<int>, from: string, to: string) {
    && HasProtocol(from)
    && net(from).Answered?
    && var resp := net(from).response;
    && !GreaterThan(resp.contentLength, Limit(sizeSetting))
    && !RunningTotalExceeds(resp.chunks, Limit(sizeSetting))
    && resp.ending.Completed?
    && IsRedirect(resp.statusCode)
    && RedirectTarget(resp, from) == to
  }

  /** Following a chain of redirects lands where the last request, issued at the depth
      the chain reaches, lands; each hop adds one to the depth. */
  lemma {:induction false} FollowChain(net: string -> Exchange, sizeSetting: Option<int>, urls: seq<string>, depth: nat)
    requires |urls| >= 1 && depth + |urls| <= MaxRedirectionDepth + 2
    requires forall i :: 0 <= i < |urls| - 1 ==> RedirectsTo(net, sizeSetting, urls[i], urls[i + 1])
    ensures Request(net, sizeSetting, urls[0], depth) == Request(net, sizeSetting, urls[|urls| - 1], depth + |urls| - 1)
    decreases |urls|
  {
    if |urls| > 1 {
      assert RedirectsTo(net, sizeSetting, urls[0], urls[1]);
      FollowChain(net, sizeSetting, urls[1..], depth + 1);
    }
  }

  /** Five redirects in a row still reach the final server, whose answer decides. */
  lemma FiveRedirectsFollowed(net: string -> Exchange, sizeSetting: Option<int>, urls: seq<string>)
    requires |urls| == 6
    requires forall i :: 0 <= i < 5 ==> RedirectsTo(net, sizeSetting, urls[i], urls[i + 1])
    ensures Request(net, sizeSetting, urls[0], 0) == Request(net, sizeSetting, urls[5], MaxRedirectionDepth)
  {
    FollowChain(net, sizeSetting, urls, 0);
  }

  /** A sixth redirect in a row is rejected with the depth error. */
  lemma SixthRedirectRejected(net: string -> Exchange, sizeSetting: Option<int>, urls: seq<string>)
    requires |urls| == 7
    requires forall i :: 0 <= i < 6 ==> RedirectsTo(net, sizeSetting, urls[i], urls[i + 1])
    ensures Request(net, sizeSetting, urls[0], 0) == Rejected(DepthExceeded)
  {
    FollowChain(net, sizeSetting, urls, 0);
  }

  /** A URL that redirects to itself (or gives no `location`) ends in the depth error,
      from whatever depth it is first requested. */
  lemma {:induction false} SelfRedirectRejected(net: string -> Exchange, sizeSetting: Option<int>, url: string, depth: nat)
    requires RedirectsTo(net, sizeSetting, url, url)
    ensures Request(net, sizeSetting, url, depth) == Rejected(DepthExceeded)
    decreases MaxRedirectionDepth + 1 - depth
  {
    if depth <= MaxRedirectionDepth {
      SelfRedirectRejected(net, sizeSetting, url, depth + 1);
    }
  }

  /** What a request within the limits that completes with a non-redirect status yields:
      the chunks concatenated, the status and the raw `content-type` header. A body of
      exactly the limit is accepted, and a NaN `content-length` never rejects. */
  lemma CompletedRequestResolves(net: string -> Exchange, sizeSetting: Option<int>, url: string, depth: nat)
    requires depth <= MaxRedirectionDepth && HasProtocol(url) && net(url).Answered?
    requires !GreaterThan(net(url).response.contentLength, Limit(sizeSetting))
    requires TotalLength(net(url).response.chunks) <= Limit(sizeSetting)
    requires net(url).response.ending.Completed? && !IsRedirect(net(url).response.statusCode)
    ensures var resp := net(url).response;
            Request(net, sizeSetting, url, depth)
            == Resolved(Fetched(Concat(resp.chunks), resp.statusCode, resp.contentType))
  {
    RunningTotalExceedsIffTotal(net(url).response.chunks, Limit(sizeSetting));
  }

  /** Oversize is a rejection, whether declared or streamed, and it wins over a stream
      error and over a redirect status. */
  lemma OversizeRejected(net: string -> Exchange, sizeSetting: Option<int>, url: string, depth: nat)
    requires depth <= MaxRedirectionDepth && HasProtocol(url) && net(url).Answered?
    requires var resp := net(url).response;
             GreaterThan(resp.contentLength, Limit(sizeSetting))
             || (resp.chunks != [] && TotalLength(resp.chunks) > Limit(sizeSetting))
    ensures Request(net, sizeSetting, url, depth) == Rejected(TooLarge)
  {
    RunningTotalExceedsIffTotal(net(url).response.chunks, Limit(sizeSetting));
  }

  /** Without a configured size (or with size 0) the limit is 10 MiB: a completed
      non-redirect response with no usable `content-length` resolves exactly when its
      body has at most 10485760 bytes. */
  lemma DefaultLimitIsTenMiB(net: string -> Exchange, sizeSetting: Option<int>, url: string, depth: nat)
    requires sizeSetting.None? || sizeSetting == Some(0)
    requires depth <= MaxRedirectionDepth && HasProtocol(url) && net(url).Answered?
    requires net(url).response.contentLength.NaN?
    requires net(url).response.ending.Completed? && !IsRedirect(net(url).response.statusCode)
    ensures Request(net, sizeSetting, url, depth).Resolved? <==> TotalLength(net(url).response.chunks) <= 10485760
    ensures !Request(net, sizeSetting, url, depth).Resolved? ==> Request(net, sizeSetting, url, depth) == Rejected(TooLarge)
  {
    RunningTotalExceedsIffTotal(net(url).response.chunks, Limit(sizeSetting));
  }

  /** A completed redirect within the limits is followed to a non-empty `location` header,
      and otherwise to the same URL, one level deeper. */
  lemma RedirectFollowsLocation(net: string -> Exchange, sizeSetting: Option<int>, url: string, depth: nat)
    requires depth <= MaxRedirectionDepth && HasProtocol(url) && net(url).Answered?
    requires !GreaterThan(net(url).response.contentLength, Limit(sizeSetting))
    requires !RunningTotalExceeds(net(url).response.chunks, Limit(sizeSetting))
    requires net(url).response.ending.Completed? && IsRedirect(net(url).response.statusCode)
    ensures var location := net(url).response.location;
            location.Some? && location.value != "" ==>
              Request(net, sizeSetting, url, depth) == Request(net, sizeSetting, location.value, depth + 1)
    ensures var location := net(url).response.location;
            location.None? || location == Some("") ==>
              Request(net, sizeSetting, url, depth) == Request(net, sizeSetting, url, depth + 1)
  {
  }

  /** A `get` that throws at once rejects the promise with the thrown error. */
  lemma ThrowingGetRejects(net: string -> Exchange, sizeSetting: Option<int>, url: string, depth: nat)
    requires depth <= MaxRedirectionDepth && HasProtocol(url) && net(url).Throws?
    ensures Request(net, sizeSetting, url, depth) == Rejected(Thrown(net(url).error))
    ensures Message(Request(net, sizeSetting, url, depth).reason) == net(url).error
  {
  }

  /** A redirect within the limits settles as the request for its target at the next
      depth does. */
  lemma RedirectSettlesAsTarget(net: string -> Exchange, sizeSetting: Option<int>, url: string, depth: nat)
    requires depth <= MaxRedirectionDepth && net(url).Answered?
    requires RedirectsTo(net, sizeSetting, url, RedirectTarget(net(url).response, url))
    ensures Request(net, sizeSetting, url, depth)
            == Request(net, sizeSetting, RedirectTarget(net(url).response, url), depth + 1)
  {
  }
}
