/** The request interception handler of the browser tests
    (specs/utils/filter-requests.js): favicon requests are aborted, scripts
    and stylesheets whose url contains `wp-content` are fetched again out of band and
    answered with that response, turned into a 404 when it is HTML or a
    redirect, and every other request is continued. */
module FilterRequests {
  import opened Options
  import opened Strings

  /** A response: status, the `content-type` header (`None` when the header
      is missing, which `headers.get` reports as `null`) and the body bytes. */
  datatype HttpResponse = HttpResponse(status: int, contentType: Option<string>, body: seq<bv8>)

  /** How the out-of-band `fetch` settled: with a response, or rejected. */
  datatype FetchOutcome = Fetched(response: HttpResponse) | FetchFailed

  /** What the handler does with a request, in the order it does it. */
  datatype Effect =
    | Abort                                          // request.abort()
    | Continue                                       // request.continue()
    | FetchOutOfBand(url: string, followRedirects: bool)  // fetch(url, { redirect: ... })
    | Respond(response: HttpResponse)                // request.respond({ status, contentType, body })

  const FaviconUrl := "/favicon.ico"
  const AssetDirectory := "wp-content"

  /** `['script', 'stylesheet'].includes(request.resourceType())` */
  predicate IsAssetType(resourceType: string) {
    resourceType == "script" || resourceType == "stylesheet"
  }

  /** The requests that are fetched out of band: scripts and stylesheets
      whose url contains `wp-content` anywhere. */
  predicate IsPluginAsset(url: string, resourceType: string) {
    IsAssetType(resourceType) && Contains(url, AssetDirectory)
  }

  /** `/^text\/html/.test(contentType)`; a missing header is tested as the
      text `null`, which does not match. */
  predicate IsHtml(contentType: Option<string>) {
    contentType.Some? && StartsWith(contentType.value, "text/html")
  }

  predicate IsRedirect(status: int) {
    300 <= status < 400
  }

  /** A script or stylesheet must never be answered by an HTML page with
      status 200, nor by a redirect. */
  predicate IsBrokenAsset(r: HttpResponse) {
    (r.status == 200 && IsHtml(r.contentType)) || IsRedirect(r.status)
  }

  /** The response the page receives for a fetched plugin asset: a broken
      one becomes a 404 with an empty body (keeping the fetched content
      type), any other is passed back unchanged. */
  function Substitute(r: HttpResponse): (s: HttpResponse)
    ensures !IsBrokenAsset(s)
    ensures s == r <==> !IsBrokenAsset(r)
    ensures s != r ==> s == HttpResponse(404, r.contentType, [])
  {
    if IsBrokenAsset(r) then HttpResponse(404, r.contentType, []) else r
  }

  /** The `.then` / `.catch` of the out-of-band fetch as intended: a
      response is answered with its substitute, a failed fetch falls back
      to continuing. */
  function Disposition(fetch: FetchOutcome): (e: Effect)
    ensures e.Continue? <==> fetch.FetchFailed?
    ensures fetch.Fetched? ==> e == Respond(Substitute(fetch.response))
  {
    match fetch
    case Fetched(r) => Respond(Substitute(r))
    case FetchFailed => Continue
  }

  /** The `.then` / `.catch` as written at filter-requests.js:39-47: the
      mirrored answer reads `response.body.buffer()`, but node-fetch's
      `response.body` is a stream without a `buffer()` method (that method
      is on the response), so building the answer throws inside `.then` and
      the `.catch` continues the request. Only the 404 path, which does not
      read the body, responds. */
  function DispositionAsWritten(fetch: FetchOutcome): (e: Effect)
    ensures e.Respond? <==> fetch.Fetched? && IsBrokenAsset(fetch.response)
    ensures e.Respond? ==> e == Respond(HttpResponse(404, fetch.response.contentType, []))
    ensures !e.Respond? ==> e == Continue
  {
    match fetch
    case Fetched(r) => if IsBrokenAsset(r) then Respond(Substitute(r)) else Continue
    case FetchFailed => Continue
  }

  /** A healthy script is continued by the code as written instead of being
      answered with the fetched response, as `Disposition` does. */
  lemma HealthyAssetNotMirroredAsWritten()
    ensures var r := HttpResponse(200, Some("application/javascript"), [0x61]);
      DispositionAsWritten(Fetched(r)) == Continue && Disposition(Fetched(r)) == Respond(r)
  {
    var r := HttpResponse(200, Some("application/javascript"), [0x61]);
    assert r.contentType.value[0] != "text/html"[0];
    assert !IsBrokenAsset(r);
  }

  /** Both readings agree on every response except a healthy one. */
  lemma DispositionsAgreeUnlessHealthy(fetch: FetchOutcome)
    requires fetch.FetchFailed? || IsBrokenAsset(fetch.response)
    ensures DispositionAsWritten(fetch) == Disposition(fetch)
  {
  }

  /** Everything the `request` handler does for one request. `fetch` is how
      the out-of-band fetch would settle; it is consulted only when the
      handler fetches. Nothing returns after `request.abort()`, so an
      aborted request goes on through the rest of the handler. */
  function HandlerEffects(url: string, resourceType: string, fetch: FetchOutcome): (es: seq<Effect>)
    ensures Abort in es <==> url == FaviconUrl
    ensures |es| >= 1 && (es[|es| - 1].Continue? || es[|es| - 1].Respond?)
    ensures FetchOutOfBand(url, false) in es <==> IsPluginAsset(url, resourceType)
    ensures forall e :: e in es && e.FetchOutOfBand? ==> e == FetchOutOfBand(url, false)
    ensures forall e :: e in es && e.Respond? ==>
      IsPluginAsset(url, resourceType) && fetch.Fetched? && e.response == Substitute(fetch.response)
  {
    var aborted := if url == FaviconUrl then [Abort] else [];
    if !IsAssetType(resourceType) || !Contains(url, AssetDirectory) then
      aborted + [Continue]
    else
      aborted + [FetchOutOfBand(url, false), Disposition(fetch)]
  }

  /** The favicon is aborted and then, since its url has no `wp-content`,
      also continued; it is never fetched nor answered. */
  lemma FaviconIsAbortedThenContinued(resourceType: string, fetch: FetchOutcome)
    ensures HandlerEffects(FaviconUrl, resourceType, fetch) == [Abort, Continue]
  {
    assert 'w' in AssetDirectory by {
      assert AssetDirectory[0] == 'w';
    }
    assert 'w' !in FaviconUrl by {
      forall k | 0 <= k < |FaviconUrl|
        ensures FaviconUrl[k] != 'w'
      {
      }
    }
    NotContainsWithoutChar(FaviconUrl, AssetDirectory, 'w');
  }

  /** A request that is not a script or stylesheet, or whose url has no
      `wp-content`, is continued without any out-of-band fetch. */
  lemma OtherRequestsPassThrough(url: string, resourceType: string, fetch: FetchOutcome)
    requires url != FaviconUrl
    requires !IsPluginAsset(url, resourceType)
    ensures HandlerEffects(url, resourceType, fetch) == [Continue]
  {
  }

  /** A plugin asset is fetched with redirects not followed, then answered
      with the substitute of what came back, or continued when the fetch fails. */
  lemma PluginAssetsAreFetched(url: string, resourceType: string, fetch: FetchOutcome)
    requires url != FaviconUrl
    requires IsPluginAsset(url, resourceType)
    ensures HandlerEffects(url, resourceType, fetch) ==
      [FetchOutOfBand(url, false), if fetch.Fetched? then Respond(Substitute(fetch.response)) else Continue]
  {
  }

  /** A 200 HTML answer to a plugin asset becomes a 404 with an empty body;
      a redirect becomes a 404 whatever its content type. */
  lemma BrokenAssetsBecome404(r: HttpResponse)
    requires (r.status == 200 && IsHtml(r.contentType)) || IsRedirect(r.status)
    ensures Substitute(r) == HttpResponse(404, r.contentType, [])
  {
  }

  /** Any other answer, a 200 that is not HTML or has no content type
      included, is passed back with its status, content type and body. */
  lemma OtherAnswersAreMirrored(r: HttpResponse)
    requires !(r.status == 200 && IsHtml(r.contentType)) && !IsRedirect(r.status)
    ensures Substitute(r) == r
  {
  }

  /** A request as the interception layer hands it to the handler, with
      a log of what has been done with it: the calls made on it and the
      out-of-band fetch of its url. */
  class InterceptedRequest {
    const url: string
    const resourceType: string
    var actions: seq<Effect>

    constructor (url: string, resourceType: string)
      ensures this.url == url && this.resourceType == resourceType
      ensures actions == []
    {
      this.url := url;
      this.resourceType := resourceType;
      actions := [];
    }

    method Abort()
      modifies this
      ensures actions == old(actions) + [Effect.Abort]
    {
      actions := actions + [Effect.Abort];
    }

    method Continue()
      modifies this
      ensures actions == old(actions) + [Effect.Continue]
    {
      actions := actions + [Effect.Continue];
    }

    method Respond(response: HttpResponse)
      modifies this
      ensures actions == old(actions) + [Effect.Respond(response)]
    {
      actions := actions + [Effect.Respond(response)];
    }

    /** `fetch(url, { redirect: 'manual' })`, as seen from this request. */
    method FetchManually()
      modifies this
      ensures actions == old(actions) + [FetchOutOfBand(url, false)]
    {
      actions := actions + [FetchOutOfBand(url, false)];
    }
  }

  /** The `request` handler, issuing its calls one after the other. */
  method OnRequest(request: InterceptedRequest, fetch: FetchOutcome)
    modifies request
    ensures request.actions == old(request.actions) + HandlerEffects(request.url, request.resourceType, fetch)
  {
    if request.url == FaviconUrl {
      request.Abort();
    }
    if !IsAssetType(request.resourceType) || !Contains(request.url, AssetDirectory) {
      request.Continue();
      return;
    }
    request.FetchManually();
    match fetch
    case Fetched(response) =>
      if (response.status == 200 && IsHtml(response.contentType)) || IsRedirect(response.status) {
        request.Respond(HttpResponse(404, response.contentType, []));
      } else {
        request.Respond(HttpResponse(response.status, response.contentType, response.body));
      }
    case FetchFailed =>
      request.Continue();
  }
}
