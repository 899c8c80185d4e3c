/** Values the worker handles: requests, responses and the outcome of a
    network fetch. The browser's Request, Response and Headers objects are
    reduced to immutable records; `response.clone()` is the identity. */
module Http {

  datatype Option<+T> = None | Some(value: T) {
    function GetOr(default: T): T
    {
      if Some? then value else default
    }
  }

  /** The `type` attribute of a fetched response. */
  datatype ResponseType = Basic | Cors | Default | Error | Opaque | OpaqueRedirect

  datatype Response = Response(
    status: int,
    statusText: string,
    kind: ResponseType,
    body: string,
    headers: map<string, string>)

  /** A request as the fetch event sees it. The cache keys a request by its URL. */
  datatype Request = Request(verb: string, url: string)

  /** What `fetch` does with a request: reject (offline, DNS failure, ...),
      or resolve with a response value, which the worker's guard also allows
      to be absent. */
  datatype NetworkOutcome = NetworkError | Delivered(response: Option<Response>)

  const Get: string := "GET"

  /** The validity test of the fetch handler: present, status exactly 200 and
      not a network-error response. Every response it lets through is one
      `addAll` would also accept. */
  predicate IsValidResponse(r: Option<Response>): (b: bool)
    ensures b <==> AcceptedByAddAll(Delivered(r)) && r.value.status == 200
  {
    r.Some? && r.value.status == 200 && r.value.kind != Error
  }

  /** The response the fetch handler synthesizes when the network fails and
      nothing is cached. */
  function OfflineFallback(): (r: Response)
    ensures r.status == 503 && r.statusText == "Service Unavailable"
    ensures r.body == "Offline - Page not cached"
    ensures r.headers == map["Content-Type" := "text/plain"]
    ensures !IsValidResponse(Some(r))
  {
    Response(503, "Service Unavailable", Default, "Offline - Page not cached",
             map["Content-Type" := "text/plain"])
  }

  /** The test `Cache.addAll` applies to each fetched response before it
      stores any of them (section "addAll(requests)" of the W3C Service
      Workers specification): resolved, not an error response, an ok status
      (200 to 299) and not 206 Partial Content. */
  predicate AcceptedByAddAll(o: NetworkOutcome)
  {
    && o.Delivered?
    && o.response.Some?
    && o.response.value.kind != Error
    && 200 <= o.response.value.status <= 299
    && o.response.value.status != 206
  }
}
