/** The service worker's install, activate, fetch and message handlers over
    the cache storage they share. Each handler runs to completion as one
    step; the promise chains and `event.waitUntil` are not modelled. */
module ServiceWorker {
  import opened Http
  import opened CacheStorage
  import Events
  import opened Precache

  /** The current bucket; bumping it is how old entries are invalidated. */
  const CacheName: string := "noor-services-v1"

  /** What the fetch handler does with the event: leave it to the browser,
      or answer it (possibly with an absent response, passed through). */
  datatype FetchResult = NotIntercepted | RespondWith(response: Option<Response>)

  /** Activation's deletion pass: over the key list read at the start,
      every name other than `current` has its bucket deleted. The result is
      the storage once all the deletions are done. */
  method DeleteStale(cacheNames: seq<string>, buckets: map<string, Bucket>, current: string)
    returns (keys: seq<string>, store: map<string, Bucket>)
    requires WellFormed(cacheNames, buckets)
    ensures WellFormed(keys, store)
    ensures keys == Kept(cacheNames, current)
    ensures store == Surviving(buckets, current)
    ensures cacheNames == Kept(cacheNames, current) ==> keys == cacheNames && store == buckets
  {
    keys, store := cacheNames, buckets;
    var i := 0;
    while i < |cacheNames|
      invariant 0 <= i <= |cacheNames|
      invariant keys == Kept(cacheNames[..i], current) + cacheNames[i..]
      invariant store == Pruned(buckets, cacheNames[..i], current)
    {
      var n := cacheNames[i];
      PruneStep(cacheNames, i, current, keys);
      PrunedStep(buckets, cacheNames, i, current);
      if n != current {
        // a stale bucket: delete it
        keys := Remove(keys, n);
        store := store - {n};
      }
      i := i + 1;
    }
    assert cacheNames[..i] == cacheNames;
    ActivationOutcome(cacheNames, buckets, current);
  }

  class Worker {
    /** The manifest this worker precaches at install. */
    const manifest: seq<string>
    /** Bucket names in `caches.keys()` order. */
    var names: seq<string>
    var buckets: map<string, Bucket>
    /** Set once `self.skipWaiting()` has been called. */
    var skipWaitingCalled: bool
    /** Set once `self.clients.claim()` has been called. */
    var clientsClaimed: bool

    ghost predicate Valid()
      reads this
    {
      WellFormed(names, buckets)
    }

    /** A worker starting over whatever storage earlier versions left. */
    constructor (storedNames: seq<string>, storedBuckets: map<string, Bucket>)
      requires WellFormed(storedNames, storedBuckets)
      ensures Valid()
      ensures manifest == Manifest
      ensures names == storedNames && buckets == storedBuckets
      ensures !skipWaitingCalled && !clientsClaimed
    {
      manifest := Manifest;
      names := storedNames;
      buckets := storedBuckets;
      skipWaitingCalled := false;
      clientsClaimed := false;
    }

    /** Install: open (creating if needed) the current bucket, then add the
        whole manifest in one batch; a failed batch stores nothing and its
        error is swallowed. `network` says how each manifest fetch ends. */
    method Install(network: string -> NetworkOutcome)
      requires Valid()
      modifies this
      ensures Valid()
      ensures names == Opened(old(names), CacheName)
      ensures buckets == old(buckets)[CacheName := AddAll(BucketOf(old(buckets), CacheName), manifest, network)]
      ensures CacheName in buckets
      ensures (forall i :: 0 <= i < |manifest| ==> AcceptedByAddAll(network(manifest[i]))) ==>
                forall i :: 0 <= i < |manifest| ==> manifest[i] in buckets[CacheName]
      ensures skipWaitingCalled && clientsClaimed == old(clientsClaimed)
    {
      // open the current bucket, created empty when absent
      var bucket := BucketOf(buckets, CacheName);
      // add the whole manifest as one batch; a rejected batch is caught
      var added := AddAll(bucket, manifest, network);
      OpenKeepsWellFormed(names, buckets, CacheName, added);
      names, buckets := Opened(names, CacheName), buckets[CacheName := added];
      // ask to take over without waiting for old clients to close
      skipWaitingCalled := true;
    }

    /** Activate: every bucket whose name is not the current one is deleted;
        the current bucket, if present, is kept as it was. */
    method Activate()
      requires Valid()
      modifies this
      ensures Valid()
      ensures names == Kept(old(names), CacheName)
      ensures buckets == Surviving(old(buckets), CacheName)
      ensures old(names) == Kept(old(names), CacheName) ==> names == old(names) && buckets == old(buckets)
      ensures clientsClaimed && skipWaitingCalled == old(skipWaitingCalled)
    {
      names, buckets := DeleteStale(names, buckets, CacheName);
      // take control of the open clients
      clientsClaimed := true;
    }

    /** Fetch: network first. Non-GET requests are left alone; a valid
        response is returned and a copy put in the current bucket; any other
        response is returned untouched; on network failure the request is
        looked up across all buckets, falling back to a 503 response.
        `outcome` is what the network did with the request. */
    method Fetch(request: Request, outcome: NetworkOutcome) returns (result: FetchResult)
      requires Valid()
      modifies this
      ensures Valid()
      ensures skipWaitingCalled == old(skipWaitingCalled) && clientsClaimed == old(clientsClaimed)
      ensures request.verb != Get ==> result == NotIntercepted
      ensures request.verb == Get && outcome.Delivered? ==> result == RespondWith(outcome.response)
      ensures request.verb == Get && outcome.NetworkError? ==>
                result == RespondWith(Some(Lookup(old(names), old(buckets), request.url).GetOr(OfflineFallback())))
      ensures request.verb == Get && outcome.Delivered? && IsValidResponse(outcome.response) ==>
                && names == Opened(old(names), CacheName)
                && buckets == old(buckets)[CacheName := BucketOf(old(buckets), CacheName)[request.url := outcome.response.value]]
      ensures !(request.verb == Get && outcome.Delivered? && IsValidResponse(outcome.response)) ==>
                names == old(names) && buckets == old(buckets)
    {
      if request.verb != Get {
        return NotIntercepted;
      }
      match outcome {
        case Delivered(response) =>
          if !IsValidResponse(response) {
            return RespondWith(response);
          }
          // open the current bucket and put the copy under the URL
          var bucket := BucketOf(buckets, CacheName);
          OpenKeepsWellFormed(names, buckets, CacheName, bucket[request.url := response.value]);
          names, buckets := Opened(names, CacheName), buckets[CacheName := bucket[request.url := response.value]];
          return RespondWith(response);
        case NetworkError =>
          // the first cached copy in any bucket, else the offline response
          var cached := Lookup(names, buckets, request.url);
          return RespondWith(Some(cached.GetOr(OfflineFallback())));
      }
    }

    /** The message handler: a SKIP_WAITING message calls `skipWaiting`. */
    method OnMessage(data: Option<Events.MessageData>)
      modifies this`skipWaitingCalled
      ensures skipWaitingCalled == (old(skipWaitingCalled) || Events.MessageTask(data) == Some(Events.SkipWaiting))
    {
      if Events.MessageTask(data) == Some(Events.SkipWaiting) {
        skipWaitingCalled := true;
      }
    }
  }

  /** An upgrade, end to end: whatever an earlier version left in storage,
      once this version has installed with every manifest fetch accepted and
      then activated, an offline GET for a manifest path is answered with the
      response fetched at install, not with a stale copy or the fallback. */
  method OfflineAfterUpgrade(storedNames: seq<string>, storedBuckets: map<string, Bucket>,
                             network: string -> NetworkOutcome, i: nat)
    returns (result: FetchResult)
    requires WellFormed(storedNames, storedBuckets)
    requires forall j :: 0 <= j < |Manifest| ==> AcceptedByAddAll(network(Manifest[j]))
    requires i < |Manifest|
    ensures network(Manifest[i]).Delivered? && result == RespondWith(network(Manifest[i]).response)
  {
    var worker := new Worker(storedNames, storedBuckets);
    worker.Install(network);
    ghost var installed := worker.buckets[CacheName];
    assert Manifest[i] in installed && installed[Manifest[i]] == network(Manifest[i]).response.value;
    LookupAfterActivation(worker.names, worker.buckets, CacheName, Manifest[i]);
    worker.Activate();
    result := worker.Fetch(Request(Get, Manifest[i]), NetworkError);
  }

  /** Activation is idempotent: over any stored buckets, a second activation
      right after the first deletes nothing more, and the storage left is the
      current bucket alone, as the first one left it. */
  method ActivateTwice(storedNames: seq<string>, storedBuckets: map<string, Bucket>)
    returns (once: map<string, Bucket>, twice: map<string, Bucket>, namesOnce: seq<string>, namesTwice: seq<string>)
    requires WellFormed(storedNames, storedBuckets)
    ensures namesTwice == namesOnce && twice == once
    ensures once == Surviving(storedBuckets, CacheName)
    ensures namesOnce == Kept(storedNames, CacheName)
  {
    var worker := new Worker(storedNames, storedBuckets);
    worker.Activate();
    once, namesOnce := worker.buckets, worker.names;
    worker.Activate();
    twice, namesTwice := worker.buckets, worker.names;
  }
}
