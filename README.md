# Offline-caching service worker of the مؤسسة النور site, in Dafny

This project models `sw.js`, the service worker of a small static site. The
worker precaches a fixed manifest of 18 paths at install. At activation it
deletes every cache bucket except `noor-services-v1`. It answers GET requests
network-first: a valid network response is returned and a copy is stored;
when the network fails, a cached copy is returned, and failing that a 503
"Offline - Page not cached" response. It also dispatches a `SKIP_WAITING`
message and two sync tags, builds the notification shown for a push, and
chooses the window to focus or open when a notification is clicked.

Modules:

- `Http` (`http.dfy`): requests, responses and network outcomes as values;
  the fetch handler's validity test; the offline fallback response; the test
  `Cache.addAll` applies to each fetched response.
- `CacheStorage` (`cache_storage.dfy`): cache storage as an ordered list of
  bucket names plus a map from name to bucket. Each bucket maps a request URL
  to a response. Holds the functions the handlers are specified by
  (`Lookup` for `caches.match`, `AddAll`, `Surviving`, ...) and the lemmas
  about them.
- `Precache` (`precache.dfy`): the manifest, and the proof that no path in
  it occurs twice.
- `ServiceWorker` (`service_worker.dfy`): class `Worker`. It holds the storage
  and two flags recording `skipWaiting()` and `clients.claim()`. Its methods
  are the install, activate, fetch and message handlers. Also here:
  activation's deletion pass `DeleteStale`, activation run twice
  (`ActivateTwice`), and an end-to-end upgrade scenario `OfflineAfterUpgrade`.
- `Events` (`events.dfy`): sync-tag dispatch, the push notification and the
  notification-click window choice.

Inputs the real worker gets from the browser are parameters:

- `network` (for install) gives the outcome of fetching each manifest path.
- `outcome` (for fetch) is what the network did with the request.
- The client list and whether `clients.openWindow` exists are inputs of the
  click handler.

Two behaviours of the code worth knowing:

- The cache keys a request by its URL only. Only GET requests reach the
  cache, so the method adds nothing.
- On network failure the lookup is `caches.match`. It searches every bucket
  in `caches.keys()` order, not only the current one. `Lookup` returns the
  first hit in that order. Before activation, a stale bucket that comes
  earlier can therefore answer. After activation only the current bucket can
  (`LookupAfterActivation`).

## Model

| member | source | states |
|---|---|---|
| `Http.OfflineFallback` | sw.js:86-92 | the fallback has status 503, status text `Service Unavailable`, body `Offline - Page not cached` and the single header `Content-Type: text/plain`; it never passes the validity test, so it is never cached |
| `Http.IsValidResponse` | sw.js:67 | the fetch handler's test (present, status 200, type not `error`) holds exactly when `addAll` would also accept the response and its status is 200 |
| `Http.AcceptedByAddAll` | sw.js:30 | the test `addAll` applies to each fetched response: resolved with a response that is not an error, status 200 to 299 but not 206; it is a definition and carries no contract |
| `CacheStorage.Lookup` | sw.js:84 | `caches.match` finds a response exactly when some bucket holds the URL; the response found is the one in the first such bucket in key order |
| `CacheStorage.BucketOf` | sw.js:27 | the bucket `caches.open` yields: the stored one, or a new empty one; a definition without a contract, which callers unfold |
| `CacheStorage.Opened` | sw.js:27 | after `caches.open` the name is listed, the old names keep their order at the front, nothing else is added, and a list without repeats stays without repeats |
| `CacheStorage.Remove` | sw.js:47 | deleting a bucket takes exactly that name out of the key list |
| `CacheStorage.RemoveSingle` | sw.js:47 | deleting a name that occurs once removes just that position and keeps the order of the rest |
| `CacheStorage.RemoveAbsent` | sw.js:47 | deleting a name that is not listed leaves the key list as it was |
| `CacheStorage.Kept` | sw.js:44-48 | the key list left by activation holds no name other than the current one |
| `CacheStorage.FetchAll` | sw.js:30 | the batch fetch of `addAll` succeeds exactly when every fetched response is accepted; it then gives, in order, the response fetched for each URL |
| `CacheStorage.StoreAll` | sw.js:30 | after the batch put, the bucket's keys are its old keys plus the batch URLs; entries for other URLs are unchanged |
| `CacheStorage.StoreAllStoresEach` | sw.js:30 | each URL of the batch ends up holding its own response, even when a URL repeats with the same response |
| `CacheStorage.StoreAllStoresAll` | sw.js:30 | the same, for every URL of the batch at once |
| `CacheStorage.AddAll` | sw.js:30-34 | `addAll` is all or nothing: when every fetch is accepted, each URL holds the response fetched for it and other entries are unchanged; otherwise the bucket is unchanged |
| `CacheStorage.OpenKeepsWellFormed` | sw.js:27 | opening or creating a bucket, then writing it, keeps the key list and the bucket map describing the same distinct buckets |
| `CacheStorage.PruneStep` | sw.js:44-48 | one step of activation's pass: after deleting name `i` when stale, the key list is still what survives of the first `i + 1` names followed by the rest |
| `CacheStorage.Pruned` | sw.js:44-48 | after the deletions for a list of names, a bucket remains exactly when it is the current one or was not listed, with unchanged contents |
| `CacheStorage.PrunedStep` | sw.js:45-47 | one more name handled deletes that name's bucket exactly when it is not the current name |
| `CacheStorage.PruneLeavesSurviving` | sw.js:42-50 | deleting every listed stale bucket of a well-formed storage leaves exactly the surviving ones |
| `CacheStorage.ActivationOutcome` | sw.js:42-50 | a whole pass leaves at most the current bucket, unchanged and well formed; when nothing was stale, nothing is deleted |
| `CacheStorage.Surviving` | sw.js:45 | after activation, the only bucket name left is the current one, with its contents unchanged |
| `CacheStorage.SurvivingIdempotent` | sw.js:42-50 | running activation a second time deletes nothing |
| `CacheStorage.LookupAfterActivation` | sw.js:42-50 | after activation, an offline lookup is answered by the current bucket or not at all |
| `Precache.ManifestDistinct` | sw.js:3-22 | the manifest has 18 entries and no path occurs twice, so its `addAll` batch never names one request twice |
| `ServiceWorker.DeleteStale` | sw.js:42-50 | the deletion pass over the key list read at the start leaves the current name alone in the list, keeps only the current bucket, and changes nothing when no stale name exists |
| `ServiceWorker.Worker.constructor` | sw.js:2-22 | a worker starts over any well-formed stored buckets, with the 18-path manifest and neither lifecycle call made |
| `ServiceWorker.Worker.Install` | sw.js:25-37 | the current bucket exists afterwards, created last in key order when new; it is the old bucket after `addAll`; every manifest path is a key in it when all fetches are accepted; no other bucket changes; a failure is swallowed; `skipWaiting` is called |
| `ServiceWorker.Worker.Activate` | sw.js:40-54 | only the current bucket name can remain, with its contents unchanged; nothing changes if nothing was stale; `clients.claim` is called |
| `ServiceWorker.Worker.Fetch` | sw.js:57-96 | non-GET: not intercepted and storage untouched; valid response: returned and stored under the URL in the current bucket, nothing else changed; invalid or absent response: returned as is, storage untouched; network failure: storage untouched, and the answer is the first cached copy or else the 503 fallback |
| `ServiceWorker.Worker.OnMessage` | sw.js:99-103 | `skipWaiting` is called exactly when the message is present and its type is `SKIP_WAITING` |
| `ServiceWorker.ActivateTwice` | sw.js:40-54 | over any stored buckets, a second activation right after the first changes neither the key list nor the buckets; what is left is the current bucket alone |
| `ServiceWorker.OfflineAfterUpgrade` | sw.js:25-96 | over any earlier storage: after install with every fetch accepted, then activation, an offline GET for a manifest path gets the response fetched at install, not a stale copy or the fallback |
| `Events.MessageTask` | sw.js:100-102 | the message handler asks for `skipWaiting` exactly for a present message of type `SKIP_WAITING`, and for nothing else |
| `Events.SyncTask` | sw.js:106-110 | the sync handler starts `syncMessages` exactly for the tag `sync-messages` |
| `Events.PeriodicSyncTask` | sw.js:113-117 | the periodic-sync handler starts `updateServices` exactly for the tag `update-services` |
| `Events.OrDefault` | sw.js:140 | JavaScript's `field \|\| fallback`: the field when it is a non-empty string, the fallback when it is missing or empty |
| `Events.PushNotification` | sw.js:137-160 | the title defaults to `مؤسسة النور` and the body to `جديد من مؤسسة النور` when the payload or field is absent or empty, and otherwise are the payload's; icon and badge are `/images/logo.jpg`, the tag is `noor-notification`, `requireInteraction` is false, and the actions are exactly open then close |
| `Events.IsRootWindow` | sw.js:174 | the window test of the click handler: URL exactly `/` and a `focus` member; a definition without a contract |
| `Events.NotificationClick` | sw.js:163-183 | `close` focuses and opens nothing; otherwise the first client with URL exactly `/` that can focus is focused, if one exists; if none exists, `/` is opened when `openWindow` is available, and nothing happens when it is not |

## Left out

- Promises, `event.waitUntil` and the fire-and-forget timing of the put after a valid fetch (sw.js:75-78): each handler is one atomic step, and the put is immediate.
- A failing `cache.put` after a valid fetch, a failing `caches.open`, and a failing `caches.delete` during activation: the model's storage operations always succeed.
- `ServiceWorker.Worker.Activate`: the source starts all deletions at once and waits for them all. The model runs them one by one (`DeleteStale`) on a copy of the storage, then stores the result. The in-between states cannot be seen by the handler.
- Request matching is by URL string only. URL normalisation, `Vary` headers, query and fragment handling are not modelled.
- The platform reports `client.url` as an absolute URL. The model compares the given string with `/` exactly as sw.js:174 does, and does not resolve URLs.
- `addAll` rejects a batch that names the same request twice. `FetchAll` does not model that rejection; the only batch in the worker is the manifest, which `ManifestDistinct` proves free of repeats.
- `response.clone()` is the identity; bodies are strings, not streams.
- `console.log` calls: diagnostic output only.
- `self.skipWaiting()` and `self.clients.claim()` are platform lifecycle effects, modelled only as flags that are set.
- `syncMessages` (an empty stub) and `updateServices` (a fetch of `/api/services` plus JSON parsing): the sync handlers only return which task they start.
- `showNotification` and `event.notification.close()` are browser UI calls. The push handler returns the notification it would show, and the click handler returns the window action.
- JSON parsing of push and message payloads: they arrive parsed. Each field is either absent or a string, so `||` on numbers, booleans or `null` is not modelled.
