/** The browser's cache storage as values: an ordered list of bucket names
    (the order `caches.keys()` reports, which is creation order) and a map
    from each name to its bucket, a map from request URL to stored response.
    The functions here are what the worker's handlers are specified by. */
module CacheStorage {
  import opened Http

  type Bucket = map<string, Response>

  predicate NoDuplicates<T(==)>(s: seq<T>)
  {
    forall i, j :: 0 <= i < j < |s| ==> s[i] != s[j]
  }

  /** The names list and the map describe the same set of buckets. */
  ghost predicate WellFormed(names: seq<string>, buckets: map<string, Bucket>)
  {
    && NoDuplicates(names)
    && (forall n :: n in names <==> n in buckets)
  }

  /** `caches.match(request)`: the bucket names are searched in order and
      the first bucket holding the URL answers. */
  function Lookup(names: seq<string>, buckets: map<string, Bucket>, url: string): (r: Option<Response>)
    requires forall n :: n in names ==> n in buckets
    ensures r.Some? <==> exists j :: 0 <= j < |names| && url in buckets[names[j]]
    ensures r.Some? ==> exists j :: && 0 <= j < |names|
                                    && url in buckets[names[j]]
                                    && r.value == buckets[names[j]][url]
                                    && forall k :: 0 <= k < j ==> url !in buckets[names[k]]
  {
    if names == [] then None
    else if url in buckets[names[0]] then Some(buckets[names[0]][url])
    else
      var r := Lookup(names[1..], buckets, url);
      assert forall j :: 0 < j < |names| ==> names[j] == names[1..][j - 1];
      r
  }

  /** `names` with `name` taken out, as `caches.delete(name)` leaves the key list. */
  function Remove(names: seq<string>, name: string): (r: seq<string>)
    ensures forall n :: n in r <==> n in names && n != name
  {
    if names == [] then []
    else if names[0] == name then Remove(names[1..], name)
    else [names[0]] + Remove(names[1..], name)
  }

  /** The key list activation leaves: the current name alone, if present. */
  function Kept(names: seq<string>, keep: string): (r: seq<string>)
    ensures forall x :: x in r ==> x == keep
  {
    if keep in names then [keep] else []
  }

  /** `caches.open(name)`: the bucket, created empty when absent. */
  function BucketOf(buckets: map<string, Bucket>, name: string): Bucket
  {
    if name in buckets then buckets[name] else map[]
  }

  /** The key list after `caches.open(name)`: the name is listed afterwards,
      the old names keep their order at the front, nothing else is added, and
      a list without repeats stays without repeats. */
  function Opened(names: seq<string>, name: string): (r: seq<string>)
    ensures name in r
    ensures |names| <= |r| && r[..|names|] == names
    ensures forall n :: n in r ==> n in names || n == name
    ensures NoDuplicates(names) ==> NoDuplicates(r)
  {
    if name in names then names else names + [name]
  }

  /** The fetch phase of `Cache.addAll`: every URL is fetched; the batch
      succeeds with the responses in order when every response is accepted,
      and fails otherwise. */
  function FetchAll(urls: seq<string>, network: string -> NetworkOutcome): (r: Option<seq<Response>>)
    ensures r.Some? <==> forall i :: 0 <= i < |urls| ==> AcceptedByAddAll(network(urls[i]))
    ensures r.Some? ==> && |r.value| == |urls|
                        && forall i :: 0 <= i < |urls| ==> r.value[i] == network(urls[i]).response.value
  {
    if urls == [] then Some([])
    else
      var head := network(urls[0]);
      var rest := FetchAll(urls[1..], network);
      assert forall i :: 0 < i < |urls| ==> urls[i] == urls[1..][i - 1];
      if AcceptedByAddAll(head) && rest.Some? then Some([head.response.value] + rest.value)
      else None
  }

  /** The store phase of `Cache.addAll`: the responses are put under their
      URLs in order, so a later duplicate would overwrite an earlier one. */
  function StoreAll(bucket: Bucket, urls: seq<string>, responses: seq<Response>): (r: Bucket)
    requires |urls| == |responses|
    ensures r.Keys == bucket.Keys + (set u | u in urls)
    ensures forall k :: k in bucket && k !in urls ==> r[k] == bucket[k]
    decreases urls
  {
    if urls == [] then bucket
    else StoreAll(bucket[urls[0] := responses[0]], urls[1..], responses[1..])
  }

  /** Responses that agree wherever their URLs agree, as responses fetched
      by URL do. */
  ghost predicate ConsistentByUrl(urls: seq<string>, responses: seq<Response>)
    requires |urls| == |responses|
  {
    forall j, k :: 0 <= j < |urls| && 0 <= k < |urls| && urls[j] == urls[k] ==> responses[j] == responses[k]
  }

  /** Every URL of the batch ends up holding its own response; a repeated
      URL is harmless as long as its responses agree. */
  lemma {:induction false} StoreAllStoresEach(bucket: Bucket, urls: seq<string>, responses: seq<Response>, i: nat)
    requires |urls| == |responses| && i < |urls|
    requires ConsistentByUrl(urls, responses)
    ensures urls[i] in StoreAll(bucket, urls, responses)
    ensures StoreAll(bucket, urls, responses)[urls[i]] == responses[i]
    decreases urls
  {
    var tailUrls, tailResponses := urls[1..], responses[1..];
    assert ConsistentByUrl(tailUrls, tailResponses) by {
      forall j, k | 0 <= j < |tailUrls| && 0 <= k < |tailUrls| && tailUrls[j] == tailUrls[k]
        ensures tailResponses[j] == tailResponses[k]
      {
        assert urls[j + 1] == urls[k + 1];
      }
    }
    if i > 0 {
      StoreAllStoresEach(bucket[urls[0] := responses[0]], tailUrls, tailResponses, i - 1);
    } else if urls[0] in tailUrls {
      var k :| 0 <= k < |tailUrls| && tailUrls[k] == urls[0];
      assert urls[k + 1] == urls[0];
      StoreAllStoresEach(bucket[urls[0] := responses[0]], tailUrls, tailResponses, k);
    }
  }

  /** The whole batch: each URL holds its own response. */
  lemma StoreAllStoresAll(bucket: Bucket, urls: seq<string>, responses: seq<Response>)
    requires |urls| == |responses| && ConsistentByUrl(urls, responses)
    ensures forall i :: 0 <= i < |urls| ==>
              urls[i] in StoreAll(bucket, urls, responses) && StoreAll(bucket, urls, responses)[urls[i]] == responses[i]
  {
    forall i | 0 <= i < |urls|
      ensures urls[i] in StoreAll(bucket, urls, responses) && StoreAll(bucket, urls, responses)[urls[i]] == responses[i]
    {
      StoreAllStoresEach(bucket, urls, responses, i);
    }
  }

  /** `Cache.addAll(urls)` on one bucket: all or nothing. When every fetch
      is accepted, each URL holds the response the network gave for it and
      nothing else changes; otherwise the bucket is left as it was. */
  function AddAll(bucket: Bucket, urls: seq<string>, network: string -> NetworkOutcome): (r: Bucket)
    ensures FetchAll(urls, network).Some? ==>
              forall i :: 0 <= i < |urls| ==> urls[i] in r && r[urls[i]] == network(urls[i]).response.value
    ensures FetchAll(urls, network).Some? ==> r.Keys == bucket.Keys + (set u | u in urls)
    ensures forall k :: k in bucket && k !in urls ==> k in r && r[k] == bucket[k]
    ensures FetchAll(urls, network).None? ==> r == bucket
  {
    match FetchAll(urls, network)
    case None => bucket
    case Some(responses) =>
      assert ConsistentByUrl(urls, responses);
      StoreAllStoresAll(bucket, urls, responses);
      StoreAll(bucket, urls, responses)
  }

  /** Opening a bucket, or writing one that is open, keeps the storage
      well formed. */
  lemma OpenKeepsWellFormed(names: seq<string>, buckets: map<string, Bucket>, name: string, bucket: Bucket)
    requires WellFormed(names, buckets)
    ensures WellFormed(Opened(names, name), buckets[name := bucket])
  {
    if name !in names {
      forall j, k | 0 <= j < k < |Opened(names, name)|
        ensures Opened(names, name)[j] != Opened(names, name)[k]
      {
        if k == |names| {
          assert Opened(names, name)[j] == names[j];
        }
      }
    }
  }

  /** One step of activation's pass over the key list: after the first `i`
      names are handled, the list is what survives of them followed by the
      rest; deleting name `i` when stale keeps that shape for `i + 1`. */
  lemma PruneStep(snapshot: seq<string>, i: nat, keep: string, names: seq<string>)
    requires NoDuplicates(snapshot) && i < |snapshot|
    requires names == Kept(snapshot[..i], keep) + snapshot[i..]
    ensures (if snapshot[i] != keep then Remove(names, snapshot[i]) else names)
         == Kept(snapshot[..i + 1], keep) + snapshot[i + 1..]
  {
    var n := snapshot[i];
    assert snapshot[..i + 1] == snapshot[..i] + [n];
    assert snapshot[i..] == [n] + snapshot[i + 1..];
    if n != keep {
      assert n !in snapshot[i + 1..] by {
        forall j | i + 1 <= j < |snapshot| ensures snapshot[j] != n {
        }
      }
      RemoveSingle(Kept(snapshot[..i], keep), n, snapshot[i + 1..]);
      assert names == Kept(snapshot[..i], keep) + [n] + snapshot[i + 1..];
    } else {
      assert keep !in snapshot[..i] by {
        forall j | 0 <= j < i ensures snapshot[j] != keep {
        }
      }
    }
  }

  /** Taking a name that is present exactly once out of a list removes just
      that position. */
  lemma {:induction false} RemoveSingle(front: seq<string>, name: string, back: seq<string>)
    requires name !in front && name !in back
    ensures Remove(front + [name] + back, name) == front + back
  {
    if front == [] {
      assert [name] + back == [name] + back;
      assert ([name] + back)[1..] == back;
      RemoveAbsent(back, name);
    } else {
      assert (front + [name] + back)[0] == front[0];
      assert (front + [name] + back)[1..] == front[1..] + [name] + back;
      RemoveSingle(front[1..], name, back);
      assert [front[0]] + (front[1..] + back) == front + back;
    }
  }

  lemma {:induction false} RemoveAbsent(names: seq<string>, name: string)
    requires name !in names
    ensures Remove(names, name) == names
  {
    if names != [] {
      assert names[0] != name;
      RemoveAbsent(names[1..], name);
      assert [names[0]] + names[1..] == names;
    }
  }

  /** The buckets left by activation: only the current one, untouched. */
  function Surviving(buckets: map<string, Bucket>, current: string): (r: map<string, Bucket>)
    ensures r.Keys == buckets.Keys * {current}
    ensures current in buckets ==> r[current] == buckets[current]
  {
    map n | n in buckets && n == current :: buckets[n]
  }

  /** The buckets left after deleting, in order, every name of `names`
      other than `keep`. */
  function Pruned(buckets: map<string, Bucket>, names: seq<string>, keep: string): (r: map<string, Bucket>)
    ensures forall n :: n in r <==> n in buckets && (n == keep || n !in names)
    ensures forall n :: n in r ==> r[n] == buckets[n]
  {
    if names == [] then buckets
    else
      var earlier := Pruned(buckets, names[..|names| - 1], keep);
      var last := names[|names| - 1];
      assert forall n :: n in names <==> n in names[..|names| - 1] || n == last;
      if last != keep then earlier - {last} else earlier
  }

  /** Pruning one more name deletes that name's bucket when it is stale. */
  lemma PrunedStep(buckets: map<string, Bucket>, names: seq<string>, i: nat, keep: string)
    requires i < |names|
    ensures Pruned(buckets, names[..i + 1], keep)
         == if names[i] != keep then Pruned(buckets, names[..i], keep) - {names[i]}
            else Pruned(buckets, names[..i], keep)
  {
    assert names[..i + 1][..i] == names[..i];
  }

  /** Deleting the stale buckets of a well-formed storage leaves exactly the
      surviving ones. */
  lemma PruneLeavesSurviving(names: seq<string>, buckets: map<string, Bucket>, keep: string)
    requires WellFormed(names, buckets)
    ensures Pruned(buckets, names, keep) == Surviving(buckets, keep)
  {
    var p := Pruned(buckets, names, keep);
    assert p.Keys == Surviving(buckets, keep).Keys;
  }

  /** What a whole activation pass over a well-formed storage leaves: the
      current bucket alone, unchanged, and nothing deleted when there was
      nothing stale. */
  lemma ActivationOutcome(names: seq<string>, buckets: map<string, Bucket>, keep: string)
    requires WellFormed(names, buckets)
    ensures Pruned(buckets, names, keep) == Surviving(buckets, keep)
    ensures WellFormed(Kept(names, keep), Pruned(buckets, names, keep))
    ensures names == Kept(names, keep) ==> Pruned(buckets, names, keep) == buckets
  {
    PruneLeavesSurviving(names, buckets, keep);
  }

  /** Activating twice deletes nothing the second time. */
  lemma SurvivingIdempotent(buckets: map<string, Bucket>, current: string)
    ensures Surviving(Surviving(buckets, current), current) == Surviving(buckets, current)
  {
  }

  /** After activation a lookup can only be answered by the current bucket. */
  lemma {:induction false} LookupAfterActivation(names: seq<string>, buckets: map<string, Bucket>, current: string, url: string)
    requires WellFormed(names, buckets)
    ensures forall n :: n in Kept(names, current) ==> n in Surviving(buckets, current)
    ensures Lookup(Kept(names, current), Surviving(buckets, current), url)
         == if current in buckets && url in buckets[current] then Some(buckets[current][url]) else None
  {
  }
}
