/** The cache against the least-recently-used policy its comments name. */
module CacheLru {
  import opened CacheModel

  /** Under that policy every use of a page moves its entry to the front. */
  function Touch(cache: seq<Entry>, r: Request): seq<Entry> {
    if Hit(cache, r) then [cache[Find(cache, r.key)]] + Without(cache, r.key) else Refresh(cache, Fetched(r))
  }

  function LruRun(requests: seq<Request>): seq<Entry> {
    if requests == [] then [] else var n := |requests| - 1; Touch(LruRun(requests[..n]), requests[n])
  }

  /** The entry a request uses: the one found, or the one fetched. */
  function Used(cache: seq<Entry>, r: Request): Entry {
    if Hit(cache, r) then cache[Find(cache, r.key)] else Fetched(r)
  }

  /** The entries used during a run under that policy, oldest use first. */
  function Uses(requests: seq<Request>): seq<Entry> {
    if requests == [] then []
    else var n := |requests| - 1; Uses(requests[..n]) + [Used(LruRun(requests[..n]), requests[n])]
  }

  lemma TouchIsRefresh(cache: seq<Entry>, r: Request)
    requires |cache| <= CACHE_SIZE
    ensures Touch(cache, r) == Refresh(cache, Used(cache, r)) && |Touch(cache, r)| <= CACHE_SIZE
  {
  }

  lemma RecentAfterUse(log: seq<Entry>, e: Entry)
    ensures Truncate(Recent(log + [e])) == Refresh(Truncate(Recent(log)), e)
  {
    assert (log + [e])[..|log|] == log;
    RecentDistinct(log);
    RefreshTruncates(Recent(log), e);
  }

  /** The policy is what its name says: the ten pages used last, latest use first. */
  lemma {:induction false} LruIsTenMostRecentlyUsed(requests: seq<Request>)
    ensures LruRun(requests) == Truncate(Recent(Uses(requests))) && |LruRun(requests)| <= CACHE_SIZE
  {
    if requests != [] {
      var n := |requests| - 1;
      var cache := LruRun(requests[..n]);
      LruIsTenMostRecentlyUsed(requests[..n]);
      TouchIsRefresh(cache, requests[n]);
      RecentAfterUse(Uses(requests[..n]), Used(cache, requests[n]));
    }
  }

  /** The two caches are the same after every request. */
  ghost predicate AlwaysLru(requests: seq<Request>) {
    forall n :: 0 <= n <= |requests| ==> Run(requests[..n]) == LruRun(requests[..n])
  }

  predicate HitsFront(requests: seq<Request>, n: nat)
    requires n < |requests|
  {
    var cache := Run(requests[..n]);
    Hit(cache, requests[n]) ==> Find(cache, requests[n].key) == 0
  }

  /** A hit leaves both caches equal exactly when it is for the entry in front. */
  lemma TouchAgrees(cache: seq<Entry>, r: Request)
    requires Distinct(cache)
    ensures Touch(cache, r) == Handle(cache, r) <==> (Hit(cache, r) ==> Find(cache, r.key) == 0)
  {
    var k := Find(cache, r.key);
    if Hit(cache, r) {
      assert Touch(cache, r)[0] == cache[k];
      if k == 0 {
        assert cache == [cache[0]] + cache[1..];
      }
    }
  }

  lemma LruStep(requests: seq<Request>, n: nat)
    requires n < |requests| && Run(requests[..n]) == LruRun(requests[..n])
    ensures Run(requests[..n + 1]) == LruRun(requests[..n + 1]) <==> HitsFront(requests, n)
  {
    assert requests[..n + 1][..n] == requests[..n];
    CacheIsTenMostRecent(requests[..n]);
    TouchAgrees(Run(requests[..n]), requests[n]);
  }

  lemma {:induction false} FrontHitsKeepLru(requests: seq<Request>, n: nat)
    requires n <= |requests| && forall k :: 0 <= k < n ==> HitsFront(requests, k)
    ensures Run(requests[..n]) == LruRun(requests[..n])
  {
    if n > 0 {
      FrontHitsKeepLru(requests, n - 1);
      LruStep(requests, n - 1);
    } else {
      assert requests[..0] == [];
    }
  }

  lemma LruMeansFrontHits(requests: seq<Request>)
    ensures AlwaysLru(requests) <==> forall n :: 0 <= n < |requests| ==> HitsFront(requests, n)
  {
    if AlwaysLru(requests) {
      forall n | 0 <= n < |requests| ensures HitsFront(requests, n) {
        assert Run(requests[..n]) == LruRun(requests[..n]) && Run(requests[..n + 1]) == LruRun(requests[..n + 1]);
        LruStep(requests, n);
      }
    }
    if forall n :: 0 <= n < |requests| ==> HitsFront(requests, n) {
      forall n | 0 <= n <= |requests| ensures Run(requests[..n]) == LruRun(requests[..n]) {
        FrontHitsKeepLru(requests, n);
      }
    }
  }

  /** The page whose fetch is the latest one. */
  predicate FetchedLast(requests: seq<Request>, key: Key) {
    var log := Log(requests);
    log != [] && log[|log| - 1].key == key
  }

  /** The entry in front is the page fetched last. */
  lemma FrontIsFetchedLast(requests: seq<Request>, r: Request)
    requires Hit(Run(requests), r)
    ensures Find(Run(requests), r.key) == 0 <==> FetchedLast(requests, r.key)
  {
    var log := Log(requests);
    ServedFromCacheExactly(requests, r);
    CacheIsTenMostRecent(requests);
    RecentDistinct(log);
    var i: nat :| StillGood(log, r, i);
    PositionInRecent(log, r.key, i);
    StandsAtIsFound(Recent(log), |KeysAfter(log, i)|, log[i], KeysAfter(log, i));
    if i < |log| - 1 {
      assert log[|log| - 1] in log[i + 1..];
      assert log[|log| - 1].key in KeysAfter(log, i);
    } else {
      assert log[i + 1..] == [];
    }
  }

  /** The code keeps to the policy exactly over the runs in which every page served from the cache is the one fetched
      last. */
  lemma LruExactly(requests: seq<Request>)
    ensures AlwaysLru(requests) <==>
              forall n :: 0 <= n < |requests| && Hit(Run(requests[..n]), requests[n]) ==>
                FetchedLast(requests[..n], requests[n].key)
  {
    LruMeansFrontHits(requests);
    forall n | 0 <= n < |requests| && Hit(Run(requests[..n]), requests[n])
      ensures HitsFront(requests, n) <==> FetchedLast(requests[..n], requests[n].key)
    {
      FrontIsFetchedLast(requests[..n], requests[n]);
    }
  }

  /** Two fetches and a use of the first page: the code leaves the second page in front. */
  lemma UseDoesNotMove(a: Key, b: Key)
    requires a != b
    ensures var requests := [Request(a, 0, 9), Request(b, 0, 9), Request(a, 0, 9)];
            && Run(requests) == [Entry(b, 9), Entry(a, 9)]
            && LruRun(requests) == [Entry(a, 9), Entry(b, 9)]
  {
    var r, q := Request(a, 0, 9), Request(b, 0, 9);
    var s1, s2, s3 := [r], [r, q], [r, q, r];
    assert s1[..0] == [] && s2[..1] == s1 && s3[..2] == s2;
    assert Run(s1) == LruRun(s1) == [Entry(a, 9)];
    assert Find([Entry(a, 9)], b) == 1;
    assert Run(s2) == LruRun(s2) == [Entry(b, 9), Entry(a, 9)];
    FindUnique([Entry(b, 9), Entry(a, 9)], a, 1);
  }
}
