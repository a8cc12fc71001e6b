/** The page cache as a value: a newest-first sequence of at most ten entries. */
module CacheModel {
  const CACHE_SIZE := 10

  datatype Key = Key(address: string, resource: string)

  datatype Entry = Entry(key: Key, expires: int)

  /** The first position holding the key, or the length. */
  function Find(s: seq<Entry>, key: Key): (k: nat)
    ensures k <= |s|
    ensures k < |s| ==> s[k].key == key
  {
    if s == [] || s[0].key == key then 0 else 1 + Find(s[1..], key)
  }

  lemma FindFirst(s: seq<Entry>, key: Key)
    ensures forall i :: 0 <= i < Find(s, key) ==> s[i].key != key
  {
  }

  lemma FindUnique(s: seq<Entry>, key: Key, k: nat)
    requires k <= |s| && (k < |s| ==> s[k].key == key) && forall i :: 0 <= i < k ==> s[i].key != key
    ensures Find(s, key) == k
  {
    if k > 0 {
      FindUnique(s[1..], key, k - 1);
    }
  }

  function Without(s: seq<Entry>, key: Key): seq<Entry> {
    var k := Find(s, key);
    if k == |s| then s else s[..k] + s[k + 1..]
  }

  function Truncate(s: seq<Entry>): seq<Entry> {
    if |s| <= CACHE_SIZE then s else s[..CACHE_SIZE]
  }

  predicate Distinct(s: seq<Entry>) {
    forall i, j :: 0 <= i < j < |s| ==> s[i].key != s[j].key
  }

  function Keys(s: seq<Entry>): set<Key> {
    set e | e in s :: e.key
  }

  /** check_cache: 0 fresh, 1 expired, 2 absent. */
  function Check(s: seq<Entry>, key: Key, now: int): nat {
    var k := Find(s, key);
    if k == |s| then 2 else if now > s[k].expires then 1 else 0
  }

  /** What a fetch leaves: the entry in front, once. */
  function Refresh(s: seq<Entry>, e: Entry): seq<Entry> {
    Truncate([e] + Without(s, e.key))
  }

  lemma KeysConcat(a: seq<Entry>, b: seq<Entry>)
    ensures Keys(a + b) == Keys(a) + Keys(b)
  {
    assert forall e :: e in a + b <==> e in a || e in b;
  }

  lemma KeysOne(e: Entry)
    ensures Keys([e]) == {e.key}
  {
    assert e in [e];
  }

  lemma KeysMinusOne(s: seq<Entry>, k: nat)
    requires k < |s|
    ensures Keys(s[..k] + s[k + 1..]) + {s[k].key} == Keys(s)
  {
    assert s == s[..k] + ([s[k]] + s[k + 1..]);
    KeysConcat(s[..k], [s[k]] + s[k + 1..]);
    KeysConcat([s[k]], s[k + 1..]);
    KeysConcat(s[..k], s[k + 1..]);
    KeysOne(s[k]);
  }

  lemma NotAKey(s: seq<Entry>, key: Key)
    requires forall i :: 0 <= i < |s| ==> s[i].key != key
    ensures key !in Keys(s)
  {
  }

  lemma WithoutKeys(s: seq<Entry>, key: Key)
    requires Distinct(s)
    ensures Distinct(Without(s, key)) && Keys(Without(s, key)) == Keys(s) - {key}
    ensures key !in Keys(Without(s, key))
  {
    var k, r := Find(s, key), Without(s, key);
    FindFirst(s, key);
    NotAKey(r, key);
    if k < |s| {
      KeysMinusOne(s, k);
    }
  }

  lemma KeysLast(s: seq<Entry>)
    requires s != []
    ensures Keys(s) == Keys(s[..|s| - 1]) + {s[|s| - 1].key}
  {
    var n := |s| - 1;
    assert s == s[..n] + [s[n]];
    KeysConcat(s[..n], [s[n]]);
    KeysOne(s[n]);
  }

  lemma PushKeys(e: Entry, r: seq<Entry>)
    requires Distinct(r) && e.key !in Keys(r)
    ensures Distinct([e] + r) && Keys([e] + r) == {e.key} + Keys(r)
  {
    KeysConcat([e], r);
    KeysOne(e);
    forall i | 0 <= i < |r| ensures r[i].key != e.key {
      assert r[i] in r;
    }
  }

  lemma RefreshKeepsDistinct(s: seq<Entry>, e: Entry)
    requires Distinct(s)
    ensures Distinct(Refresh(s, e)) && |Refresh(s, e)| <= CACHE_SIZE
  {
    WithoutKeys(s, e.key);
    PushKeys(e, Without(s, e.key));
  }

  // ----- requests

  /** now: when the request comes; expires: what the web server would answer if asked. */
  datatype Request = Request(key: Key, now: int, expires: int)

  function Fetched(r: Request): Entry {
    Entry(r.key, r.expires)
  }

  predicate Hit(cache: seq<Entry>, r: Request) {
    Check(cache, r.key, r.now) == 0
  }

  function Handle(cache: seq<Entry>, r: Request): seq<Entry> {
    if Hit(cache, r) then cache else Refresh(cache, Fetched(r))
  }

  /** How a request is answered: from the cache, by a plain GET (absent) or by a conditional one (expired). */
  datatype Answer = FromCache | PlainGet | ConditionalGet

  function AnswerTo(cache: seq<Entry>, r: Request): Answer {
    var flag := Check(cache, r.key, r.now);
    if flag == 0 then FromCache else if flag == 1 then ConditionalGet else PlainGet
  }

  function Run(requests: seq<Request>): seq<Entry> {
    if requests == [] then [] else var n := |requests| - 1; Handle(Run(requests[..n]), requests[n])
  }

  function Answers(requests: seq<Request>): seq<Answer> {
    if requests == [] then []
    else var n := |requests| - 1; Answers(requests[..n]) + [AnswerTo(Run(requests[..n]), requests[n])]
  }

  lemma RunStep(requests: seq<Request>, n: nat)
    requires n < |requests|
    ensures Run(requests[..n + 1]) == Handle(Run(requests[..n]), requests[n])
    ensures Answers(requests[..n + 1]) == Answers(requests[..n]) + [AnswerTo(Run(requests[..n]), requests[n])]
    ensures NeverEvicts(requests[..n + 1]) <==> NeverEvicts(requests[..n]) && !Evicts(Run(requests[..n]), requests[n])
  {
    assert requests[..n + 1][..n] == requests[..n];
  }

  /** The entries fetched during a run, oldest first. */
  function Log(requests: seq<Request>): seq<Entry> {
    if requests == [] then []
    else
      var n := |requests| - 1;
      Log(requests[..n]) + if Hit(Run(requests[..n]), requests[n]) then [] else [Fetched(requests[n])]
  }

  /** The request pushes the list past ten entries. */
  predicate Evicts(cache: seq<Entry>, r: Request) {
    !Hit(cache, r) && |Without(cache, r.key)| == CACHE_SIZE
  }

  lemma FoundIffKey(s: seq<Entry>, key: Key)
    ensures Find(s, key) < |s| <==> key in Keys(s)
  {
    FindFirst(s, key);
    if Find(s, key) < |s| {
      assert s[Find(s, key)] in s;
    }
  }

  lemma AbsentIsUnchanged(s: seq<Entry>, key: Key)
    ensures key !in Keys(s) ==> Without(s, key) == s
  {
    FoundIffKey(s, key);
  }

  /** What the request path relies on, flag by flag: flag 0 means the key is there, so a hit never turns into a
      conditional GET; after flag 1 the key is gone, so the fetched entry cannot become a second one. */
  lemma RequestFacts(s: seq<Entry>, r: Request, flag: nat, mid: seq<Entry>)
    requires Distinct(s) && |s| <= CACHE_SIZE && flag == Check(s, r.key, r.now)
    requires mid == if flag == 1 then Without(s, r.key) else s
    ensures AnswerTo(s, r) == if flag == 0 then FromCache else if flag == 2 then PlainGet else ConditionalGet
    ensures flag <= 2 && Distinct(Handle(s, r))
    ensures if flag == 0 then r.key in Keys(mid) && Handle(s, r) == mid && !Evicts(s, r)
            else r.key !in Keys(mid) && Handle(s, r) == Refresh(mid, Fetched(r))
                 && (Evicts(s, r) <==> |Without(mid, r.key)| >= CACHE_SIZE)
  {
    FoundIffKey(s, r.key);
    WithoutKeys(s, r.key);
    AbsentIsUnchanged(Without(s, r.key), r.key);
    RefreshKeepsDistinct(s, Fetched(r));
  }

  // ----- the reference: order of last fetch, without a bound

  /** The latest entry of every key ever fetched, most recently fetched first. */
  function Recent(log: seq<Entry>): seq<Entry> {
    if log == [] then [] else var n := |log| - 1; [log[n]] + Without(Recent(log[..n]), log[n].key)
  }

  lemma {:induction false} RecentDistinct(log: seq<Entry>)
    ensures Distinct(Recent(log)) && Keys(Recent(log)) == Keys(log)
  {
    if log != [] {
      var n := |log| - 1;
      RecentDistinct(log[..n]);
      var older := Recent(log[..n]);
      WithoutKeys(older, log[n].key);
      PushKeys(log[n], Without(older, log[n].key));
      KeysLast(log);
    }
  }

  lemma WithoutEarly(s: seq<Entry>, key: Key, k: nat)
    requires k < CACHE_SIZE < |s| && k == Find(s, key)
    ensures Without(s[..CACHE_SIZE], key) == Without(s, key)[..CACHE_SIZE - 1]
  {
    FindFirst(s, key);
    FindUnique(s[..CACHE_SIZE], key, k);
    assert Without(s, key)[..CACHE_SIZE - 1] == s[..k] + s[k + 1..CACHE_SIZE];
  }

  lemma WithoutLate(s: seq<Entry>, key: Key)
    requires CACHE_SIZE < |s| && CACHE_SIZE <= Find(s, key)
    ensures Without(s[..CACHE_SIZE], key) == s[..CACHE_SIZE]
    ensures Without(s, key)[..CACHE_SIZE - 1] == s[..CACHE_SIZE - 1]
  {
    FindFirst(s, key);
    FindUnique(s[..CACHE_SIZE], key, CACHE_SIZE);
  }

  /** Forgetting all but ten entries before or after a fetch comes to the same. */
  lemma RefreshTruncates(s: seq<Entry>, e: Entry)
    requires Distinct(s)
    ensures Refresh(Truncate(s), e) == Truncate([e] + Without(s, e.key))
  {
    if |s| > CACHE_SIZE {
      var rest := Without(s, e.key);
      assert ([e] + rest)[..CACHE_SIZE] == [e] + rest[..CACHE_SIZE - 1];
      if Find(s, e.key) < CACHE_SIZE {
        WithoutEarly(s, e.key, Find(s, e.key));
      } else {
        WithoutLate(s, e.key);
        assert ([e] + s[..CACHE_SIZE])[..CACHE_SIZE] == [e] + s[..CACHE_SIZE - 1];
      }
    }
  }

  /** Over every run of requests the cache holds exactly the ten keys fetched last, latest first, each once. */
  lemma {:induction false} CacheIsTenMostRecent(requests: seq<Request>)
    ensures Run(requests) == Truncate(Recent(Log(requests)))
    ensures Distinct(Run(requests)) && |Run(requests)| <= CACHE_SIZE
  {
    RecentDistinct(Log(requests));
    if requests != [] {
      var n := |requests| - 1;
      CacheIsTenMostRecent(requests[..n]);
      var log := Log(requests[..n]);
      if !Hit(Run(requests[..n]), requests[n]) {
        var e := Fetched(requests[n]);
        assert (log + [e])[..|log|] == log;
        RecentDistinct(log);
        RefreshTruncates(Recent(log), e);
      } else {
        assert log + [] == log;
      }
    }
  }

  // ----- when a request is served from the cache

  /** i is the latest fetch of the key. */
  predicate LastFetch(log: seq<Entry>, key: Key, i: nat) {
    i < |log| && log[i].key == key && forall j :: i < j < |log| ==> log[j].key != key
  }

  /** The keys fetched after position i. */
  function KeysAfter(log: seq<Entry>, i: nat): set<Key>
    requires i < |log|
  {
    Keys(log[i + 1..])
  }

  lemma {:induction false} DistinctCount(s: seq<Entry>)
    requires Distinct(s)
    ensures |Keys(s)| == |s|
  {
    if s != [] {
      var n := |s| - 1;
      DistinctCount(s[..n]);
      KeysLast(s);
      assert s[n].key !in Keys(s[..n]);
    }
  }

  lemma KeysAfterGrow(log: seq<Entry>, i: nat)
    requires i < |log| - 1
    ensures var n := |log| - 1;
            KeysAfter(log, i) == KeysAfter(log[..n], i) + {log[n].key}
  {
    var n := |log| - 1;
    assert log[i + 1..] == log[..n][i + 1..] + [log[n]];
    KeysConcat(log[..n][i + 1..], [log[n]]);
    KeysOne(log[n]);
  }

  /** The entry at p, which has exactly the keys `ahead` in front of it. */
  predicate StandsAt(r: seq<Entry>, p: nat, x: Entry, ahead: set<Key>) {
    p < |r| && p == |ahead| && r[p] == x && Keys(r[..p]) == ahead
  }

  /** In the recency order an entry stands behind exactly the keys fetched after it. */
  lemma {:induction false} PositionInRecent(log: seq<Entry>, key: Key, i: nat)
    requires LastFetch(log, key, i)
    ensures StandsAt(Recent(log), |KeysAfter(log, i)|, log[i], KeysAfter(log, i))
  {
    var n := |log| - 1;
    var e := log[n];
    if i == n {
      assert log[n + 1..] == [] && Recent(log)[..0] == [];
    } else {
      PositionInRecent(log[..n], key, i);
      RecentDistinct(log[..n]);
      KeysAfterGrow(log, i);
      MoveInFront(Recent(log[..n]), e, |KeysAfter(log[..n], i)|, log[i], KeysAfter(log[..n], i));
    }
  }

  /** Fetching e moves the entry at p one place back unless e came from in front of it. */
  lemma MoveInFront(q: seq<Entry>, e: Entry, p: nat, x: Entry, ahead: set<Key>)
    requires Distinct(q) && StandsAt(q, p, x, ahead) && x.key != e.key
    ensures var after := ahead + {e.key};
            StandsAt([e] + Without(q, e.key), |after|, x, after)
  {
    var k := Find(q, e.key);
    if k < p {
      MoveFromAhead(q, e, p);
      assert ahead + {e.key} == ahead;
    } else {
      assert k != p;
      MoveFromBehind(q, e, p);
      assert |ahead + {e.key}| == p + 1;
    }
  }

  lemma MoveFromAhead(q: seq<Entry>, e: Entry, p: nat)
    requires p < |q| && Find(q, e.key) < p
    ensures var r := [e] + Without(q, e.key);
            p < |r| && r[p] == q[p] && Keys(r[..p]) == Keys(q[..p]) && e.key in Keys(q[..p])
  {
    var k, s := Find(q, e.key), q[..p];
    SpliceFront(q, k, p, e);
    KeysConcat([e], s[..k] + s[k + 1..]);
    KeysOne(e);
    KeysMinusOne(s, k);
  }

  lemma SpliceFront<T>(q: seq<T>, k: nat, p: nat, e: T)
    requires k < p < |q|
    ensures var r, s := [e] + (q[..k] + q[k + 1..]), q[..p];
            p < |r| && r[p] == q[p] && r[..p] == [e] + (s[..k] + s[k + 1..]) && s[k] == q[k]
  {
  }

  lemma MoveFromBehind(q: seq<Entry>, e: Entry, p: nat)
    requires p < |q| && Find(q, e.key) > p
    ensures var r := [e] + Without(q, e.key);
            p + 1 < |r| && r[p + 1] == q[p] && Keys(r[..p + 1]) == Keys(q[..p]) + {e.key} && e.key !in Keys(q[..p])
  {
    var r := [e] + Without(q, e.key);
    assert r[..p + 1] == [e] + q[..p];
    FindFirst(q, e.key);
    KeysConcat([e], q[..p]);
    KeysOne(e);
  }

  lemma StandsAtIsFound(r: seq<Entry>, p: nat, x: Entry, ahead: set<Key>)
    requires Distinct(r) && StandsAt(r, p, x, ahead)
    ensures Find(r, x.key) == p
    ensures Find(Truncate(r), x.key) == if p < CACHE_SIZE then p else |Truncate(r)|
  {
    FindUnique(r, x.key, p);
    if |r| > CACHE_SIZE {
      FindUnique(r[..CACHE_SIZE], x.key, if p < CACHE_SIZE then p else CACHE_SIZE);
    }
  }

  /** The page was fetched, fewer than ten other pages were fetched since, and it has not expired. */
  predicate StillGood(log: seq<Entry>, r: Request, i: nat) {
    LastFetch(log, r.key, i) && |KeysAfter(log, i)| < CACHE_SIZE && r.now <= log[i].expires
  }

  /** A request is served without a fetch exactly when the last fetch of its page is still good. */
  lemma ServedFromCacheExactly(requests: seq<Request>, r: Request)
    ensures Hit(Run(requests), r) <==> exists i :: StillGood(Log(requests), r, i)
  {
    var log := Log(requests);
    CacheIsTenMostRecent(requests);
    RecentDistinct(log);
    if i: nat :| LastFetch(log, r.key, i) {
      PositionInRecent(log, r.key, i);
      StandsAtIsFound(Recent(log), |KeysAfter(log, i)|, log[i], KeysAfter(log, i));
      assert Hit(Run(requests), r) <==> StillGood(log, r, i);
      forall j: nat | StillGood(log, r, j) ensures j == i {
      }
    } else {
      NeverFetched(log, r.key);
      AbsentIsMiss(Recent(log), r);
    }
  }

  lemma AbsentIsMiss(s: seq<Entry>, r: Request)
    requires r.key !in Keys(s)
    ensures !Hit(Truncate(s), r)
  {
  }

  lemma LastFetchKept(log: seq<Entry>, key: Key, i: nat)
    requires log != [] && log[|log| - 1].key != key
    ensures LastFetch(log[..|log| - 1], key, i) ==> LastFetch(log, key, i)
  {
  }

  lemma {:induction false} NeverFetched(log: seq<Entry>, key: Key)
    requires forall i :: !LastFetch(log, key, i)
    ensures key !in Keys(log)
  {
    if log != [] {
      var n := |log| - 1;
      if log[n].key == key {
        assert LastFetch(log, key, n);
      } else {
        forall i: nat ensures !LastFetch(log[..n], key, i) { LastFetchKept(log, key, i); }
        NeverFetched(log[..n], key);
        KeysLast(log);
      }
    }
  }

  // ----- the same on the requests alone

  /** Request i was answered by a fetch. */
  predicate FetchAt(requests: seq<Request>, i: nat) {
    i < |requests| && i < |Answers(requests)| && Answers(requests)[i] != FromCache
  }

  /** i is the latest request for the page that was answered by a fetch. */
  predicate LatestFetch(requests: seq<Request>, key: Key, i: nat) {
    FetchAt(requests, i) && requests[i].key == key
    && forall j :: i < j < |requests| && FetchAt(requests, j) ==> requests[j].key != key
  }

  /** The pages fetched by later requests. */
  function FetchedAfter(requests: seq<Request>, i: nat): set<Key> {
    set j | i < j < |requests| && FetchAt(requests, j) :: requests[j].key
  }

  /** Which answers were fetches. */
  function Flags(answers: seq<Answer>): (r: seq<bool>)
    ensures |r| == |answers|
  {
    seq(|answers|, i requires 0 <= i < |answers| => answers[i] != FromCache)
  }

  function FetchFlags(requests: seq<Request>): seq<bool> {
    Flags(Answers(requests))
  }

  lemma {:induction false} AnswersLength(requests: seq<Request>)
    ensures |Answers(requests)| == |requests|
  {
    if requests != [] {
      AnswersLength(requests[..|requests| - 1]);
    }
  }

  lemma LogStep(requests: seq<Request>) returns (fetched: bool)
    requires requests != []
    ensures var n := |requests| - 1;
            && FetchFlags(requests) == FetchFlags(requests[..n]) + [fetched]
            && Log(requests) == if fetched then Log(requests[..n]) + [Entry(requests[n].key, requests[n].expires)]
                                else Log(requests[..n])
  {
    var n := |requests| - 1;
    var answer := AnswerTo(Run(requests[..n]), requests[n]);
    fetched := answer != FromCache;
    var before := Answers(requests[..n]);
    assert Answers(requests) == before + [answer];
    assert Flags(before + [answer]) == Flags(before) + [fetched];
  }

  /** Entry k of the log is what request at[k] asked for and was answered: its page, with the expiry given. */
  predicate LogEntry(requests: seq<Request>, flags: seq<bool>, log: seq<Entry>, at: seq<nat>, k: nat) {
    && k < |at| == |log| && at[k] < |requests| == |flags| && flags[at[k]]
    && log[k].key == requests[at[k]].key && log[k].expires == requests[at[k]].expires
    && forall j :: k < j < |at| ==> at[k] < at[j]
  }

  /** The log lists exactly the requests answered by a fetch, in order. */
  predicate Lists(requests: seq<Request>, flags: seq<bool>, log: seq<Entry>, at: seq<nat>) {
    && |at| == |log| && |flags| == |requests|
    && (forall k :: 0 <= k < |at| ==> LogEntry(requests, flags, log, at, k))
    && (forall i: nat :: i < |flags| && flags[i] ==> i in at)
  }

  lemma ListsStep(requests: seq<Request>, flags: seq<bool>, log: seq<Entry>, at: seq<nat>, r: Request, fetched: bool)
    requires Lists(requests, flags, log, at)
    ensures Lists(requests + [r], flags + [fetched], if fetched then log + [Entry(r.key, r.expires)] else log,
                  if fetched then at + [|requests|] else at)
  {
    var n, flags' := |requests|, flags + [fetched];
    var log' := if fetched then log + [Entry(r.key, r.expires)] else log;
    var at' := if fetched then at + [n] else at;
    forall k | 0 <= k < |at'| ensures LogEntry(requests + [r], flags', log', at', k) {
      if k < |at| {
        assert LogEntry(requests, flags, log, at, k);
      }
    }
    forall i: nat | i < |flags'| && flags'[i] ensures i in at' {
      if i < n {
        assert flags[i];
      } else {
        assert at'[|at|] == n;
      }
    }
  }

  lemma ListsExtended(init: seq<Request>, r: Request, flags: seq<bool>, log: seq<Entry>, at: seq<nat>, fetched: bool,
                      all: seq<Request>, flags': seq<bool>, log': seq<Entry>)
      returns (at': seq<nat>)
    requires Lists(init, flags, log, at) && all == init + [r] && flags' == flags + [fetched]
    requires log' == if fetched then log + [Entry(r.key, r.expires)] else log
    ensures Lists(all, flags', log', at')
  {
    at' := if fetched then at + [|init|] else at;
    ListsStep(init, flags, log, at, r, fetched);
  }

  lemma {:induction false} LogLists(requests: seq<Request>) returns (at: seq<nat>)
    ensures Lists(requests, FetchFlags(requests), Log(requests), at)
  {
    if requests == [] {
      at := [];
    } else {
      var init, r := requests[..|requests| - 1], requests[|requests| - 1];
      at := LogLists(init);
      var fetched := LogStep(requests);
      assert requests == init + [r];
      at := ListsExtended(init, r, FetchFlags(init), Log(init), at, fetched, requests, FetchFlags(requests),
                          Log(requests));
    }
  }

  lemma PositionOf(at: seq<nat>, i: nat) returns (k: nat)
    requires i in at
    ensures k < |at| && at[k] == i
  {
    k :| k < |at| && at[k] == i;
  }

  /** The pages of the flagged requests after i. */
  function FlaggedAfter(requests: seq<Request>, flags: seq<bool>, i: nat): set<Key>
    requires |flags| == |requests|
  {
    set j: nat | i < j < |requests| && flags[j] :: requests[j].key
  }

  lemma LaterInLog(requests: seq<Request>, flags: seq<bool>, log: seq<Entry>, at: seq<nat>, k: nat, page: Key)
    requires Lists(requests, flags, log, at) && k < |log| && page in KeysAfter(log, k)
    ensures page in FlaggedAfter(requests, flags, at[k])
  {
    var e :| e in log[k + 1..] && e.key == page;
    var j :| 0 <= j < |log[k + 1..]| && log[k + 1..][j] == e;
    assert LogEntry(requests, flags, log, at, k) && LogEntry(requests, flags, log, at, k + 1 + j);
    assert log[k + 1 + j] == e;
  }

  lemma LaterInRequests(requests: seq<Request>, flags: seq<bool>, log: seq<Entry>, at: seq<nat>, k: nat, page: Key)
    requires Lists(requests, flags, log, at) && k < |log| && page in FlaggedAfter(requests, flags, at[k])
    ensures page in KeysAfter(log, k)
  {
    var r: nat :| at[k] < r < |requests| && flags[r] && requests[r].key == page;
    var j := PositionOf(at, r);
    assert LogEntry(requests, flags, log, at, j);
    assert k < j;
    assert log[k + 1..][j - k - 1] == log[j];
    assert log[j] in log[k + 1..];
  }

  lemma AfterAgree(requests: seq<Request>, flags: seq<bool>, log: seq<Entry>, at: seq<nat>, k: nat)
    requires Lists(requests, flags, log, at) && k < |log|
    ensures KeysAfter(log, k) == FlaggedAfter(requests, flags, at[k])
  {
    forall page | page in KeysAfter(log, k) ensures page in FlaggedAfter(requests, flags, at[k]) {
      LaterInLog(requests, flags, log, at, k, page);
    }
    forall page | page in FlaggedAfter(requests, flags, at[k]) ensures page in KeysAfter(log, k) {
      LaterInRequests(requests, flags, log, at, k, page);
    }
  }

  predicate LatestFlag(requests: seq<Request>, flags: seq<bool>, key: Key, i: nat) {
    |flags| == |requests| && i < |requests| && flags[i] && requests[i].key == key
    && forall j :: i < j < |requests| && flags[j] ==> requests[j].key != key
  }

  lemma LatestFlagIsLast(requests: seq<Request>, flags: seq<bool>, log: seq<Entry>, at: seq<nat>, key: Key, i: nat)
      returns (k: nat)
    requires Lists(requests, flags, log, at) && LatestFlag(requests, flags, key, i)
    ensures LastFetch(log, key, k) && KeysAfter(log, k) == FlaggedAfter(requests, flags, i)
    ensures log[k].expires == requests[i].expires
  {
    k := PositionOf(at, i);
    assert LogEntry(requests, flags, log, at, k);
    forall j | k < j < |log| ensures log[j].key != key {
      assert LogEntry(requests, flags, log, at, j);
    }
    AfterAgree(requests, flags, log, at, k);
  }

  lemma LastIsLatestFlag(requests: seq<Request>, flags: seq<bool>, log: seq<Entry>, at: seq<nat>, key: Key, k: nat)
    requires Lists(requests, flags, log, at) && LastFetch(log, key, k)
    ensures LatestFlag(requests, flags, key, at[k])
  {
    assert LogEntry(requests, flags, log, at, k);
    forall j: nat | at[k] < j < |requests| && flags[j] ensures requests[j].key != key {
      var m := PositionOf(at, j);
      assert LogEntry(requests, flags, log, at, m);
    }
  }

  lemma FlagsAreFetches(requests: seq<Request>, key: Key, i: nat)
    ensures LatestFetch(requests, key, i) == LatestFlag(requests, FetchFlags(requests), key, i)
    ensures |FetchFlags(requests)| == |requests|
    ensures FetchedAfter(requests, i) == FlaggedAfter(requests, FetchFlags(requests), i)
  {
    AnswersLength(requests);
  }

  /** The page of r was fetched by request i, was not fetched since, and fewer than ten other pages were. */
  predicate StillCached(requests: seq<Request>, key: Key, i: nat) {
    LatestFetch(requests, key, i) && |FetchedAfter(requests, i)| < 10
  }

  lemma LatestFetchUnique(requests: seq<Request>, key: Key, i: nat, j: nat)
    requires LatestFetch(requests, key, i) && LatestFetch(requests, key, j)
    ensures i == j
  {
  }

  lemma AnsweredFromLog(requests: seq<Request>, r: Request, k: nat)
    requires LastFetch(Log(requests), r.key, k)
    ensures var log := Log(requests);
            AnswerTo(Run(requests), r) == if |KeysAfter(log, k)| >= 10 then PlainGet
                                          else if r.now <= log[k].expires then FromCache else ConditionalGet
  {
    var log := Log(requests);
    CacheIsTenMostRecent(requests);
    RecentDistinct(log);
    PositionInRecent(log, r.key, k);
    AnswerInTruncated(Recent(log), |KeysAfter(log, k)|, log[k], KeysAfter(log, k), r);
  }

  lemma AnswerInTruncated(s: seq<Entry>, p: nat, x: Entry, ahead: set<Key>, r: Request)
    requires Distinct(s) && StandsAt(s, p, x, ahead) && x.key == r.key
    ensures AnswerTo(Truncate(s), r) == if p >= 10 then PlainGet
                                        else if r.now <= x.expires then FromCache else ConditionalGet
  {
    StandsAtIsFound(s, p, x, ahead);
    CachedAnswer(Truncate(s), r, x, p);
  }

  lemma AnsweredAfterFetch(requests: seq<Request>, r: Request, i: nat)
    requires LatestFetch(requests, r.key, i)
    ensures AnswerTo(Run(requests), r) == if |FetchedAfter(requests, i)| >= 10 then PlainGet
                                          else if r.now <= requests[i].expires then FromCache else ConditionalGet
  {
    var at := LogLists(requests);
    FlagsAreFetches(requests, r.key, i);
    var k := LatestFlagIsLast(requests, FetchFlags(requests), Log(requests), at, r.key, i);
    AnsweredFromLog(requests, r, k);
  }

  lemma AnsweredWithoutFetch(requests: seq<Request>, r: Request)
    requires forall i: nat :: !LatestFetch(requests, r.key, i)
    ensures AnswerTo(Run(requests), r) == PlainGet
  {
    var log := Log(requests);
    var at := LogLists(requests);
    forall k: nat ensures !LastFetch(log, r.key, k) {
      if LastFetch(log, r.key, k) {
        LastIsLatestFlag(requests, FetchFlags(requests), log, at, r.key, k);
        FlagsAreFetches(requests, r.key, at[k]);
      }
    }
    NeverFetched(log, r.key);
    CacheIsTenMostRecent(requests);
    RecentDistinct(log);
    AbsentIsPlain(Recent(log), r);
  }

  /** How every request is answered, in terms of the requests before it: from the cache when its page is still cached
      and the expiry that fetch was answered with has not passed, by a conditional GET when it has, and by a plain GET
      when the page is not cached any more. */
  lemma AnsweredExactly(requests: seq<Request>, r: Request)
    ensures var answer := AnswerTo(Run(requests), r);
            && (answer == FromCache <==>
                  exists i: nat :: StillCached(requests, r.key, i) && r.now <= requests[i].expires)
            && (answer == ConditionalGet <==>
                  exists i: nat :: StillCached(requests, r.key, i) && requests[i].expires < r.now)
            && (answer == PlainGet <==> forall i: nat :: !StillCached(requests, r.key, i))
  {
    if i: nat :| LatestFetch(requests, r.key, i) {
      AnsweredAfterFetch(requests, r, i);
      forall j: nat | StillCached(requests, r.key, j) ensures j == i { LatestFetchUnique(requests, r.key, i, j); }
      assert StillCached(requests, r.key, i) <==> |FetchedAfter(requests, i)| < 10;
    } else {
      AnsweredWithoutFetch(requests, r);
    }
  }

  lemma CachedAnswer(cache: seq<Entry>, r: Request, e: Entry, p: nat)
    requires e.key == r.key && Find(cache, r.key) == (if p < CACHE_SIZE then p else |cache|)
    requires p < CACHE_SIZE ==> p < |cache| && cache[p] == e
    ensures AnswerTo(cache, r) == if p >= 10 then PlainGet else if r.now <= e.expires then FromCache else ConditionalGet
  {
  }

  lemma AbsentIsPlain(s: seq<Entry>, r: Request)
    requires r.key !in Keys(s)
    ensures AnswerTo(Truncate(s), r) == PlainGet
  {
    FoundIffKey(Truncate(s), r.key);
    forall e | e in Truncate(s) ensures e in s {
    }
  }

  // ----- evictions

  predicate NeverEvicts(requests: seq<Request>) {
    requests == [] || (NeverEvicts(requests[..|requests| - 1]) && !EvictsAt(requests, |requests| - 1))
  }

  predicate EvictsAt(requests: seq<Request>, n: nat)
    requires n < |requests|
  {
    Evicts(Run(requests[..n]), requests[n])
  }

  lemma {:induction false} DistinctPages(log: seq<Entry>)
    ensures |Keys(log)| == |Recent(log)|
  {
    RecentDistinct(log);
    DistinctCount(Recent(log));
  }

  lemma FetchLength(s: seq<Entry>, e: Entry)
    ensures |[e] + Without(s, e.key)| <= CACHE_SIZE
            <==> |s| <= CACHE_SIZE && |Without(Truncate(s), e.key)| != CACHE_SIZE
  {
  }

  lemma EvictsStep(requests: seq<Request>)
    requires requests != []
    ensures var n := |requests| - 1;
            |Recent(Log(requests))| <= CACHE_SIZE
            <==> |Recent(Log(requests[..n]))| <= CACHE_SIZE && !EvictsAt(requests, n)
  {
    var n := |requests| - 1;
    var before, log := Log(requests[..n]), Log(requests);
    CacheIsTenMostRecent(requests[..n]);
    if Hit(Run(requests[..n]), requests[n]) {
      assert before + [] == before;
    } else {
      assert log[..|log| - 1] == before;
      FetchLength(Recent(before), Fetched(requests[n]));
    }
  }

  /** The pages asked for. */
  function Requested(requests: seq<Request>): set<Key> {
    set r | r in requests :: r.key
  }

  lemma RequestedLast(requests: seq<Request>)
    requires requests != []
    ensures var n := |requests| - 1;
            Requested(requests) == Requested(requests[..n]) + {requests[n].key}
  {
    var n := |requests| - 1;
    assert requests == requests[..n] + [requests[n]];
    forall key | key in Requested(requests[..n]) + {requests[n].key} ensures key in Requested(requests) {
      if key != requests[n].key {
        var r :| r in requests[..n] && r.key == key;
        assert r in requests;
      }
    }
  }

  /** A hit is a page fetched before. */
  lemma HitWasFetched(requests: seq<Request>, r: Request)
    requires Hit(Run(requests), r)
    ensures r.key in Keys(Log(requests))
  {
    ServedFromCacheExactly(requests, r);
    var i: nat :| StillGood(Log(requests), r, i);
    assert Log(requests)[i] in Log(requests);
  }

  /** The pages fetched in a run are the pages asked for. */
  lemma {:induction false} RequestedAreFetched(requests: seq<Request>)
    ensures Keys(Log(requests)) == Requested(requests)
  {
    if requests != [] {
      var n := |requests| - 1;
      RequestedAreFetched(requests[..n]);
      RequestedLast(requests);
      if Hit(Run(requests[..n]), requests[n]) {
        HitWasFetched(requests[..n], requests[n]);
        assert Log(requests) == Log(requests[..n]);
      } else {
        KeysConcat(Log(requests[..n]), [Fetched(requests[n])]);
        KeysOne(Fetched(requests[n]));
      }
    }
  }

  lemma {:induction false} FewFetchesNeverEvict(requests: seq<Request>)
    ensures NeverEvicts(requests) <==> |Keys(Log(requests))| <= CACHE_SIZE
  {
    DistinctPages(Log(requests));
    if requests != [] {
      var before := requests[..|requests| - 1];
      FewFetchesNeverEvict(before);
      DistinctPages(Log(before));
      EvictsStep(requests);
    }
  }

  /** A run evicts nothing exactly when it asks for at most ten different pages. */
  lemma NeverEvictsExactly(requests: seq<Request>)
    ensures NeverEvicts(requests) <==> |Requested(requests)| <= CACHE_SIZE
  {
    FewFetchesNeverEvict(requests);
    RequestedAreFetched(requests);
  }

  /** What a caller sees of an eviction: a plain GET while ten entries are cached. */
  lemma EvictsVisibly(cache: seq<Entry>, r: Request)
    requires Distinct(cache) && |cache| <= CACHE_SIZE
    ensures Evicts(cache, r) <==> AnswerTo(cache, r) == PlainGet && |cache| == CACHE_SIZE
  {
  }

  /** A run so far: what it left in the cache, how it answered, whether it evicted nothing. */
  datatype Trace = Trace(cache: seq<Entry>, answers: seq<Answer>, clean: bool)

  function TraceOf(requests: seq<Request>): Trace {
    Trace(Run(requests), Answers(requests), NeverEvicts(requests))
  }

  function Extend(t: Trace, r: Request): Trace {
    Trace(Handle(t.cache, r), t.answers + [AnswerTo(t.cache, r)], t.clean && !Evicts(t.cache, r))
  }

  /** The traces of all prefixes of a run. */
  predicate Chain(requests: seq<Request>, ts: seq<Trace>) {
    && |ts| == |requests| + 1
    && ts[0] == Trace([], [], true)
    && forall k :: 0 <= k < |requests| ==> ts[k + 1] == Extend(ts[k], requests[k])
  }

  lemma {:induction false} MakeChain(requests: seq<Request>) returns (ts: seq<Trace>)
    ensures Chain(requests, ts)
  {
    ts := [Trace([], [], true)];
    if requests != [] {
      var n := |requests| - 1;
      ts := MakeChain(requests[..n]);
      ts := ts + [Extend(ts[n], requests[n])];
    }
  }

  lemma {:induction false} ChainIsTrace(requests: seq<Request>, ts: seq<Trace>, n: nat)
    requires Chain(requests, ts) && n <= |requests|
    ensures ts[n] == TraceOf(requests[..n])
  {
    if n > 0 {
      ChainIsTrace(requests, ts, n - 1);
      RunStep(requests, n - 1);
      assert ts[n - 1 + 1] == Extend(ts[n - 1], requests[n - 1]);
    }
  }

  /** A prefix of a run that evicts nothing evicts nothing. */
  lemma {:induction false} NeverEvictsPrefix(requests: seq<Request>, n: nat)
    requires n <= |requests|
    ensures NeverEvicts(requests) ==> NeverEvicts(requests[..n])
  {
    if n < |requests| {
      var shorter := requests[..|requests| - 1];
      NeverEvictsPrefix(shorter, n);
      assert shorter[..n] == requests[..n];
    } else {
      assert requests[..n] == requests;
    }
  }

  /** Stopping at the first harmful eviction, a run gets to its end exactly when there is no harm in any or at most ten
      different pages are asked for. */
  lemma CompletesExactly(requests: seq<Request>, n: nat, harmless: bool, safe: bool)
    requires n <= |requests| && (safe ==> n == |requests|) && safe == (harmless || TraceOf(requests[..n]).clean)
    ensures safe <==> harmless || |Requested(requests)| <= CACHE_SIZE
  {
    NeverEvictsPrefix(requests, n);
    assert requests[..|requests|] == requests;
    NeverEvictsExactly(requests);
  }
}
