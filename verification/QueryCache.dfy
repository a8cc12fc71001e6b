/** The page cache as the proxy keeps it: a doubly linked list on the heap, and the request path that drives it. */
module QueryCache {
  import opened CacheModel

  class Node {
    var req: Entry
    var next: Node?
    var prev: Node?

    constructor (req: Entry)
      ensures this.req == req && next == null && prev == null
    {
      this.req, next, prev := req, null, null;
    }
  }

  ghost function At(nodes: seq<Node>, i: int): Node? {
    if 0 <= i < |nodes| then nodes[i] else null
  }

  /** Links that pass over position k are the links of the sequence without it. */
  lemma SpliceLinks(nodes: seq<Node>, k: nat)
    requires k < |nodes|
    requires forall i {:trigger nodes[i].next} :: 0 <= i < |nodes| ==>
               nodes[i].next == At(nodes, if i == k - 1 then k + 1 else i + 1)
    requires forall i {:trigger nodes[i].prev} :: 0 <= i < |nodes| ==>
               nodes[i].prev == At(nodes, if i == k + 1 then k - 1 else i - 1)
    ensures var rest := nodes[..k] + nodes[k + 1..];
            && (forall i {:trigger rest[i].next} :: 0 <= i < |rest| ==> rest[i].next == At(rest, i + 1))
            && (forall i {:trigger rest[i].prev} :: 0 <= i < |rest| ==> rest[i].prev == At(rest, i - 1))
  {
  }

  class Cache {
    /** false: the code as written; true: dequeue deletes the node it has just cut off. */
    const repaired: bool
    var head: Node?
    var currCacheSize: nat
    ghost var nodes: seq<Node>
    ghost var freed: set<Node> // nodes passed to delete

    ghost function NodeAt(i: int): Node?
      reads this
    {
      At(nodes, i)
    }

    /** The list is acyclic, next and prev are mutually inverse, and the counter is its length. */
    ghost predicate Linked()
      reads this, nodes
    {
      && currCacheSize == |nodes|
      && head == NodeAt(0)
      && (forall i {:trigger nodes[i].next} :: 0 <= i < |nodes| ==> nodes[i].next == NodeAt(i + 1))
      && (forall i {:trigger nodes[i].prev} :: 0 <= i < |nodes| ==> nodes[i].prev == NodeAt(i - 1))
      && (forall i, j :: 0 <= i < j < |nodes| ==> nodes[i] != nodes[j])
    }

    /** No reachable node has been deleted. */
    ghost predicate Safe()
      reads this
    {
      forall i :: 0 <= i < |nodes| ==> nodes[i] !in freed
    }

    ghost predicate Valid()
      reads this, nodes
    {
      Linked() && Safe() && |nodes| <= CACHE_SIZE
    }

    ghost function Contents(): (r: seq<Entry>)
      reads this, nodes
      ensures |r| == |nodes|
    {
      seq(|nodes|, i requires 0 <= i < |nodes| reads this, nodes => nodes[i].req)
    }

    constructor (repaired: bool)
      ensures Valid() && Contents() == [] && this.repaired == repaired
    {
      this.repaired := repaired;
      head, currCacheSize, nodes, freed := null, 0, [], {};
    }

    /** Pushes the entry; an eleventh entry makes dequeue drop the last one. The list is always the right one, but as
        written it ends in deleted memory exactly when it was full. */
    method Enqueue(e: Entry)
      requires Valid()
      modifies this, nodes
      ensures Linked() && |nodes| <= CACHE_SIZE
      ensures Contents() == Truncate([e] + old(Contents()))
      ensures Valid() <==> repaired || |old(Contents())| < CACHE_SIZE
      ensures forall i :: 0 <= i < |nodes| ==> nodes[i] in old(nodes) || fresh(nodes[i])
    {
      var curr := new Node(e);
      Push(curr);
      ghost var pushed := Contents();
      assert pushed == [e] + old(Contents());
      if currCacheSize == CACHE_SIZE + 1 {
        Dequeue();
      }
    }

    method Push(curr: Node)
      requires Linked() && curr !in nodes && curr.next == null && curr.prev == null
      modifies this`head, this`currCacheSize, this`nodes, nodes, curr
      ensures Linked() && nodes == [curr] + old(nodes)
      ensures Contents() == [old(curr.req)] + old(Contents())
    {
      if head != null {
        head.prev := curr;
        curr.next := head;
      }
      head := curr;
      currCacheSize := currCacheSize + 1;
      nodes := [curr] + nodes;
    }

    /** Walks to the tenth node, cuts the list there and deletes that node (or, repaired, the one cut off). */
    method Dequeue()
      requires Linked() && |nodes| == CACHE_SIZE + 1
      modifies this`currCacheSize, this`nodes, this`freed, nodes
      ensures Linked() && nodes == old(nodes)[..CACHE_SIZE]
      ensures Contents() == old(Contents())[..CACHE_SIZE]
      ensures freed == old(freed) + {old(nodes)[if repaired then CACHE_SIZE else CACHE_SIZE - 1]}
    {
      var curr := head;
      for m := 0 to CACHE_SIZE - 1
        invariant curr == nodes[m]
      {
        curr := curr.next;
      }
      ghost var victim := if repaired then curr.next else curr;
      curr.next := null;
      freed := freed + {victim};
      currCacheSize := currCacheSize - 1;
      nodes := nodes[..CACHE_SIZE];
    }

    /** The walk shared by remove, check_cache and is_cache_exist. */
    method Search(key: Key) returns (curr: Node?, ghost k: nat)
      requires Linked()
      ensures k == Find(Contents(), key) && curr == NodeAt(k)
    {
      curr, k := head, 0;
      ghost var all := Contents();
      while curr != null
        invariant k <= |nodes| && curr == NodeAt(k)
        invariant forall i :: 0 <= i < k ==> all[i].key != key
        decreases |nodes| - k
      {
        if curr.req.key == key {
          break;
        }
        curr, k := curr.next, k + 1;
      }
      FindUnique(all, key, k);
    }

    /** Points the neighbours of a node past it. */
    method Bypass(curr: Node, ghost k: nat)
      requires Linked() && k < |nodes| && curr == nodes[k]
      modifies this`head, nodes
      ensures head == if k == 0 then NodeAt(1) else nodes[0]
      ensures forall i {:trigger nodes[i].next} :: 0 <= i < |nodes| ==>
                nodes[i].next == NodeAt(if i == k - 1 then k + 1 else i + 1)
      ensures forall i {:trigger nodes[i].prev} :: 0 <= i < |nodes| ==>
                nodes[i].prev == NodeAt(if i == k + 1 then k - 1 else i - 1)
      ensures forall n :: n in nodes ==> n.req == old(n.req)
    {
      var t1, t2 := curr.prev, curr.next;
      if t1 != null {
        t1.next := t2;
      } else {
        head := t2;
      }
      if t2 != null {
        t2.prev := t1;
      }
    }

    /** Takes a node out of the list. */
    method Unlink(curr: Node, ghost k: nat)
      requires Linked() && k < |nodes| && curr == nodes[k]
      modifies this`head, this`currCacheSize, this`nodes, nodes
      ensures Linked() && nodes == old(nodes)[..k] + old(nodes)[k + 1..]
      ensures forall n :: n in old(nodes) ==> n.req == old(n.req)
    {
      Bypass(curr, k);
      currCacheSize := currCacheSize - 1;
      SpliceLinks(nodes, k);
      nodes := nodes[..k] + nodes[k + 1..];
    }

    /** Unlinks the node at k; what is left are the other entries, in order. */
    method Extract(curr: Node, ghost k: nat)
      requires Valid() && k < |nodes| && curr == nodes[k]
      modifies this`head, this`currCacheSize, this`nodes, nodes
      ensures Valid() && curr !in nodes && Contents() == old(Contents())[..k] + old(Contents())[k + 1..]
      ensures forall i :: 0 <= i < |nodes| ==> nodes[i] in old(nodes)
    {
      ghost var all, was := Contents(), nodes;
      Unlink(curr, k);
      assert forall i :: 0 <= i < |nodes| ==> nodes[i] == if i < k then was[i] else was[i + 1];
      assert Contents() == all[..k] + all[k + 1..];
    }

    method Remove(key: Key)
      requires Valid()
      modifies this, nodes
      ensures Valid() && Contents() == Without(old(Contents()), key)
      ensures forall i :: 0 <= i < |nodes| ==> nodes[i] in old(nodes)
    {
      ghost var all := Contents();
      var curr, k := Search(key);
      if curr != null {
        Extract(curr, k);
        ghost var left := Contents();
        freed := freed + {curr};
        assert Contents() == left == Without(all, key);
      }
    }

    /** 0: present and fresh; 1: expired, and taken out of the list; 2: absent. */
    method CheckCache(key: Key, now: int) returns (flag: nat)
      requires Valid()
      modifies this, nodes
      ensures Valid() && flag == Check(old(Contents()), key, now)
      ensures Contents() == if flag == 1 then Without(old(Contents()), key) else old(Contents())
      ensures forall i :: 0 <= i < |nodes| ==> nodes[i] in old(nodes)
    {
      var curr, k := Search(key);
      if curr == null {
        return 2;
      }
      if now > curr.req.expires {
        Extract(curr, k);
        return 1;
      }
      return 0;
    }

    method IsCacheExist(key: Key) returns (found: bool)
      requires Linked()
      ensures found <==> key in Keys(Contents())
    {
      var curr, k := Search(key);
      found := curr != null;
      FoundIffKey(Contents(), key);
    }
  }

  class Proxy {
    const cache: Cache

    constructor (cache: Cache)
      ensures this.cache == cache
    {
      this.cache := cache;
    }

    ghost predicate Valid()
      reads this, cache, cache.nodes
    {
      cache.Valid() && Distinct(cache.Contents())
    }

    /** recv_from_clnt: checks the cache and passes the flag on. The cache stays usable exactly when nothing had to be
        evicted or the eviction is the repaired one. */
    method HandleRequest(r: Request) returns (answer: Answer)
      requires Valid()
      modifies cache, cache.nodes
      ensures answer == AnswerTo(old(cache.Contents()), r)
      ensures cache.Linked() && cache.Contents() == Handle(old(cache.Contents()), r) && Distinct(cache.Contents())
      ensures cache.Valid() <==> cache.repaired || !Evicts(old(cache.Contents()), r)
      ensures forall i :: 0 <= i < |cache.nodes| ==> cache.nodes[i] in old(cache.nodes) || fresh(cache.nodes[i])
    {
      ghost var before := cache.Contents();
      var flag := cache.CheckCache(r.key, r.now);
      answer := GetRequestPage(r, flag, before);
    }

    /** get_request_page: a hit goes to the client, a missing page is asked for plainly, an expired one
        conditionally. */
    method GetRequestPage(r: Request, flag: nat, ghost before: seq<Entry>) returns (answer: Answer)
      requires cache.Valid() && Distinct(before) && |before| <= CACHE_SIZE && flag == Check(before, r.key, r.now)
      requires cache.Contents() == if flag == 1 then Without(before, r.key) else before
      modifies cache, cache.nodes
      ensures answer == AnswerTo(before, r)
      ensures cache.Linked() && cache.Contents() == Handle(before, r) && Distinct(cache.Contents())
      ensures cache.Valid() <==> cache.repaired || !Evicts(before, r)
      ensures forall i :: 0 <= i < |cache.nodes| ==> cache.nodes[i] in old(cache.nodes) || fresh(cache.nodes[i])
    {
      ghost var mid := cache.Contents();
      RequestFacts(before, r, flag, mid);
      var found := cache.IsCacheExist(r.key);
      if flag == 0 && found {
        return FromCache;
      }
      assert r.key !in Keys(mid);
      answer := if flag == 2 then PlainGet else ConditionalGet;
      ReceiveFromServer(r, flag);
      ghost var now := cache.Contents();
      assert now == Refresh(mid, Fetched(r)) == Handle(before, r);
    }

    /** recv_from_srvr: flags 0 and 2 remove the key first; flag 1 comes with the key already gone. */
    method ReceiveFromServer(r: Request, flag: nat)
      requires cache.Valid()
      requires flag <= 2 && (flag == 1 ==> r.key !in Keys(cache.Contents()))
      modifies cache, cache.nodes
      ensures cache.Linked() && cache.Contents() == Refresh(old(cache.Contents()), Fetched(r))
      ensures cache.Contents() != [] && cache.Contents()[0].key == r.key && cache.Contents()[0].expires == r.expires
      ensures cache.Valid() <==> cache.repaired || |Without(old(cache.Contents()), r.key)| < CACHE_SIZE
      ensures forall i :: 0 <= i < |cache.nodes| ==> cache.nodes[i] in old(cache.nodes) || fresh(cache.nodes[i])
    {
      AbsentIsUnchanged(cache.Contents(), r.key);
      if flag == 0 || flag == 2 {
        cache.Remove(r.key);
      }
      cache.Enqueue(Entry(r.key, r.expires));
    }

    /** The list is well linked and holds these entries; whether it is also free of deleted memory. */
    ghost predicate Shows(entries: seq<Entry>, safe: bool)
      reads this, cache, cache.nodes
    {
      cache.Linked() && Distinct(entries) && |cache.nodes| <= CACHE_SIZE && cache.Contents() == entries
      && safe == cache.Safe()
    }

    /** The heap and the answers agree with a run so far; the list is safe exactly if no eviction did harm. */
    ghost predicate Follows(t: Trace, answers: seq<Answer>, safe: bool)
      reads this, cache, cache.nodes
    {
      Shows(t.cache, safe) && answers == t.answers && safe == (cache.repaired || t.clean)
    }

    method ServeOne(r: Request, answers: seq<Answer>, ghost t: Trace) returns (more: seq<Answer>, safe: bool)
      requires Follows(t, answers, true)
      modifies cache, cache.nodes
      ensures Follows(Extend(t, r), more, safe)
      ensures forall i :: 0 <= i < |cache.nodes| ==> cache.nodes[i] in old(cache.nodes) || fresh(cache.nodes[i])
    {
      EvictsVisibly(t.cache, r);
      var size := cache.currCacheSize;
      var answer := HandleRequest(r);
      safe := cache.repaired || answer != PlainGet || size < CACHE_SIZE;
      more := answers + [answer];
    }

    /** The request loop, up to the first request that leaves deleted memory in the list. The run is safe exactly when
        the eviction is the repaired one or at most ten different pages are asked for; as far as it goes, answers and
        cache are those of the model. */
    method ServeAll(requests: seq<Request>) returns (answers: seq<Answer>, safe: bool)
      requires Valid() && cache.Contents() == []
      modifies cache, cache.nodes
      ensures safe <==> cache.repaired || |Requested(requests)| <= CACHE_SIZE
      ensures safe ==> |answers| == |requests|
      ensures |answers| <= |requests| && Follows(TraceOf(requests[..|answers|]), answers, safe)
    {
      answers, safe := [], true;
      ghost var ts := MakeChain(requests);
      while |answers| < |requests| && safe
        invariant |answers| <= |requests| && Follows(ts[|answers|], answers, safe)
        invariant forall i :: 0 <= i < |cache.nodes| ==> cache.nodes[i] in old(cache.nodes) || fresh(cache.nodes[i])
        decreases |requests| - |answers|
      {
        ghost var n := |answers|;
        assert ts[n + 1] == Extend(ts[n], requests[n]);
        answers, safe := ServeOne(requests[|answers|], answers, ts[n]);
      }
      ChainIsTrace(requests, ts, |answers|);
      CompletesExactly(requests, |answers|, cache.repaired, safe);
    }
  }
}
