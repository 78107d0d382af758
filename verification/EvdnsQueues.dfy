/**
  Submitting, finishing and moving DNS requests (common/libevent/evdns.c).
  */
module EvdnsQueues {
  import opened Sequences
  import opened RequestLists
  import opened RequestQueues

  // Adding a request to those under way to a server, or taking it away.
  lemma LoadMore(flying: set<Request>, req: Request, servers: seq<Server>)
    requires Loaded(flying, servers) && req !in flying && req.ns != null && req.ns in servers
    ensures forall s <- servers :: |Load(flying + {req}, s)| == s.load + if s == req.ns then 1 else 0
  {
    forall s | s in servers
      ensures |Load(flying + {req}, s)| == s.load + if s == req.ns then 1 else 0
    {
      assert Load(flying + {req}, s) == Load(flying, s) + if s == req.ns then {req} else {};
    }
  }

  lemma LoadLess(flying: set<Request>, req: Request, servers: seq<Server>)
    requires Loaded(flying, servers) && req in flying
    ensures forall s <- servers :: |Load(flying - {req}, s)| == s.load - if s == req.ns then 1 else 0
  {
    forall s | s in servers
      ensures |Load(flying - {req}, s)| == s.load - if s == req.ns then 1 else 0
    {
      if s == req.ns {
        assert Load(flying - {req}, s) == Load(flying, s) - {req} && req in Load(flying, s);
      } else {
        assert Load(flying - {req}, s) == Load(flying, s);
      }
    }
  }

  // requests_inflight of the server of a request goes up or down.
  method RaiseLoad(req: Request, ghost flying: set<Request>, ghost servers: seq<Server>)
    requires Loaded(flying, servers) && req !in flying && req.ns != null && req.ns in servers
    modifies req.ns`load
    ensures Loaded(flying + {req}, servers)
  {
    LoadMore(flying, req, servers);
    req.ns.load := req.ns.load + 1;
  }

  method LowerLoad(req: Request, ghost flying: set<Request>, ghost servers: seq<Server>)
    requires Loaded(flying, servers) && req in flying
    modifies req.ns`load
    ensures Loaded(flying - {req}, servers)
  {
    LoadLess(flying, req, servers);
    req.ns.load := req.ns.load - 1;
  }

  // The buckets with their heads.
  ghost predicate Flies(heads: seq<Request?>, buckets: Buckets)
    reads Flying(buckets)`next, Flying(buckets)`prev, Flying(buckets)`transId
  {
    Headed(heads, buckets) && Rings(buckets) && Sorted(buckets)
  }

  // The queue with its head.
  ghost predicate Waits(waitingHead: Request?, queue: seq<Request>)
    reads queue`next, queue`prev, queue`ns
  {
    IsList(waitingHead, queue) && Idle(queue)
  }

  // The servers, from the one on that is tried next.
  ghost predicate Serves(serverHead: Server?, servers: seq<Server>, good: int)
    reads servers`next, servers`prev, servers`up
  {
    ServerRing(servers) && serverHead == (if servers == [] then null else servers[0]) && good == |UpSet(servers)|
  }

  // A request with a server joins those under way.
  method Launch(req: Request, heads: seq<Request?>, ghost buckets: Buckets, ghost servers: seq<Server>)
    returns (heads': seq<Request?>, ghost buckets': Buckets)
    requires Flies(heads, buckets) && Loaded(Flying(buckets), servers)
    requires req !in Flying(buckets) && req.ns != null && req.ns in servers
    modifies req`next, req`prev, Flying(buckets)`next, Flying(buckets)`prev, req.ns`load
    ensures Flies(heads', buckets') && Loaded(Flying(buckets'), servers) && Flying(buckets') == Flying(buckets) + {req}
  {
    hide Rings, Sorted, Headed, Loaded;
    heads', buckets' := PutInBucket(req, heads, buckets);
    RaiseLoad(req, Flying(buckets), servers);
  }

  method Land(req: Request, heads: seq<Request?>, ghost buckets: Buckets, ghost servers: seq<Server>)
    returns (heads': seq<Request?>, ghost buckets': Buckets)
    requires Flies(heads, buckets) && Loaded(Flying(buckets), servers) && req in Flying(buckets)
    modifies Flying(buckets)`next, Flying(buckets)`prev, servers`load
    ensures Flies(heads', buckets') && Loaded(Flying(buckets'), servers) && Flying(buckets') == Flying(buckets) - {req}
  {
    assert req.ns != null && req.ns in servers;
    hide Rings, Sorted, Headed, Loaded;
    heads', buckets' := TakeFromBucket(req, heads, buckets);
    LowerLoad(req, Flying(buckets), servers);
  }

  // A request that waits gets its server and transaction id and is sent off.
  method Assign(req: Request, ns: Server, transId: nat, heads: seq<Request?>, ghost buckets: Buckets, ghost servers: seq<Server>)
    returns (heads': seq<Request?>, ghost buckets': Buckets)
    requires Flies(heads, buckets) && Loaded(Flying(buckets), servers) && req !in Flying(buckets) && ns in servers
    requires Unique(Flying(buckets)) && transId < NO_ID && Free(Flying(buckets), transId)
    modifies req`next, req`prev, req`ns, req`transId, Flying(buckets)`next, Flying(buckets)`prev, ns`load
    ensures Flies(heads', buckets') && Loaded(Flying(buckets'), servers) && Flying(buckets') == Flying(buckets) + {req}
    ensures req.ns == ns && req.transId == transId && Unique(Flying(buckets'))
  {
    hide Flies, Loaded, Flying;
    req.ns, req.transId := ns, transId;
    UniqueMore(Flying(buckets), req);
    hide Unique, Free;
    ghost var all := Flying(buckets) + {req};
    assert Unique(all) && forall r <- all :: allocated(r);
    heads', buckets' := Launch(req, heads, buckets, servers);
  }

  method Enqueue(req: Request, head: Request?, ghost queue: seq<Request>) returns (head': Request?)
    requires Waits(head, queue) && req !in queue && req.ns == null
    modifies req`next, req`prev, queue`next, queue`prev
    ensures Waits(head', queue + [req])
  {
    hide IsList;
    head' := RequestInsert(req, head, queue);
  }

  method Dequeue(req: Request, head: Request?, ghost queue: seq<Request>, ghost i: nat) returns (head': Request?)
    requires Waits(head, queue) && i < |queue| && queue[i] == req
    modifies queue`next, queue`prev
    ensures Waits(head', WithoutAt(queue, i)) && req !in WithoutAt(queue, i)
    ensures req.next == req.prev == null
  {
    DistinctWithout(queue, i);
    hide IsList;
    head' := RequestRemove(req, head, queue, i);
  }

  // nameserver_pick.
  method PickFrom(serverHead: Server?, good: int, ghost servers: seq<Server>, ghost flying: set<Request>)
    returns (picked: Server?, head: Server?, ghost servers': seq<Server>)
    requires Serves(serverHead, servers, good) && Loaded(flying, servers)
    ensures Serves(head, servers', good) && Loaded(flying, servers') && (picked == null <==> servers == [])
    ensures (forall s :: s in servers' <==> s in servers) && (servers' == [] <==> servers == [])
    ensures servers != [] ==> picked in servers && picked == InTurn(servers, 0)
    ensures Shifted(servers, servers', 1)
  {
    hide Turned, UpSet, ServerRing, Loaded, InTurn, Ups;
    if serverHead == null {
      assert UpSet(servers) == {} by { NoneUp(); }
      return null, null, servers;
    }
    UpsCount(servers);
    if good == 0 {
      NextIs(servers);
      TurnOfAny(servers);
      servers' := Turned(servers, 1);
      TurnedFine(servers, 1);
      LoadedSame(flying, servers, servers');
      return serverHead.next, serverHead.next, servers';
    }
    SomeUp(servers);
    ghost var k: nat;
    picked, head, k := FirstUp(serverHead, servers);
    servers' := Turned(servers, k + 1);
    TurnOfUp(servers, k);
    TurnedFine(servers, k + 1);
    LoadedSame(flying, servers, servers');
  }

  lemma LoadedSame(flying: set<Request>, servers: seq<Server>, servers': seq<Server>)
    requires Loaded(flying, servers) && forall s :: s in servers' <==> s in servers
    ensures Loaded(flying, servers')
  {
  }

  lemma NoneUp()
    ensures UpSet([]) == {}
  {
  }

  lemma SomeUp(servers: seq<Server>)
    requires UpSet(servers) != {}
    ensures exists j :: 0 <= j < |servers| && servers[j].up
  {
    var s :| s in UpSet(servers);
  }

  lemma NextIs(ss: seq<Server>)
    requires ServerRing(ss) && ss != []
    ensures ss[0].next == After(ss, 0)
  {
  }

  // The loop of nameserver_pick: the first server that is up, and the one after it.
  method FirstUp(head: Server, ghost ss: seq<Server>) returns (picked: Server, next: Server, ghost k: nat)
    requires ServerRing(ss) && ss != [] && head == ss[0] && exists j :: 0 <= j < |ss| && ss[j].up
    ensures k < |ss| && picked == ss[k] && picked.up && next == After(ss, k)
    ensures forall j :: 0 <= j < k ==> !ss[j].up
  {
    next, k := head, 0;
    while true
      invariant k < |ss| && next == ss[k]
      invariant forall j :: 0 <= j < k ==> !ss[j].up
      decreases |ss| - k
    {
      assert ss[k].next == After(ss, k);
      if next.up {
        picked, next := next, next.next;
        return;
      }
      next := next.next;
      if next == head {
        DistinctAt(ss, 0);
        assert false;
      }
      k := k + 1;
    }
  }

  // evdns_request_transmit: whether the packet goes out is up to the socket.
  method Transmit(req: Request, sent: bool)
    modifies req`txCount, req`transmitMe
    ensures req.transmitMe == !(req.ns != null && sent)
    ensures req.txCount == old(req.txCount) + if req.ns != null && sent then 1 else 0
  {
    req.transmitMe := true;
    if req.ns == null {
      return;
    }
    if sent {
      req.txCount := req.txCount + 1;
      req.transmitMe := false;
    }
  }

  function ToSet(rs: seq<Request>): set<Request> {
    set r | r in rs
  }

  lemma PrefixAndRest(q: seq<Request>, n: nat)
    requires n <= |q|
    ensures ToSet(q[..n]) + ToSet(q[n..]) == ToSet(q)
  {
    assert q == q[..n] + q[n..];
  }

  // request_swap_ns: a request goes over to another server.
  method SwapNs(req: Request, ns: Server?, ghost flying: set<Request>, ghost servers: seq<Server>)
    requires Loaded(flying, servers) && req in flying && (ns != null ==> ns in servers)
    modifies req`ns, servers`load
    ensures Loaded(flying, servers) && req.ns == if ns == null then old(req.ns) else ns
  {
    if ns != null && req.ns != ns {
      LoadMoves(req, ns, flying, servers);
      req.ns.load := req.ns.load - 1;
      ns.load := ns.load + 1;
      label before:
      req.ns := ns;
      ghost var was := old(req.ns);
      assert forall r <- flying :: r != req ==> r.ns == old(r.ns);
      forall s | s in servers
        ensures s.load == |Load(flying, s)|
      {
        assert Load(flying, s) == if s == was then old(Load(flying, s)) - {req}
                                  else if s == ns then old(Load(flying, s)) + {req}
                                  else old(Load(flying, s));
      }
    }
  }

  lemma LoadMoves(req: Request, ns: Server, flying: set<Request>, servers: seq<Server>)
    requires Loaded(flying, servers) && req in flying && ns in servers && req.ns != ns
    ensures req.ns != null && req.ns in servers && req in Load(flying, req.ns) && req !in Load(flying, ns)
    ensures req.ns.load > 0
  {
    assert req in Load(flying, req.ns);
    assert |Load(flying, req.ns)| > 0;
  }

  // The first request of a bucket goes to its bucket in another array.
  method MoveFirst(i: nat, heads: seq<Request?>, ghost left: Buckets, heads1: seq<Request?>, ghost done: Buckets)
    returns (heads': seq<Request?>, ghost left': Buckets, heads1': seq<Request?>, ghost done': Buckets)
    requires Flies(heads, left) && Flies(heads1, done) && Flying(left) !! Flying(done)
    requires i < |heads| && heads[i] != null
    modifies Flying(left)`next, Flying(left)`prev, Flying(done)`next, Flying(done)`prev
    ensures Flies(heads', left') && Flies(heads1', done') && |heads'| == |heads| && |heads1'| == |heads1|
    ensures Flying(left') == Flying(left) - {heads[i]} && Flying(done') == Flying(done) + {heads[i]}
    ensures heads[i] in Flying(left)
    ensures forall k :: 0 <= k < |heads| && k != i ==> heads'[k] == heads[k]
  {
    hide Rings, Sorted, Flying;
    HeadIsIn(heads, left, i);
    BucketsAllocated(left);
    BucketsAllocated(done);
    heads', left' := TakeFromBucket(heads[i], heads, left);
    heads1', done' := PutInBucket(heads[i], heads1, done);
  }

  // The loops of evdns_base_set_max_requests_inflight: every request goes to its bucket among n.
  method Rebucket(heads: seq<Request?>, n: nat, ghost buckets: Buckets)
    returns (heads': seq<Request?>, ghost buckets': Buckets)
    requires Flies(heads, buckets) && n > 0
    modifies Flying(buckets)`next, Flying(buckets)`prev
    ensures Flies(heads', buckets') && |heads'| == n && Flying(buckets') == Flying(buckets)
  {
    hide Flies, Flying;
    var oldHeads := heads;
    ghost var left, all := buckets, Flying(buckets);
    heads', buckets' := seq(n, _ => null), NoBuckets(n);
    NothingFlies(n);
    for i := 0 to |heads|
      invariant Flies(oldHeads, left) && Flies(heads', buckets') && |oldHeads| == |heads| && |heads'| == n
      invariant Flying(left) + Flying(buckets') == all && Flying(left) !! Flying(buckets')
      invariant forall k :: 0 <= k < i ==> oldHeads[k] == null
    {
      while oldHeads[i] != null
        invariant Flies(oldHeads, left) && Flies(heads', buckets') && |oldHeads| == |heads| && |heads'| == n
        invariant Flying(left) + Flying(buckets') == all && Flying(left) !! Flying(buckets')
        invariant forall k :: 0 <= k < i ==> oldHeads[k] == null
        decreases |Flying(left)|
      {
        oldHeads, left, heads', buckets' := MoveFirst(i, oldHeads, left, heads', buckets');
      }
    }
    NoneLeft(oldHeads, left);
  }

  lemma NothingFlies(n: nat)
    requires n > 0
    ensures Flies(seq(n, _ => null), NoBuckets(n))
  {
    assert forall k :: 0 <= k < n ==> RingOf(NoBuckets(n), k);
  }

  lemma BucketsAllocated(buckets: Buckets)
    ensures forall r <- Flying(buckets) :: allocated(r)
  {
  }

  lemma HeadIsIn(heads: seq<Request?>, buckets: Buckets, i: nat)
    requires Flies(heads, buckets) && i < |heads| && heads[i] != null
    ensures heads[i] in Flying(buckets) && heads[i].transId % |heads| == i
  {
    InFlying(buckets, i);
    assert heads[i] in buckets[i];
  }

  lemma NoneLeft(heads: seq<Request?>, buckets: Buckets)
    requires Flies(heads, buckets) && forall k :: 0 <= k < |heads| ==> heads[k] == null
    ensures Flying(buckets) == {}
  {
    hide Rings, Sorted;
  }

  // The part of evdns_nameserver_add_impl_ that puts a new server in: it comes second, and is
  // thought to be up.
  method AddUp(ns: Server, serverHead: Server?, good: int, ghost servers: seq<Server>, ghost flying: set<Request>)
    returns (head: Server, good': int, ghost servers': seq<Server>)
    requires Serves(serverHead, servers, good) && Loaded(flying, servers)
    requires ns !in servers && ns.up && ns.load == 0
    modifies ns`next, ns`prev, servers`next, servers`prev
    ensures Serves(head, servers', good') && Loaded(flying, servers') && good' == good + 1
    ensures servers' == WithSecond(ns, servers)
  {
    hide ServerRing, UpSet, Loaded;
    NewServer(ns, servers, flying);
    head, servers' := ServerInsert(ns, serverHead, servers);
    good' := good + 1;
  }

  function WithSecond(ns: Server, servers: seq<Server>): seq<Server> {
    if servers == [] then [ns] else [servers[0], ns] + servers[1..]
  }

  lemma NewServer(ns: Server, servers: seq<Server>, flying: set<Request>)
    requires Loaded(flying, servers) && ns !in servers && ns.up && ns.load == 0
    ensures |UpSet(WithSecond(ns, servers))| == |UpSet(servers)| + 1 && Loaded(flying, WithSecond(ns, servers))
  {
    var ts := WithSecond(ns, servers);
    assert servers != [] ==> servers == [servers[0]] + servers[1..];
    assert forall s :: s in ts <==> s in servers || s == ns;
    assert UpSet(ts) == UpSet(servers) + {ns} && ns !in UpSet(servers);
    assert Load(flying, ns) == {};
  }

  lemma OneLessUp(ns: Server, servers: seq<Server>)
    ensures UpSet(servers) - {ns} <= UpSet(servers)
    ensures ns in servers && ns.up ==> |UpSet(servers)| - 1 == |UpSet(servers) - {ns}|
    ensures ns in servers && !ns.up ==> |UpSet(servers)| + 1 == |UpSet(servers) + {ns}|
  {
    assert ns in servers && ns.up ==> ns in UpSet(servers);
  }

  // A server changes its state, and the counter of good servers follows.
  method SetUp(ns: Server, up: bool, serverHead: Server?, good: int, ghost servers: seq<Server>) returns (good': int)
    requires Serves(serverHead, servers, good) && ns in servers && ns.up != up
    modifies ns`up
    ensures Serves(serverHead, servers, good') && good' == good + (if up then 1 else -1) && ns.up == up
  {
    OneLessUp(ns, servers);
    ns.up := up;
    good' := good + if up then 1 else -1;
    assert UpSet(servers) == if up then old(UpSet(servers)) + {ns} else old(UpSet(servers)) - {ns};
  }

  lemma Within(a: seq<Server>, b: seq<Server>, c: seq<Server>)
    requires (forall s :: s in a <==> s in b) && (forall s :: s in b <==> s in c)
    ensures forall x :: 0 <= x < |a| ==> a[x] in a && a[x] in c
  {
  }

  // struct evdns_base.
  class EvdnsBase {
    var heads: seq<Request?>
    var waitingHead: Request?
    var serverHead: Server?
    var inflight: int
    var waiting: int
    var maxInflight: int
    var good: int
    ghost var buckets: Buckets
    ghost var queue: seq<Request>
    // From the server on that is tried next.
    ghost var servers: seq<Server>

    ghost predicate Valid()
      reads this, Flying(buckets)`next, Flying(buckets)`prev, Flying(buckets)`transId, Flying(buckets)`ns,
            queue`next, queue`prev, queue`ns, servers`next, servers`prev, servers`up, servers`load
    {
      && Flies(heads, buckets) && Waits(waitingHead, queue) && Serves(serverHead, servers, good)
      && Loaded(Flying(buckets), servers) && Unique(Flying(buckets))
      && inflight == |Flying(buckets)| && waiting == |queue|
    }

    // All requests there are.
    ghost function Live(): set<Request>
      reads this
    {
      Flying(buckets) + ToSet(queue)
    }

    // Nobody waits for nothing.
    ghost predicate Settled()
      reads this
    {
      waiting == 0 || inflight >= maxInflight || servers == []
    }

    lemma InMemory()
      requires Valid()
      ensures forall r <- queue :: r !in Flying(buckets)
      ensures forall r <- Flying(buckets) :: allocated(r)
      ensures (forall r <- queue :: allocated(r)) && (forall s <- servers :: allocated(s))
    {
      hide Flies, Serves;
    }

    constructor ()
      ensures Valid() && Live() == {} && servers == [] && fresh(Live()) && inflight == waiting == 0 && maxInflight == 1
    {
      heads, buckets := [null], NoBuckets(1);
      waitingHead, serverHead, queue, servers := null, null, [], [];
      inflight, waiting, maxInflight, good := 0, 0, 1, 0;
      new;
      assert forall k :: 0 <= k < |buckets| ==> RingOf(buckets, k);
    }

    // nameserver_pick.
    method Pick() returns (picked: Server?)
      requires Valid()
      modifies this`serverHead, this`servers
      ensures Valid() && (picked == null <==> servers == []) && (picked != null ==> picked in servers)
      ensures old(servers) != [] ==> picked == InTurn(old(servers), 0)
      ensures Shifted(old(servers), servers, 1) && forall s :: s in servers <==> s in old(servers)
    {
      hide Flies, Waits, Serves, Flying, Loaded, InTurn, Shifted, Unique;
      InMemory();
      picked, serverHead, servers := PickFrom(serverHead, good, servers, Flying(buckets));
    }

    // Whose turn it is, while some server is up or none.
    lemma Turns(i: nat)
      requires Valid() && servers != []
      ensures InTurn(servers, i) in servers && (InTurn(servers, i).up <==> good > 0)
    {
      hide Flies, Waits, Loaded, Unique, InTurn;
      TurnIn(servers, i);
      UpsCount(servers);
      NoneUps(servers);
    }

    // transaction_id_pick: a number that no request under way has. If all are taken the loop of the code does
    // not end, for which no number is answered here.
    method TransactionIdPick() returns (transId: nat, found: bool)
      requires Valid()
      ensures found <==> inflight != NO_ID
      ensures found ==> transId < NO_ID && Free(Flying(buckets), transId)
      ensures inflight <= NO_ID
    {
      hide EvdnsBase.Valid, Flying, Free;
      IdsLeft();
      var start :| 0 <= start <= NO_ID;
      var k := 0;
      while k <= NO_ID
        invariant Valid() && 0 <= k <= NO_ID + 1
        invariant forall id :: 0 <= id < NO_ID && (start <= id < start + k || id + NO_ID + 1 < start + k) ==> !Free(Flying(buckets), id)
      {
        transId := if start + k <= NO_ID then start + k else start + k - NO_ID - 1;
        if transId != NO_ID {
          InMemory();
          label before:
          var req := FindFromTransId(transId);
          StillValid@before();
          FoundOrFree(req, transId);
          if req == null {
            IdsLeft();
            return transId, true;
          }
        }
        k := k + 1;
      }
      IdsLeft();
      transId, found := 0, false;
    }

    // What does not change the base and what is in it keeps it valid.
    twostate lemma StillValid()
      requires old(Valid()) && unchanged(this)
      requires (forall r <- Flying(buckets) :: unchanged(r)) && (forall i :: 0 <= i < |queue| ==> unchanged(queue[i]))
      requires forall i :: 0 <= i < |servers| ==> unchanged(servers[i])
      ensures Valid() && forall id: nat :: Free(Flying(buckets), id) == old(Free(Flying(buckets), id))
    {
      hide Flies, Waits, Serves, Loaded, Unique, Flying, Free;
    }

    lemma FoundOrFree(req: Request?, transId: nat)
      requires if req == null then forall r <- Flying(buckets) :: r.transId != transId
               else req in Flying(buckets) && req.transId == transId
      ensures Free(Flying(buckets), transId) <==> req == null
    {
      hide Flying;
    }

    lemma IdsLeft()
      requires Valid()
      ensures inflight <= NO_ID
      ensures inflight == NO_ID <==> forall id :: 0 <= id < NO_ID ==> !Free(Flying(buckets), id)
    {
      hide Flies, Waits, Serves, Loaded, Flying, Unique;
      IdsTaken(Flying(buckets));
    }

    // A request with a server joins those under way, or leaves them.
    method StartFlying(req: Request)
      requires Valid() && req !in Flying(buckets) && req !in queue && req.ns != null && req.ns in servers
      requires req.transId < NO_ID && Free(Flying(buckets), req.transId)
      modifies this`heads, this`buckets, this`inflight, req`next, req`prev, Flying(buckets)`next, Flying(buckets)`prev,
               req.ns`load
      ensures Valid() && Flying(buckets) == old(Flying(buckets)) + {req}
    {
      hide Flies, Serves, Loaded, Flying, Waits, Unique;
      InMemory();
      UniqueMore(Flying(buckets), req);
      ghost var flying := Flying(buckets);
      heads, buckets := Launch(req, heads, buckets, servers);
      inflight := inflight + 1;
      assert Flies(heads, buckets);
      assert Waits(waitingHead, queue);
      assert Serves(serverHead, servers, good);
      assert Loaded(Flying(buckets), servers);
      assert Flying(buckets) == flying + {req};
      assert Unique(flying + {req});
      assert |flying + {req}| == |flying| + 1;
    }

    method StopFlying(req: Request)
      requires Valid() && req in Flying(buckets)
      modifies this`heads, this`buckets, this`inflight, Flying(buckets)`next, Flying(buckets)`prev, servers`load
      ensures Valid() && Flying(buckets) == old(Flying(buckets)) - {req}
    {
      hide Flies, Serves, Loaded, Flying, Waits, Unique;
      InMemory();
      UniqueLess(Flying(buckets), req);
      heads, buckets := Land(req, heads, buckets, servers);
      inflight := inflight - 1;
    }

    method PutWaiting(req: Request)
      requires Valid() && req !in Flying(buckets) && req !in queue && req.ns == null
      modifies this`waitingHead, this`queue, this`waiting, req`next, req`prev, queue`next, queue`prev
      ensures Valid() && queue == old(queue) + [req]
    {
      hide Flies, Serves, Loaded, Flying, Waits;
      InMemory();
      waitingHead := Enqueue(req, waitingHead, queue);
      queue := queue + [req];
      waiting := waiting + 1;
    }

    method TakeWaiting(req: Request, ghost i: nat)
      requires Valid() && i < |queue| && queue[i] == req
      modifies this`waitingHead, this`queue, this`waiting, queue`next, queue`prev
      ensures Valid() && queue == WithoutAt(old(queue), i) && req !in queue && waiting == old(waiting) - 1
    {
      hide Flies, Serves, Loaded, Flying, Waits;
      InMemory();
      waitingHead := Dequeue(req, waitingHead, queue, i);
      queue := WithoutAt(queue, i);
      waiting := waiting - 1;
    }

    method SendOff(req: Request, ns: Server, transId: nat)
      requires Valid() && req !in Flying(buckets) && req !in queue && ns in servers
      requires transId < NO_ID && Free(Flying(buckets), transId)
      modifies this`heads, this`buckets, this`inflight, req`next, req`prev, req`ns, req`transId,
               Flying(buckets)`next, Flying(buckets)`prev, ns`load
      ensures Valid() && Flying(buckets) == old(Flying(buckets)) + {req} && req.ns == ns && req.transId == transId
      ensures inflight == old(inflight) + 1
    {
      hide Flies, Serves, Loaded, Flying, Waits, Unique, Free;
      InMemory();
      heads, buckets := Assign(req, ns, transId, heads, buckets, servers);
      inflight := inflight + 1;
    }

    // evdns_requests_pump_waiting_queue: the requests that have waited longest are sent off, n of
    // them, until as many are under way as may be, or have all transaction ids. Each goes to the server whose
    // turn it is.
    method Pump() returns (ghost n: nat)
      requires Valid()
      modifies this`heads, this`waitingHead, this`serverHead, this`inflight, this`waiting, this`buckets, this`queue,
               this`servers, Flying(buckets)`next, Flying(buckets)`prev, queue, servers`load
      ensures Valid() && (Settled() || inflight == NO_ID) && n <= |old(queue)|
      ensures queue == old(queue)[n..] && Flying(buckets) == old(Flying(buckets)) + ToSet(old(queue)[..n])
      ensures Shifted(old(servers), servers, n) && forall s :: s in servers <==> s in old(servers)
      ensures SentInTurn(old(queue)[..n], old(servers)) && (n > 0 ==> inflight <= maxInflight)
      ensures Live() == old(Live())
    {
      hide EvdnsBase.Valid, EvdnsBase.Pumped, Flying, ToSet;
      ghost var q, flying, ss := queue, Flying(buckets), servers;
      n := 0;
      CountsWaiting();
      PumpStarts();
      while inflight < maxInflight && waiting != 0
        invariant Pumped(q, n, flying, ss) && (n > 0 ==> inflight <= maxInflight)
        decreases waiting
      {
        PumpedIs(q, n, flying, ss);
        var ok := PumpStep(q, n, flying, ss);
        if !ok {
          break;
        }
        n := n + 1;
      }
      PumpedIs(q, n, flying, ss);
      PrefixAndRest(q, n);
    }

    // The first n of those that waited were sent off.
    ghost predicate Pumped(q: seq<Request>, n: nat, flying: set<Request>, ss: seq<Server>)
      reads this, Flying(buckets)`next, Flying(buckets)`prev, Flying(buckets)`transId, Flying(buckets)`ns,
            queue`next, queue`prev, queue`ns, servers`next, servers`prev, servers`up, servers`load, q`ns, ss`up
    {
      && n <= |q| && Distinct(q) && queue == q[n..] && Flying(buckets) == flying + ToSet(q[..n])
      && Shifted(ss, servers, n) && SentInTurn(q[..n], ss)
      && (forall s <- servers :: s in ss) && (forall s <- ss :: s in servers) && Valid()
    }

    lemma PumpStarts()
      requires Valid()
      ensures Pumped(queue, 0, Flying(buckets), servers)
    {
      hide EvdnsBase.Valid, Flying, Shifted, SentInTurn, Distinct;
      QueueDistinct();
      ShiftedNone(servers);
      NobodySent(servers);
      assert queue[..0] == [] && queue[0..] == queue;
    }

    lemma PumpedIs(q: seq<Request>, n: nat, flying: set<Request>, ss: seq<Server>)
      requires Pumped(q, n, flying, ss)
      ensures Valid() && n <= |q| && queue == q[n..] && Flying(buckets) == flying + ToSet(q[..n]) && waiting == |queue|
      ensures Shifted(ss, servers, n) && SentInTurn(q[..n], ss) && forall s :: s in servers <==> s in ss
    {
      hide EvdnsBase.Valid, Flying, Shifted, SentInTurn;
      CountsWaiting();
    }

    lemma PumpedWithin(q: seq<Request>, n: nat, flying: set<Request>, ss: seq<Server>)
      requires Pumped(q, n, flying, ss)
      ensures (forall r <- queue :: r in q) && forall i :: 0 <= i < |queue| ==> queue[i] in q && queue[i] == q[n + i]
      ensures forall r <- Flying(buckets) :: r in flying || r in q
      ensures forall i :: 0 <= i < |servers| ==> servers[i] in ss
      ensures forall i :: 0 <= i < |q| && i != n ==> n < |q| ==> q[i] != q[n]
    {
      hide EvdnsBase.Valid, Flying, Shifted, SentInTurn;
      assert forall i :: 0 <= i < |servers| ==> servers[i] in servers;
    }

    // One turn of the loop, for the n-th request.
    method PumpStep(ghost q: seq<Request>, ghost n: nat, ghost flying: set<Request>, ghost ss: seq<Server>) returns (ok: bool)
      requires Pumped(q, n, flying, ss) && waiting > 0
      modifies this`heads, this`waitingHead, this`serverHead, this`inflight, this`waiting, this`buckets, this`queue,
               this`servers, flying`next, flying`prev, q, ss`load
      ensures ok ==> Pumped(q, n + 1, flying, ss) && inflight == old(inflight) + 1 && waiting == old(waiting) - 1
      ensures !ok ==> Pumped(q, n, flying, ss) && (servers == [] || inflight == NO_ID) && inflight == old(inflight)
    {
      hide EvdnsBase.Valid, Flying, InTurn, Shifted, SentInTurn, Distinct, ToSet;
      PumpedWithin(q, n, flying, ss);
      CountsWaiting();
      ghost var ts := servers;
      ok := PumpOne();
      if ok {
        ShiftedMore(ss, ts, servers, n, 1);
        SentMore(q[..n], q[n], ss, ts);
        OneMoreOff(q, n);
      }
    }

    lemma OneMoreOff(q: seq<Request>, n: nat)
      requires n < |q|
      ensures q[..n + 1] == q[..n] + [q[n]] && q[n..][1..] == q[n + 1..] && q[n..][0] == q[n]
      ensures ToSet(q[..n + 1]) == ToSet(q[..n]) + {q[n]}
    {
      assert q[..n + 1] == q[..n] + [q[n]];
    }

    lemma NobodySent(ss: seq<Server>)
      ensures SentInTurn([], ss)
    {
    }

    lemma SentMore(rs: seq<Request>, r: Request, ss: seq<Server>, ts: seq<Server>)
      requires SentInTurn(rs, ss) && ts != [] && Shifted(ss, ts, |rs|) && r.ns == InTurn(ts, 0)
      ensures SentInTurn(rs + [r], ss)
    {
      hide InTurn;
    }

    // One turn of the loop. (In the code the transaction id is picked last.)
    method PumpOne() returns (ok: bool)
      requires Valid() && waiting > 0
      modifies this`heads, this`waitingHead, this`serverHead, this`inflight, this`waiting, this`buckets, this`queue,
               this`servers, Flying(buckets)`next, Flying(buckets)`prev, queue`next, queue`prev, servers`load
      modifies (if queue == [] then {} else {queue[0]})
      ensures Valid() && forall s :: s in servers <==> s in old(servers)
      ensures ok <==> old(servers) != [] && old(inflight) != NO_ID
      ensures ok ==> queue == old(queue)[1..] && Flying(buckets) == old(Flying(buckets)) + {old(queue)[0]}
      ensures ok ==> inflight == old(inflight) + 1 && waiting == old(waiting) - 1
      ensures ok ==> old(queue)[0].ns == InTurn(old(servers), 0) && Shifted(old(servers), servers, 1)
      ensures !ok ==> queue == old(queue) && buckets == old(buckets) && inflight == old(inflight) && servers == old(servers)
    {
      hide EvdnsBase.Valid, Flying, Free, InTurn, Shifted;
      var req := waitingHead;
      FirstWaits();
      InMemory();
      assert req in queue && req !in Flying(buckets);
      var transId, found := TransactionIdPick();
      if !found {
        return false;
      }
      var ns := Pick();
      if ns == null {
        NoTurns(old(servers), servers);
        return false;
      }
      TakeWaiting(req, 0);
      SendOff(req, ns, transId);
      var sent := *;
      Transmit(req, sent);
      ok := true;
    }

    lemma NoTurns(ss: seq<Server>, ts: seq<Server>)
      requires ts == [] && Shifted(ss, ts, 1)
      ensures ss == []
    {
    }

    lemma ShiftedAt(ss: seq<Server>, ts: seq<Server>, n: nat)
      requires ss != [] && Shifted(ss, ts, n)
      ensures ts != [] && InTurn(ts, 0) == InTurn(ss, n)
    {
      hide InTurn;
    }

    lemma QueueDistinct()
      requires Valid()
      ensures Distinct(queue)
    {
      hide Flies, Serves, Loaded, Unique;
    }

    lemma CountsWaiting()
      requires Valid()
      ensures waiting == |queue|
    {
      hide Flies, Serves, Loaded, Waits;
    }

    lemma FirstWaits()
      requires Valid() && waiting > 0
      ensures queue != [] && waitingHead != null && waitingHead == queue[0]
    {
      hide Flies, Serves, Loaded;
    }

    // request_submit.
    method Submit(req: Request)
      requires Valid() && req !in Live()
      requires req.ns != null ==> req.ns in servers && req.transId < NO_ID && Free(Flying(buckets), req.transId)
      modifies this`heads, this`waitingHead, this`inflight, this`waiting, this`buckets, this`queue,
               req`next, req`prev, req`txCount, req`transmitMe, Flying(buckets)`next, Flying(buckets)`prev,
               queue`next, queue`prev, servers`load
      ensures Valid() && Live() == old(Live()) + {req}
      ensures if req.ns != null then Flying(buckets) == old(Flying(buckets)) + {req} && queue == old(queue)
              else buckets == old(buckets) && queue == old(queue) + [req]
    {
      hide EvdnsBase.Valid, Flying, Free;
      InMemory();
      if req.ns != null {
        StartFlying(req);
        InMemory();
        var sent := *;
        Transmit(req, sent);
      } else {
        PutWaiting(req);
        assert ToSet(queue) == ToSet(old(queue)) + {req};
      }
    }

    // request_finished: the request is gone, and those that wait longest take its place.
    method Finished(req: Request) returns (ghost n: nat, ghost i: nat)
      requires Valid() && req in Live()
      modifies this`heads, this`waitingHead, this`serverHead, this`inflight, this`waiting, this`buckets, this`queue,
               this`servers, Flying(buckets)`next, Flying(buckets)`prev, queue, servers`load
      ensures Valid() && (Settled() || inflight == NO_ID) && Live() == old(Live()) - {req}
      ensures forall s :: s in servers <==> s in old(servers)
      ensures old(req.ns) == null ==> i < |old(queue)| && old(queue)[i] == req
      ensures var q := if old(req.ns) != null then old(queue) else WithoutAt(old(queue), i);
              && n <= |q| && queue == q[n..]
              && Flying(buckets) == old(Flying(buckets)) - (if old(req.ns) != null then {req} else {}) + ToSet(q[..n])
              && (n > 0 ==> inflight <= maxInflight)
              && SentInTurn(q[..n], old(servers)) && Shifted(old(servers), servers, n)
    {
      hide EvdnsBase.Valid, Flying, InTurn, Shifted, SentInTurn;
      i := 0;
      InMemory();
      WhichQueue(req);
      if req.ns != null {
        StopFlying(req);
      } else {
        i :| 0 <= i < |queue| && queue[i] == req;
        TakeWaiting(req, i);
      }
      n := Pump();
    }

    // A request has a server exactly if it is under way.
    lemma WhichQueue(req: Request)
      requires Valid() && req in Live()
      ensures if req.ns != null then req in Flying(buckets) else req in queue && req !in Flying(buckets)
    {
      hide Flies, Serves;
    }

    // request_swap_ns.
    method Swap(req: Request, ns: Server?)
      requires Valid() && req in Flying(buckets) && (ns != null ==> ns in servers)
      modifies req`ns, servers`load
      ensures Valid() && req.ns == if ns == null then old(req.ns) else ns
    {
      hide Flies, Serves, Loaded, Flying, Waits;
      InMemory();
      SwapNs(req, ns, Flying(buckets), servers);
    }

    // request_reissue: the request goes to another server, or it is pointless.
    method Reissue(req: Request) returns (r: int)
      requires Valid() && req in Flying(buckets)
      modifies this`serverHead, this`servers, req`ns, req`reissueCount, req`txCount, req`transmitMe, servers`load
      ensures Valid() && old(servers) != [] && req.ns == InTurn(old(servers), 0)
      ensures r == (if req.ns == old(req.ns) then 1 else 0) && (req.ns.up <==> good > 0)
      ensures r == 1 ==> req.txCount == old(req.txCount) && req.reissueCount == old(req.reissueCount)
      ensures r == 0 ==> req.txCount == 0 && req.transmitMe && req.reissueCount == old(req.reissueCount) + 1
      ensures Shifted(old(servers), servers, 1) && forall s :: s in servers <==> s in old(servers)
    {
      hide EvdnsBase.Valid, Flying, InTurn, Shifted;
      InMemory();
      HasServer(req);
      Turns(0);
      var lastNs := req.ns;
      var ns := Pick();
      assert forall i :: 0 <= i < |servers| ==> servers[i] in servers && servers[i] in old(servers);
      Swap(req, ns);
      if req.ns == lastNs {
        return 1;
      }
      req.reissueCount := req.reissueCount + 1;
      req.txCount := 0;
      req.transmitMe := true;
      return 0;
    }

    // What is known of a bucket while its list is walked.
    lemma RingAt(k: nat, j: nat)
      requires Valid() && k < |buckets| && j < |buckets[k]|
      ensures |heads| == |buckets| && heads[k] == buckets[k][0]
      ensures buckets[k][j].next == After(buckets[k], j) && buckets[k][j] in Flying(buckets) && Distinct(buckets[k])
    {
      hide Waits, Serves, Loaded;
      InFlying(buckets, k);
      assert RingOf(buckets, k);
    }

    lemma BucketHead(k: nat)
      requires Valid()
      ensures |heads| == |buckets| && (k < |buckets| ==> (heads[k] == null <==> buckets[k] == []))
    {
      hide Waits, Serves, Loaded;
    }

    method MarkServer(ns: Server, up: bool)
      requires Valid() && ns in servers && ns.up != up
      modifies this`good, ns`up
      ensures Valid() && ns.up == up && good == old(good) + (if up then 1 else -1)
    {
      hide Flies, Serves, Loaded, Flying, Waits, Unique;
      InMemory();
      good := SetUp(ns, up, serverHead, good, servers);
    }

    lemma CountsUp()
      requires Valid()
      ensures good >= 0
    {
      hide Flies, Waits, Loaded;
    }

    lemma BucketsApart()
      requires Valid()
      ensures Unshared(buckets)
    {
      hide Waits, Serves, Loaded;
      SortedApart(buckets);
    }

    // The part of nameserver_failed for one bucket.
    method RescueBucket(ns: Server, i: nat)
      requires Valid() && good > 0 && !ns.up && ns in servers && i < |buckets| && buckets[i] != []
      modifies this`serverHead, this`servers, buckets[i]`ns, servers`load
      ensures Valid() && forall s :: s in servers <==> s in old(servers)
      ensures var us := old(Unsent(buckets[i], ns));
              && SentInTurn(us, old(servers)) && Shifted(old(servers), servers, |us|)
              && forall r <- buckets[i] :: r !in us ==> r.ns == old(r.ns)
    {
      hide EvdnsBase.Valid, Flying, InTurn, Shifted, Unsent, SentInTurn;
      RingAt(i, 0);
      ghost var b, ss := buckets[i], servers;
      ghost var us: seq<Request> := [];
      var req := heads[i];
      ghost var j := 0;
      UnsentSteps(b, ns);
      ShiftedNone(servers);
      NobodySent(servers);
      while true
        invariant Valid() && (forall s :: s in servers <==> s in ss) && j < |b| && req == b[j]
        invariant us == old(Unsent(b[..j], ns)) && Shifted(ss, servers, |us|) && SentInTurn(us, ss)
        invariant forall x :: 0 <= x < j && b[x] !in us ==> b[x].ns == old(b[x].ns)
        invariant forall x :: j <= x < |b| ==> b[x] !in us && b[x].ns == old(b[x].ns)
        decreases |b| - j
      {
        RingAt(i, j);
        DistinctAt(b, j);
        assert old(Unsent(b[..j + 1], ns)) == us + if req.txCount == 0 && req.ns == ns then [req] else [];
        if req.txCount == 0 && req.ns == ns {
          ghost var ts := servers;
          InMemory();
          var s := Pick();
          Within(servers, ts, old(servers));
          ShiftedMore(ss, ts, servers, |us|, 1);
          assert forall x :: 0 <= x < |us| ==> us[x] in us && us[x] != req;
          Swap(req, s);
          SentMore(us, req, ss, ts);
          us := us + [req];
        } else {
          assert us + [] == us;
        }
        RingAt(i, j);
        DistinctAt(b, 0);
        req := req.next;
        if req == heads[i] {
          assert b[..j + 1] == b;
          break;
        }
        j := j + 1;
      }
    }

    lemma UnsentSteps(b: seq<Request>, ns: Server)
      ensures Unsent(b[..0], ns) == []
      ensures forall j :: 0 <= j < |b| ==>
                Unsent(b[..j + 1], ns) == Unsent(b[..j], ns) + if b[j].txCount == 0 && b[j].ns == ns then [b[j]] else []
    {
      forall j | 0 <= j < |b|
        ensures Unsent(b[..j + 1], ns) == Unsent(b[..j], ns) + if b[j].txCount == 0 && b[j].ns == ns then [b[j]] else []
      {
        UnsentMore(b, j, ns);
      }
    }

    // The requests of the first i buckets that had not gone out went over, and no other one.
    ghost predicate RescuedTo(bs: Buckets, i: nat, us: seq<Request>, ss: seq<Server>)
      reads this, Flying(buckets)`next, Flying(buckets)`prev, Flying(buckets)`transId, Flying(buckets)`ns,
            queue`next, queue`prev, queue`ns, servers`next, servers`prev, servers`up, servers`load, us`ns, ss`up
    {
      && buckets == bs && i <= |bs| && good > 0 && (forall s <- servers :: s in ss) && (forall s <- ss :: s in servers)
      && Shifted(ss, servers, |us|) && SentInTurn(us, ss) && (forall r <- us :: r in Flying(bs[..i])) && Valid()
    }

    // One turn of the outer loop of nameserver_failed.
    method RescueNext(ns: Server, i: nat, ghost us: seq<Request>, ghost ss: seq<Server>)
      requires RescuedTo(buckets, i, us, ss) && i < |buckets| && !ns.up && ns in servers
      modifies this`serverHead, this`servers, buckets[i]`ns, ss`load
      ensures var more := old(Unsent(buckets[i], ns));
              && RescuedTo(buckets, i + 1, us + more, ss) && forall r <- buckets[i] :: r !in more ==> r.ns == old(r.ns)
    {
      hide EvdnsBase.Valid, Flying, InTurn, Shifted, Unsent, SentInTurn;
      ghost var bs := buckets;
      ghost var more := Unsent(bs[i], ns);
      UnsentIs(bs[i], ns);
      BucketsApart();
      BucketHead(i);
      NotBefore(bs, i);
      assert forall r <- us :: r in Flying(bs[..i]) && r in Flying(bs[..i + 1]);
      UnsentIn(bs[i], ns);
      assert forall k :: 0 <= k < |more| ==> more[k] in bs[i] && more[k] in Flying(bs[..i + 1]);
      InMemory();
      InFlying(bs, i);
      assert forall x :: 0 <= x < |servers| ==> servers[x] in servers && servers[x] in ss;
      if heads[i] != null {
        assert forall x :: 0 <= x < |us| ==> us[x] in us && us[x] !in bs[i];
        ghost var ts := servers;
        RescueBucket(ns, i);
        ShiftedMore(ss, ts, servers, |us|, |more|);
        SentJoin(us, more, ss, ts);
      } else {
        NoneUnsent(ns);
        assert us + [] == us;
      }
      assert forall r <- us + more :: r in us || r in more;
      assert forall r <- us + more :: r in Flying(bs[..i + 1]);
    }

    // The loops of nameserver_failed.
    method RescueAll(ns: Server)
      requires Valid() && good > 0 && !ns.up && ns in servers
      modifies this`serverHead, this`servers, Flying(buckets)`ns, servers`load
      ensures Valid() && forall s :: s in servers <==> s in old(servers)
      ensures var us := old(AllUnsent(buckets, ns));
              && SentInTurn(us, old(servers)) && Shifted(old(servers), servers, |us|)
              && forall r <- Flying(buckets) :: r !in us ==> r.ns == old(r.ns)
    {
      hide EvdnsBase.Valid, EvdnsBase.RescuedTo, InTurn, Shifted, AllUnsent, Unsent, SentInTurn;
      ghost var bs, ss := buckets, servers;
      ghost var us: seq<Request> := [];
      InMemory();
      AllUnsentSteps(bs, ns);
      BucketsApart();
      BucketHead(0);
      RescueStarts();
      for i := 0 to |heads|
        invariant buckets == bs && |heads| == |bs| && RescuedTo(bs, i, us, ss) && !ns.up && us == old(AllUnsent(bs[..i], ns))
        invariant forall k, r: Request {:trigger r in bs[k]} :: 0 <= k < i && r in bs[k] && r !in us ==> r.ns == old(r.ns)
        invariant forall k, r: Request {:trigger r in bs[k]} :: i <= k < |bs| && r in bs[k] ==> r.ns == old(r.ns)
      {
        RescuedIs(bs, i, us, ss);
        InFlying(bs, i);
        SameUnsent((bs[i], ns));
        ghost var more := Unsent(bs[i], ns);
        assert forall k, r: Request {:trigger r in bs[k]} :: i < k < |bs| && r in bs[k] ==> r !in bs[i];
        RescueNext(ns, i, us, ss);
        us := us + more;
      }
      RescuedIs(bs, |bs|, us, ss);
      assert bs[..|bs|] == bs;
    }

    lemma RescueStarts()
      requires Valid() && good > 0
      ensures RescuedTo(buckets, 0, [], servers)
    {
      hide EvdnsBase.Valid, Flying, Shifted, SentInTurn;
      ShiftedNone(servers);
      NobodySent(servers);
    }

    lemma RescuedIs(bs: Buckets, i: nat, us: seq<Request>, ss: seq<Server>)
      requires RescuedTo(bs, i, us, ss)
      ensures Valid() && buckets == bs && |heads| == |bs| && Shifted(ss, servers, |us|) && SentInTurn(us, ss)
      ensures forall s :: s in servers <==> s in ss
    {
      hide EvdnsBase.Valid, Flying, Shifted, SentInTurn;
      BucketHead(0);
    }

    lemma NotBefore(bs: Buckets, i: nat)
      requires Unshared(bs) && i < |bs|
      ensures forall r <- bs[i] :: r !in Flying(bs[..i])
      ensures forall r <- bs[i] :: r in Flying(bs[..i + 1])
      ensures Flying(bs[..i]) <= Flying(bs[..i + 1])
    {
      forall r | r in Flying(bs[..i])
        ensures r in Flying(bs[..i + 1])
      {
        var k :| 0 <= k < i && r in bs[..i][k];
        assert r in bs[..i + 1][k];
      }
      assert forall r <- bs[i] :: r in bs[..i + 1][i];
    }

    lemma SentJoin(us: seq<Request>, more: seq<Request>, ss: seq<Server>, ts: seq<Server>)
      requires SentInTurn(us, ss) && Shifted(ss, ts, |us|) && SentInTurn(more, ts)
      ensures SentInTurn(us + more, ss)
    {
      hide InTurn;
    }

    // nameserver_failed: if another server is up, the requests that were not sent yet go over to those whose
    // turn it is, bucket by bucket.
    method Failed(ns: Server)
      requires Valid() && ns in servers
      modifies this`serverHead, this`servers, this`good, ns`up, Flying(buckets)`ns, servers`load
      ensures !ns.up && forall s :: s in servers <==> s in old(servers)
      ensures good == old(good) - if old(ns.up) then 1 else 0
      ensures if old(ns.up) && good > 0 then
                var us := old(AllUnsent(buckets, ns));
                && SentInTurn(us, old(servers)) && (forall i :: 0 <= i < |us| ==> us[i].ns != null && us[i].ns.up)
                && Shifted(old(servers), servers, |us|)
                && forall r <- Flying(buckets) :: r !in us ==> r.ns == old(r.ns)
              else servers == old(servers) && forall r <- Flying(buckets) :: r.ns == old(r.ns)
      ensures Valid()
    {
      hide EvdnsBase.Valid, Flying, InTurn, Shifted, AllUnsent, SentInTurn;
      if !ns.up {
        return;
      }
      InMemory();
      ghost var ss := servers;
      MarkServer(ns, false);
      CountsUp();
      if good == 0 {
        return;
      }
      RescueAll(ns);
      SomeServerUp(ss);
      SentUp(old(AllUnsent(buckets, ns)), ss);
    }

    lemma SentUp(us: seq<Request>, ss: seq<Server>)
      requires SentInTurn(us, ss) && exists j :: 0 <= j < |ss| && ss[j].up
      ensures forall i :: 0 <= i < |us| ==> us[i].ns != null && us[i].ns.up
    {
      hide InTurn;
      forall i | 0 <= i < |us|
        ensures us[i].ns != null && us[i].ns.up
      {
        TurnIn(ss, i);
      }
    }

    lemma SomeServerUp(ss: seq<Server>)
      requires Valid() && good > 0 && forall s <- servers :: s in ss
      ensures exists j :: 0 <= j < |ss| && ss[j].up
    {
      hide Flies, Waits, Loaded, Unique;
      UpsCount(servers);
      NoneUps(servers);
      var j :| 0 <= j < |servers| && servers[j].up;
      assert servers[j] in servers;
    }

    lemma AllUnsentSteps(bs: Buckets, ns: Server)
      ensures AllUnsent(bs[..0], ns) == []
      ensures forall k :: 0 <= k < |bs| ==>
                AllUnsent(bs[..k + 1], ns) == AllUnsent(bs[..k], ns) + Unsent(bs[k], ns)
      ensures forall k :: 0 <= k < |bs| && bs[k] == [] ==> Unsent(bs[k], ns) == []
    {
      hide AllUnsent, Unsent;
      NoneUnsent(ns);
      forall k | 0 <= k < |bs|
        ensures AllUnsent(bs[..k + 1], ns) == AllUnsent(bs[..k], ns) + Unsent(bs[k], ns)
      {
        AllUnsentMore(bs, k, ns);
      }
    }

    lemma NoneUnsent(ns: Server)
      ensures AllUnsent([], ns) == [] && Unsent([], ns) == []
    {
    }

    twostate lemma SameUnsent(one: (seq<Request>, Server))
      requires forall r <- one.0 :: r.ns == old(r.ns) && r.txCount == old(r.txCount)
      ensures Unsent(one.0, one.1) == old(Unsent(one.0, one.1))
      decreases |one.0|
    {
      var (b, ns) := one;
      if b != [] {
        SameUnsent((b[..|b| - 1], ns));
      }
    }

    lemma AllInBuckets()
      ensures forall r <- Flying(buckets) :: exists k :: 0 <= k < |buckets| && r in buckets[k]
    {
    }

    lemma SortedAt(transId: nat)
      requires Valid()
      ensures forall r <- Flying(buckets) :: r.transId == transId ==> r in buckets[transId % |buckets|]
    {
      hide Waits, Serves, Loaded;
    }

    // request_find_from_trans_id.
    method FindFromTransId(transId: nat) returns (req: Request?)
      requires Valid()
      ensures req != null ==> req in Flying(buckets) && req.transId == transId
      ensures req == null ==> forall r <- Flying(buckets) :: r.transId != transId
    {
      hide EvdnsBase.Valid, Flying;
      BucketHead(0);
      InSomeBucket();
      ghost var k := transId % |heads|;
      BucketHead(k);
      req := heads[transId % |heads|];
      if req == null {
        SortedAt(transId);
        return;
      }
      var startedAt := req;
      ghost var j := 0;
      RingAt(k, 0);
      while true
        invariant Valid() && j < |buckets[k]| && req == buckets[k][j]
        invariant forall i :: 0 <= i < j ==> buckets[k][i].transId != transId
        decreases |buckets[k]| - j
      {
        RingAt(k, j);
        if req.transId == transId {
          return;
        }
        DistinctAt(buckets[k], 0);
        req := req.next;
        if req == startedAt {
          break;
        }
        j := j + 1;
      }
      assert forall r <- buckets[k] :: r.transId != transId;
      SortedAt(transId);
      req := null;
    }

    lemma InSomeBucket()
      requires Valid()
      ensures |buckets| > 0
    {
      hide Waits, Serves, Loaded;
    }

    // evdns_base_set_max_requests_inflight. The requests that wait are not sent off at once: some go on
    // waiting for nothing exactly if there were some, a server, and fewer under way than may be now.
    method SetMaxRequestsInflight(max0: int)
      requires Valid()
      modifies this`heads, this`buckets, this`maxInflight, Flying(buckets)`next, Flying(buckets)`prev
      ensures Valid() && Flying(buckets) == old(Flying(buckets))
      ensures maxInflight == (if max0 < 1 then 1 else max0) && |heads| == (maxInflight + 4) / 5
      ensures Settled() <==> old(waiting == 0 || servers == [] || inflight >= if max0 < 1 then 1 else max0)
    {
      hide Flies, Serves, Loaded, Flying, Waits, Unique;
      InMemory();
      var max := if max0 < 1 then 1 else max0;
      heads, buckets := Rebucket(heads, (max + 4) / 5, buckets);
      maxInflight := max;
    }

    // evdns_nameserver_add_impl_. The requests that wait are not sent off here either.
    method NameserverAdd() returns (ns: Server)
      requires Valid()
      modifies this`serverHead, this`good, this`servers, servers`next, servers`prev
      ensures Valid() && fresh(ns) && ns.up && good == old(good) + 1
      ensures servers == WithSecond(ns, old(servers))
      ensures Settled() <==> old(waiting == 0 || inflight >= maxInflight)
    {
      hide Flies, Serves, Loaded, Flying, Waits, Unique;
      InMemory();
      ns := new Server();
      serverHead, good, servers := AddUp(ns, serverHead, good, servers, Flying(buckets));
    }

    // request_new, as far as the queues are concerned: with room a request gets its transaction id, and the
    // server whose turn it is, at once. If there is room but no id is left the code does not come back.
    method RequestNew() returns (req: Request?)
      requires Valid()
      modifies this`serverHead, this`servers
      ensures Valid() && forall s :: s in servers <==> s in old(servers)
      ensures req == null <==> inflight < maxInflight && inflight == NO_ID
      ensures req != null ==>
                && fresh(req) && req !in Live()
                && (req.ns != null <==> inflight < maxInflight && servers != [])
                && (req.ns != null ==>
                      && req.ns in servers && old(servers) != [] && req.ns == InTurn(old(servers), 0)
                      && req.transId < NO_ID && Free(Flying(buckets), req.transId))
      ensures Shifted(old(servers), servers, if req != null && inflight < maxInflight then 1 else 0)
    {
      hide EvdnsBase.Valid, Flying, Free, InTurn, Shifted;
      InMemory();
      ShiftedNone(servers);
      var transId, ns := NO_ID, null;
      if inflight < maxInflight {
        var found;
        transId, found := TransactionIdPick();
        if !found {
          return null;
        }
        ns := Pick();
      }
      req := new Request(transId, ns);
      InMemory();
    }

    lemma CountsFlying()
      requires Valid()
      ensures inflight == |Flying(buckets)| && waiting == |queue|
    {
      hide Flies, Serves, Loaded, Waits;
    }

    // nameserver_up: a probe that is still under way is cancelled first.
    method Up(ns: Server, probe: Request?)
      requires Valid() && ns in servers && (probe != null ==> probe in Live())
      modifies this`heads, this`waitingHead, this`serverHead, this`inflight, this`waiting, this`good, this`buckets,
               this`queue, this`servers, Flying(buckets)`next, Flying(buckets)`prev, queue, servers`load, ns`up, ns`timedOut
      ensures Valid() && ns.up && ns.timedOut == (if old(ns.up) then old(ns.timedOut) else 0) && forall s :: s in servers <==> s in old(servers)
      ensures good == old(good) + if old(ns.up) then 0 else 1
      ensures Live() == old(Live()) - if probe != null && !old(ns.up) then {probe} else {}
    {
      hide EvdnsBase.Valid, Flying;
      if ns.up {
        return;
      }
      if probe != null {
        ghost var n, i := Finished(probe);
      }
      MarkServer(ns, true);
      ns.timedOut := 0;
    }

    // evdns_request_timeout_callback: a request that was sent often enough is given up, and its
    // server with it; any other is sent again, to the server whose turn it is.
    method Timeout(req: Request, maxRetransmits: nat, maxTimeouts: nat) returns (gone: bool, ghost next: Server)
      requires Valid() && req in Flying(buckets)
      modifies this`heads, this`waitingHead, this`serverHead, this`inflight, this`waiting, this`good, this`buckets,
               this`queue, this`servers, Flying(buckets), queue, servers`load, servers`up, servers`timedOut
      ensures Valid() && gone == (old(req.txCount) >= maxRetransmits)
      ensures Live() == old(Live()) - if gone then {req} else {}
      ensures forall s :: s in servers <==> s in old(servers)
      ensures next in servers && old(servers) != []
      ensures forall s <- servers :: s != next ==> s.up == old(s.up) && s.timedOut == old(s.timedOut)
      ensures gone ==> next == old(req.ns) && !next.up && next.timedOut == old(next.timedOut)
      ensures !gone ==>
                && next == old(InTurn(servers, 0)) && old(req.txCount) <= req.txCount <= old(req.txCount) + 1
                && Counted(next, old(next.timedOut), old(next.up), maxTimeouts)
                && (req.ns == next || Rescued(req, next))
    {
      hide EvdnsBase.Valid, Flying, Shifted, InTurn;
      HasServer(req);
      InMemory();
      var ns := req.ns;
      if req.txCount >= maxRetransmits {
        ghost var n, i := Finished(req);
        assert forall r <- Flying(buckets) :: r in Live();
        assert forall i :: 0 <= i < |servers| ==> servers[i] in servers && servers[i] in old(servers);
        Failed(ns);
        return true, ns;
      }
      next := Retransmit(req, maxTimeouts);
      gone := false;
    }

    // A server that has timed out once more: it is given up when that is too often, and counts from 0 again.
    ghost predicate Counted(s: Server, was: nat, wasUp: bool, maxTimeouts: nat)
      reads s`timedOut, s`up
    {
      if was + 1 > maxTimeouts then s.timedOut == 0 && !s.up else s.timedOut == was + 1 && s.up == wasUp
    }

    // A request that had not gone out to a server that failed is with another one.
    ghost predicate Rescued(r: Request, failed: Server)
      reads r`txCount, r`ns, failed`up, (if r.ns == null then {} else {r.ns})`up
    {
      r.txCount == 0 && !failed.up && r.ns != null && r.ns.up
    }

    // The request goes out again, to the server whose turn it is; if that one has timed out too often it
    // is given up, and a request that could not be sent goes over with the others.
    method Retransmit(req: Request, maxTimeouts: nat) returns (ghost next: Server)
      requires Valid() && req in Flying(buckets)
      modifies this`serverHead, this`good, this`servers, Flying(buckets)`ns, req`txCount, req`transmitMe,
               servers`load, servers`up, servers`timedOut
      ensures forall s :: s in servers <==> s in old(servers)
      ensures next in servers && old(servers) != [] && next == old(InTurn(servers, 0))
      ensures forall s <- servers :: s != next ==> s.up == old(s.up) && s.timedOut == old(s.timedOut)
      ensures Counted(next, old(next.timedOut), old(next.up), maxTimeouts)
      ensures req.ns == next || Rescued(req, next)
      ensures old(req.txCount) <= req.txCount <= old(req.txCount) + 1
      ensures Valid()
    {
      hide EvdnsBase.Valid, Flying, InTurn, Shifted, AllUnsent;
      HasServer(req);
      InMemory();
      Turns(0);
      ghost var ss := servers;
      var picked := Pick();
      next := picked;
      assert forall i :: 0 <= i < |servers| ==> servers[i] in servers && servers[i] in old(servers);
      Swap(req, picked);
      HasServer(req);
      var sent := *;
      Transmit(req, sent);
      CountTimeout(req.ns, maxTimeouts);
    }

    // A server that has timed out too often is given up.
    method CountTimeout(ns: Server, maxTimeouts: nat)
      requires Valid() && ns in servers
      modifies this`serverHead, this`good, this`servers, Flying(buckets)`ns, servers`load, ns`up, ns`timedOut
      ensures forall s :: s in servers <==> s in old(servers)
      ensures Counted(ns, old(ns.timedOut), old(ns.up), maxTimeouts)
      ensures forall r <- Flying(buckets) :: r.ns == old(r.ns) || (old(r.ns) == ns && Rescued(r, ns))
      ensures Valid()
    {
      hide EvdnsBase.Valid, Flying, InTurn, Shifted, AllUnsent;
      InMemory();
      ns.timedOut := ns.timedOut + 1;
      if ns.timedOut > maxTimeouts {
        ns.timedOut := 0;
        AllUnsentIs(buckets, ns);
        Failed(ns);
      }
    }

    lemma HasServer(req: Request)
      requires Valid() && req in Flying(buckets)
      ensures req.ns != null && req.ns in servers
    {
      hide Flies, Waits, Serves;
    }
  }

  // A base with one server.
  method WithServer() returns (b: EvdnsBase)
    ensures b.Valid() && fresh(b) && b.Live() == {} && b.inflight == 0 && b.waiting == 0 && b.maxInflight == 1
    ensures b.servers != [] && forall s <- b.servers :: fresh(s)
  {
    hide EvdnsBase.Valid, Flying;
    b := new EvdnsBase();
    b.InMemory();
    b.CountsFlying();
    var ns := b.NameserverAdd();
  }

  // And one request under way.
  method WithRequest() returns (b: EvdnsBase)
    ensures b.Valid() && fresh(b) && b.inflight == 1 && b.waiting == 0 && b.maxInflight == 1
    ensures b.servers != [] && (forall s <- b.servers :: fresh(s)) && forall r <- b.Live() :: fresh(r)
  {
    hide EvdnsBase.Valid, Flying;
    b := WithServer();
    b.CountsFlying();
    b.InMemory();
    ghost var was := b.servers;
    var req := b.RequestNew();
    assert forall i :: 0 <= i < |b.servers| ==> b.servers[i] in b.servers && b.servers[i] in was;
    assert was[0] in b.servers;
    b.InMemory();
    b.Submit(req);
    b.CountsFlying();
    assert Flying(b.buckets) == {} + {req};
    OneUnderWay(b, req);
  }

  lemma LiveIs(b: EvdnsBase)
    ensures forall r <- Flying(b.buckets) :: r in b.Live()
    ensures forall i :: 0 <= i < |b.queue| ==> b.queue[i] in b.Live()
  {
    hide Flying;
  }

  lemma OneUnderWay(b: EvdnsBase, req: Request)
    requires Flying(b.buckets) == {req} && b.queue == []
    ensures |Flying(b.buckets)| == 1 && b.Live() == {req}
  {
    hide Flying;
  }

  // A request that waits because one is under way is not sent off when two may be.
  method RaisingLeavesWaiting() returns (b: EvdnsBase)
    ensures b.Valid() && b.waiting == 1 && b.inflight == 1 < b.maxInflight && b.servers != [] && !b.Settled()
  {
    hide EvdnsBase.Valid, Flying, EvdnsBase.Settled, ToSet;
    b := WithRequest();
    b.CountsFlying();
    b.InMemory();
    ghost var was, live := b.servers, b.Live();
    var req := b.RequestNew();
    assert was[0] in b.servers;
    assert forall i :: 0 <= i < |b.servers| ==> b.servers[i] in b.servers && b.servers[i] in was;
    LiveIs(b);
    assert b.Live() == live;
    b.Submit(req);
    b.CountsFlying();
    LiveIs(b);
    b.SetMaxRequestsInflight(2);
  }

  // A request that waits because there is no server is not sent off when there is one.
  method FirstServerLeavesWaiting() returns (b: EvdnsBase)
    ensures b.Valid() && b.waiting == 1 && b.inflight == 0 < b.maxInflight && b.servers != [] && !b.Settled()
  {
    hide EvdnsBase.Valid, Flying;
    b := new EvdnsBase();
    b.InMemory();
    b.CountsFlying();
    var req := b.RequestNew();
    b.InMemory();
    b.Submit(req);
    b.CountsFlying();
    b.InMemory();
    var ns := b.NameserverAdd();
  }

  // What may happen to a base: requests and servers are named by their numbers.
  datatype Command =
    | AddServer
    | NewRequest
    | Finish(r: nat)
    | TimesOut(r: nat, maxRetransmits: nat, maxTimeouts: nat)
    | Reissued(r: nat)
    | Fails(s: nat)
    | ComesUp(s: nat, probe: nat)
    | SetMax(n: int)

  // All that was ever made, and the requests that are not finished.
  datatype World = World(requests: seq<Request>, servers: seq<Server>, live: set<Request>)

  ghost predicate InStep(b: EvdnsBase, w: World)
    reads b
  {
    && b.Live() == w.live && (forall r <- w.live :: r in w.requests)
    && (forall s <- b.servers :: s in w.servers) && (forall s <- w.servers :: s in b.servers)
  }

  // What is in the base is in the world.
  lemma InWorld(b: EvdnsBase, w: World)
    requires b.Valid() && InStep(b, w)
    ensures forall r <- Flying(b.buckets) :: r in w.requests
    ensures forall i :: 0 <= i < |b.queue| ==> b.queue[i] in b.queue && b.queue[i] in w.requests
    ensures forall i :: 0 <= i < |b.servers| ==> b.servers[i] in b.servers && b.servers[i] in w.servers
  {
    hide EvdnsBase.Valid, Flying;
    assert forall r <- Flying(b.buckets) :: r in b.Live();
    assert forall r <- b.queue :: r in b.Live();
  }

  method StepAdd(b: EvdnsBase, w: World) returns (w': World)
    requires b.Valid() && InStep(b, w)
    modifies b, w.requests, w.servers
    ensures b.Valid() && InStep(b, w')
    ensures w'.requests == w.requests && w'.live == w.live && exists ns :: fresh(ns) && w'.servers == w.servers + [ns]
  {
    hide EvdnsBase.Valid, Flying;
    InWorld(b, w);
    var ns := b.NameserverAdd();
    w' := w.(servers := w.servers + [ns]);
  }

  method StepFinish(b: EvdnsBase, w: World, i: nat) returns (w': World)
    requires b.Valid() && InStep(b, w)
    modifies b, w.requests, w.servers
    ensures b.Valid() && InStep(b, w')
    ensures w' == w.(live := w.live - if i < |w.requests| then {w.requests[i]} else {})
  {
    hide EvdnsBase.Valid, Flying;
    InWorld(b, w);
    w' := w;
    if i < |w.requests| && w.requests[i] in w.live {
      ghost var n, k := b.Finished(w.requests[i]);
      w' := w.(live := w.live - {w.requests[i]});
    }
  }

  // A request under way that was sent often enough.
  ghost predicate GivenUp(w: World, i: nat, maxRetransmits: nat)
    reads w.requests
  {
    i < |w.requests| && w.requests[i] in w.live && w.requests[i].ns != null && w.requests[i].txCount >= maxRetransmits
  }

  method StepTimeout(b: EvdnsBase, w: World, i: nat, maxRetransmits: nat, maxTimeouts: nat) returns (w': World)
    requires b.Valid() && InStep(b, w)
    modifies b, w.requests, w.servers
    ensures b.Valid() && InStep(b, w')
    ensures w' == w.(live := w.live - if old(GivenUp(w, i, maxRetransmits)) then {w.requests[i]} else {})
  {
    hide EvdnsBase.Valid, Flying;
    InWorld(b, w);
    w' := w;
    if i < |w.requests| && w.requests[i] in w.live && w.requests[i].ns != null {
      b.WhichQueue(w.requests[i]);
      var gone;
      ghost var next;
      gone, next := b.Timeout(w.requests[i], maxRetransmits, maxTimeouts);
      w' := w.(live := w.live - if gone then {w.requests[i]} else {});
    }
  }

  method StepReissue(b: EvdnsBase, w: World, i: nat) returns (w': World)
    requires b.Valid() && InStep(b, w)
    modifies b, w.requests, w.servers
    ensures b.Valid() && InStep(b, w')
    ensures w' == w
  {
    hide EvdnsBase.Valid, Flying;
    InWorld(b, w);
    w' := w;
    if i < |w.requests| && w.requests[i] in w.live && w.requests[i].ns != null {
      b.WhichQueue(w.requests[i]);
      var r := b.Reissue(w.requests[i]);
    }
  }

  method StepFail(b: EvdnsBase, w: World, i: nat) returns (w': World)
    requires b.Valid() && InStep(b, w)
    modifies b, w.requests, w.servers
    ensures b.Valid() && InStep(b, w')
    ensures w' == w && (i < |w.servers| ==> !w.servers[i].up)
  {
    hide EvdnsBase.Valid, Flying;
    InWorld(b, w);
    w' := w;
    if i < |w.servers| {
      assert w.servers[i] in w.servers;
      b.Failed(w.servers[i]);
    }
  }

  method StepUp(b: EvdnsBase, w: World, i: nat, k: nat) returns (w': World)
    requires b.Valid() && InStep(b, w)
    modifies b, w.requests, w.servers
    ensures b.Valid() && InStep(b, w')
    ensures i < |w.servers| ==> w.servers[i].up
    ensures w' == w.(live := w.live - if old(i < |w.servers| && !w.servers[i].up) && k < |w.requests| then {w.requests[k]} else {})
  {
    hide EvdnsBase.Valid, Flying;
    InWorld(b, w);
    w' := w;
    if i < |w.servers| {
      assert w.servers[i] in w.servers;
      var wasUp := w.servers[i].up;
      var probe := if k < |w.requests| && w.requests[k] in w.live then w.requests[k] else null;
      b.Up(w.servers[i], probe);
      w' := w.(live := w.live - if probe != null && !wasUp then {probe} else {});
    }
  }

  method StepSetMax(b: EvdnsBase, w: World, n: int) returns (w': World)
    requires b.Valid() && InStep(b, w)
    modifies b, w.requests, w.servers
    ensures b.Valid() && InStep(b, w')
    ensures w' == w && b.maxInflight == if n < 1 then 1 else n
  {
    hide EvdnsBase.Valid, Flying;
    InWorld(b, w);
    w' := w;
    b.SetMaxRequestsInflight(n);
  }

  method StepRequest(b: EvdnsBase, w: World) returns (w': World)
    requires b.Valid() && InStep(b, w)
    modifies b, w.requests, w.servers
    ensures b.Valid() && InStep(b, w')
    ensures w' == w || exists req :: fresh(req) && w' == w.(requests := w.requests + [req], live := w.live + {req})
  {
    hide EvdnsBase.Valid, Flying;
    InWorld(b, w);
    var req := b.RequestNew();
    if req == null {
      return w;
    }
    assert forall i :: 0 <= i < |b.servers| ==> b.servers[i] in b.servers && b.servers[i] in w.servers;
    b.Submit(req);
    w' := w.(requests := w.requests + [req], live := w.live + {req});
  }

  // One command.
  method Step(b: EvdnsBase, w: World, c: Command) returns (w': World)
    requires b.Valid() && InStep(b, w)
    modifies b, w.requests, w.servers
    ensures b.Valid() && InStep(b, w')
    ensures w.requests <= w'.requests && forall i :: |w.requests| <= i < |w'.requests| ==> fresh(w'.requests[i])
    ensures w.servers <= w'.servers && forall i :: |w.servers| <= i < |w'.servers| ==> fresh(w'.servers[i])
  {
    hide EvdnsBase.Valid, InStep;
    match c
    case AddServer => w' := StepAdd(b, w);
    case NewRequest => w' := StepRequest(b, w);
    case Finish(r) => w' := StepFinish(b, w, r);
    case TimesOut(r, maxRetransmits, maxTimeouts) => w' := StepTimeout(b, w, r, maxRetransmits, maxTimeouts);
    case Reissued(r) => w' := StepReissue(b, w, r);
    case Fails(s) => w' := StepFail(b, w, s);
    case ComesUp(s, probe) => w' := StepUp(b, w, s, probe);
    case SetMax(n) => w' := StepSetMax(b, w, n);
  }

  // Every run from an empty base on: no request is lost or in two places, and every counter is
  // what it counts.
  method Run(cs: seq<Command>) returns (b: EvdnsBase, w: World)
    ensures b.Valid() && InStep(b, w)
  {
    hide EvdnsBase.Valid, EvdnsBase.Live, Flying;
    b := new EvdnsBase();
    w := World([], [], {});
    for i := 0 to |cs|
      invariant b.Valid() && InStep(b, w) && fresh(b)
      invariant forall j :: 0 <= j < |w.requests| ==> fresh(w.requests[j])
      invariant forall j :: 0 <= j < |w.servers| ==> fresh(w.servers[j])
    {
      w := Step(b, w, cs[i]);
    }
  }
}
