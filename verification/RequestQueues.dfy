/**
  The queues of DNS requests (common/libevent/evdns.c): requests under way in buckets by their
  transaction id, requests that wait, and the servers that are tried in turn.
  */
module RequestQueues {
  import opened Sequences
  import opened RequestLists

  type Buckets = seq<seq<Request>>

  // The requests in the buckets.
  function Flying(buckets: Buckets): set<Request> {
    set k, r | 0 <= k < |buckets| && r in buckets[k] :: r
  }

  lemma InFlying(buckets: Buckets, k: nat)
    requires k < |buckets|
    ensures forall r <- buckets[k] :: r in Flying(buckets)
  {
  }

  lemma FlyingMore(buckets: Buckets, k: nat, r: Request)
    requires k < |buckets|
    ensures Flying(buckets[k := buckets[k] + [r]]) == Flying(buckets) + {r}
  {
    var b := buckets[k := buckets[k] + [r]];
    forall x | x in Flying(buckets) + {r}
      ensures x in Flying(b)
    {
      if x == r {
        assert x in b[k];
      } else {
        var j :| 0 <= j < |buckets| && x in buckets[j];
        assert x in b[j];
      }
    }
    forall x | x in Flying(b)
      ensures x in Flying(buckets) + {r}
    {
      var j :| 0 <= j < |b| && x in b[j];
      assert j != k ==> x in buckets[j];
    }
  }

  lemma FlyingLess(buckets: Buckets, k: nat, i: nat)
    requires Unshared(buckets) && k < |buckets| && Distinct(buckets[k]) && i < |buckets[k]|
    ensures Flying(buckets[k := WithoutAt(buckets[k], i)]) == Flying(buckets) - {buckets[k][i]}
  {
    var r := buckets[k][i];
    var b := buckets[k := WithoutAt(buckets[k], i)];
    DistinctWithout(buckets[k], i);
    forall x | x in Flying(buckets) - {r}
      ensures x in Flying(b)
    {
      var j :| 0 <= j < |buckets| && x in buckets[j];
      assert x in b[j];
    }
    forall x | x in Flying(b)
      ensures x in Flying(buckets) - {r}
    {
      var j :| 0 <= j < |b| && x in b[j];
      assert x in buckets[j] && r in buckets[k];
    }
  }

  // Buckets that hold nothing.
  function NoBuckets(n: nat): (bs: Buckets)
    ensures |bs| == n && Flying(bs) == {}
  {
    seq(n, _ => [])
  }

  // No request is in two buckets.
  ghost predicate Unshared(buckets: Buckets) {
    forall j, k, r {:trigger r in buckets[j], r in buckets[k]} ::
      0 <= j < |buckets| && 0 <= k < |buckets| && r in buckets[j] && r in buckets[k] ==> j == k
  }

  // The lists in memory.
  ghost predicate Rings(buckets: Buckets)
    reads Flying(buckets)`next, Flying(buckets)`prev
  {
    forall k :: 0 <= k < |buckets| ==> RingOf(buckets, k)
  }

  ghost predicate RingOf(buckets: Buckets, k: nat)
    requires k < |buckets|
    reads Flying(buckets)`next, Flying(buckets)`prev
  {
    InFlying(buckets, k);
    Ring(buckets[k])
  }

  // The array of list heads.
  predicate Headed(heads: seq<Request?>, buckets: Buckets) {
    && |heads| == |buckets|
    && forall k :: 0 <= k < |buckets| ==> heads[k] == if buckets[k] == [] then null else buckets[k][0]
  }

  // Each request is in the bucket of its transaction id.
  ghost predicate Sorted(buckets: Buckets)
    reads Flying(buckets)`transId
  {
    && |buckets| > 0
    && forall k, r {:trigger r in buckets[k]} :: 0 <= k < |buckets| && r in buckets[k] ==>
         r in Flying(buckets) && r.transId % |buckets| == k
  }

  lemma SortedApart(buckets: Buckets)
    requires Sorted(buckets)
    ensures Unshared(buckets)
  {
  }

  // The requests under way to a server.
  ghost function Load(flying: set<Request>, s: Server): set<Request>
    reads flying`ns
  {
    set r | r in flying && r.ns == s
  }

  // Requests under way have a server, and each server counts its own.
  ghost predicate Loaded(flying: set<Request>, servers: seq<Server>)
    reads flying`ns, servers`load
  {
    && (forall r <- flying :: r.ns != null && r.ns in servers)
    && (forall s <- servers :: s.load == |Load(flying, s)|)
  }

  // A 16-bit transaction id; the last number is for requests that wait.
  const NO_ID: nat := 0xffff

  // Every request under way has a transaction id of its own.
  ghost predicate Unique(rs: set<Request>)
    reads rs`transId
  {
    && (forall r <- rs :: r.transId < NO_ID)
    && forall r, q {:trigger r.transId, q.transId} :: r in rs && q in rs && r.transId == q.transId ==> r == q
  }

  ghost predicate Free(rs: set<Request>, id: nat)
    reads rs`transId
  {
    forall r <- rs :: r.transId != id
  }

  lemma UniqueMore(rs: set<Request>, req: Request)
    requires Unique(rs) && Free(rs, req.transId) && req.transId < NO_ID
    ensures Unique(rs + {req})
  {
  }

  lemma UniqueLess(rs: set<Request>, req: Request)
    requires Unique(rs)
    ensures Unique(rs - {req})
  {
  }

  ghost function Ids(rs: set<Request>): set<nat>
    reads rs`transId
  {
    set r | r in rs :: r.transId
  }

  lemma {:induction false} IdsCount(rs: set<Request>)
    requires Unique(rs)
    ensures |Ids(rs)| == |rs|
    decreases rs
  {
    if rs != {} {
      var r :| r in rs;
      UniqueLess(rs, r);
      IdsCount(rs - {r});
      assert Ids(rs) == Ids(rs - {r}) + {r.transId} && r.transId !in Ids(rs - {r});
    }
  }

  function Below(n: nat): (s: set<nat>)
    ensures forall i :: i in s <==> 0 <= i < n
    ensures |s| == n
  {
    if n == 0 then {} else Below(n - 1) + {n - 1}
  }

  lemma {:induction false} SubsetCount(a: set<nat>, b: set<nat>)
    requires a <= b
    ensures |a| <= |b| && (|a| == |b| ==> a == b)
  {
    assert b == a + (b - a) && |b| == |a| + |b - a|;
    if |a| == |b| {
      assert b - a == {};
    }
  }

  lemma IdsBelow(rs: set<Request>)
    requires Unique(rs)
    ensures Ids(rs) <= Below(NO_ID)
  {
    hide Below;
  }

  lemma AllTaken(rs: set<Request>)
    requires Unique(rs) && forall id :: 0 <= id < NO_ID ==> !Free(rs, id)
    ensures Ids(rs) == Below(NO_ID)
  {
    hide Below;
    forall id | id in Below(NO_ID)
      ensures id in Ids(rs)
    {
      assert !Free(rs, id);
    }
  }

  // All ids are in use exactly if as many requests are under way.
  lemma IdsTaken(rs: set<Request>)
    requires Unique(rs)
    ensures |rs| <= NO_ID
    ensures |rs| == NO_ID <==> forall id :: 0 <= id < NO_ID ==> !Free(rs, id)
  {
    hide Below, Unique;
    IdsCount(rs);
    IdsBelow(rs);
    SubsetCount(Ids(rs), Below(NO_ID));
    if |rs| == NO_ID {
      forall id | 0 <= id < NO_ID
        ensures !Free(rs, id)
      {
        assert id in Below(NO_ID) && id in Ids(rs);
      }
    }
    if forall id :: 0 <= id < NO_ID ==> !Free(rs, id) {
      AllTaken(rs);
    }
  }

  ghost predicate Idle(queue: seq<Request>)
    reads queue`ns
  {
    forall r <- queue :: r.ns == null
  }

  ghost function UpSet(ss: seq<Server>): set<Server>
    reads ss`up
  {
    set s | s in ss && s.up
  }

  // Where a request is to be found.
  lemma WhereIs(buckets: Buckets, req: Request) returns (k: nat, i: nat)
    requires Rings(buckets) && Sorted(buckets) && req in Flying(buckets)
    ensures k == req.transId % |buckets| && i < |buckets[k]| && buckets[k][i] == req
    ensures Distinct(buckets[k])
  {
    k := req.transId % |buckets|;
    assert req in buckets[k];
    assert RingOf(buckets, k);
    i :| 0 <= i < |buckets[k]| && buckets[k][i] == req;
  }

  // evdns_request_insert in the bucket of the transaction id.
  method PutInBucket(req: Request, heads: seq<Request?>, ghost buckets: Buckets)
    returns (heads': seq<Request?>, ghost buckets': Buckets)
    requires Headed(heads, buckets) && Rings(buckets) && Sorted(buckets) && req !in Flying(buckets)
    modifies req`next, req`prev, Flying(buckets)`next, Flying(buckets)`prev
    ensures Headed(heads', buckets') && Rings(buckets') && Sorted(buckets') && |heads'| == |heads|
    ensures buckets' == var k := req.transId % |buckets|; buckets[k := buckets[k] + [req]]
    ensures Flying(buckets') == Flying(buckets) + {req}
  {
    hide Ring;
    var k := req.transId % |heads|;
    SortedApart(buckets);
    FlyingMore(buckets, k, req);
    InFlying(buckets, k);
    assert RingOf(buckets, k);
    assert forall r <- Flying(buckets) :: allocated(r);
    label before:
    var head := RequestInsert(req, heads[k], buckets[k]);
    OthersStay@before((buckets, k));
    heads', buckets' := heads[k := head], buckets[k := buckets[k] + [req]];
    AllRings(buckets', buckets, k);
  }

  // evdns_request_remove from the bucket.
  method TakeFromBucket(req: Request, heads: seq<Request?>, ghost buckets: Buckets)
    returns (heads': seq<Request?>, ghost buckets': Buckets)
    requires Headed(heads, buckets) && Rings(buckets) && Sorted(buckets) && req in Flying(buckets)
    modifies Flying(buckets)`next, Flying(buckets)`prev
    ensures Headed(heads', buckets') && Rings(buckets') && Sorted(buckets') && |buckets'| == |buckets|
    ensures Flying(buckets') == Flying(buckets) - {req}
    ensures forall j :: 0 <= j < |heads| && j != req.transId % |heads| ==> heads'[j] == heads[j]
  {
    hide Ring;
    ghost var k0, i := WhereIs(buckets, req);
    var k := req.transId % |heads|;
    SortedApart(buckets);
    FlyingLess(buckets, k, i);
    DistinctWithout(buckets[k], i);
    InFlying(buckets, k);
    assert RingOf(buckets, k);
    assert forall r <- Flying(buckets) :: allocated(r);
    label before:
    var head := RequestRemove(req, heads[k], buckets[k], i);
    OthersStay@before((buckets, k));
    heads', buckets' := heads[k := head], buckets[k := WithoutAt(buckets[k], i)];
    AllRings(buckets', buckets, k);
  }

  // Linking one bucket anew leaves the others.
  twostate lemma OthersStay(one: (Buckets, nat))
    requires old(Rings(one.0)) && Unshared(one.0) && one.1 < |one.0|
    requires forall r {:trigger r.next} {:trigger r.prev} ::
               r in Flying(one.0) && r !in one.0[one.1] ==> r.next == old(r.next) && r.prev == old(r.prev)
    ensures forall j :: 0 <= j < |one.0| && j != one.1 ==> Ring(one.0[j])
  {
    var (buckets, k) := one;
    forall j | 0 <= j < |buckets| && j != k
      ensures Ring(buckets[j])
    {
      assert old(RingOf(buckets, j));
      InFlying(buckets, j);
      assert forall i :: 0 <= i < |buckets[j]| ==> buckets[j][i] in buckets[j] && buckets[j][i] in Flying(buckets);
    }
  }

  lemma AllRings(buckets': Buckets, buckets: Buckets, k: nat)
    requires |buckets'| == |buckets| && k < |buckets| && Ring(buckets'[k])
    requires forall j :: 0 <= j < |buckets| && j != k ==> buckets'[j] == buckets[j] && Ring(buckets[j])
    ensures Rings(buckets')
  {
    hide Ring, Flying;
    forall j | 0 <= j < |buckets'|
      ensures RingOf(buckets', j)
    {
    }
  }

  // The servers of the ring that are up, in its order.
  ghost function Ups(ss: seq<Server>): seq<Server>
    reads ss`up
  {
    if ss == [] then [] else (if ss[0].up then [ss[0]] else []) + Ups(ss[1..])
  }

  lemma {:induction false} UpsAt(ss: seq<Server>, i: nat)
    requires i < |Ups(ss)|
    ensures Ups(ss)[i] in ss && Ups(ss)[i].up
  {
    assert ss == [ss[0]] + ss[1..];
    if !(ss[0].up && i == 0) {
      UpsAt(ss[1..], if ss[0].up then i - 1 else i);
    }
  }

  lemma {:induction false} NoneUps(ss: seq<Server>)
    ensures Ups(ss) == [] <==> forall j :: 0 <= j < |ss| ==> !ss[j].up
  {
    if ss != [] {
      NoneUps(ss[1..]);
      assert forall j :: 0 < j < |ss| ==> ss[j] == ss[1..][j - 1];
      assert forall j :: 0 <= j < |ss| - 1 ==> ss[1..][j] == ss[j + 1];
    }
  }

  lemma {:induction false} UpsJoin(ss: seq<Server>, ts: seq<Server>)
    ensures Ups(ss + ts) == Ups(ss) + Ups(ts)
  {
    if ss == [] {
      assert ss + ts == ts;
    } else {
      assert (ss + ts)[1..] == ss[1..] + ts;
      UpsJoin(ss[1..], ts);
    }
  }

  // The i-th element when a list is gone through round and round.
  function Circular<T>(ss: seq<T>, i: nat): T
    requires ss != []
    decreases i
  {
    if i < |ss| then ss[i] else Circular(ss, i - |ss|)
  }

  lemma {:induction false} CircularIn<T>(ss: seq<T>, i: nat) returns (j: nat)
    requires ss != []
    ensures j < |ss| && Circular(ss, i) == ss[j]
    decreases i
  {
    j := i;
    if i >= |ss| {
      j := CircularIn(ss, i - |ss|);
    }
  }

  lemma {:induction false} CircularTurned<T>(ss: seq<T>, i: nat)
    requires ss != []
    ensures Circular(Turned(ss, 1), i) == Circular(ss, i + 1)
    decreases i
  {
    if i >= |ss| {
      CircularTurned(ss, i - |ss|);
    }
  }

  // Whose turn it is for the i-th request from now on: that of the i-th server that is up, round and round,
  // or of any server, beginning with the second, if none is.
  ghost function InTurn(ss: seq<Server>, i: nat): Server
    requires ss != []
    reads ss`up
  {
    if Ups(ss) == [] then Circular(ss, i + 1) else Circular(Ups(ss), i)
  }

  // After n picks the turns go on with the n-th.
  ghost predicate Shifted(ss: seq<Server>, ts: seq<Server>, n: nat)
    reads ss`up, ts`up
  {
    if ss == [] then ts == [] else ts != [] && forall i: nat :: InTurn(ts, i) == InTurn(ss, i + n)
  }

  // The i-th of the requests has the server whose turn it is then.
  ghost predicate SentInTurn(rs: seq<Request>, ss: seq<Server>)
    reads rs`ns, ss`up
  {
    rs != [] ==> ss != [] && forall i :: 0 <= i < |rs| ==> rs[i].ns == InTurn(ss, i)
  }

  lemma ShiftedNone(ss: seq<Server>)
    ensures Shifted(ss, ss, 0)
  {
  }

  lemma ShiftedMore(ss: seq<Server>, ts: seq<Server>, us: seq<Server>, n: nat, m: nat)
    requires Shifted(ss, ts, n) && Shifted(ts, us, m)
    ensures Shifted(ss, us, n + m)
  {
    hide InTurn;
    if ss != [] {
      forall i: nat
        ensures InTurn(us, i) == InTurn(ss, i + (n + m))
      {
        assert InTurn(us, i) == InTurn(ts, i + m);
        assert InTurn(ts, i + m) == InTurn(ss, i + m + n);
      }
    }
  }

  lemma TurnIn(ss: seq<Server>, i: nat)
    requires ss != []
    ensures InTurn(ss, i) in ss && (InTurn(ss, i).up <==> exists j :: 0 <= j < |ss| && ss[j].up)
  {
    hide Circular;
    NoneUps(ss);
    if Ups(ss) == [] {
      var j := CircularIn(ss, i + 1);
    } else {
      var j := CircularIn(Ups(ss), i);
      UpsAt(ss, j);
    }
  }

  // The pick when no server is up: the second one, which comes first then.
  lemma TurnOfAny(ss: seq<Server>)
    requires ss != [] && Ups(ss) == []
    ensures var ts := Turned(ss, 1); ts[0] == InTurn(ss, 0) && forall i: nat :: InTurn(ts, i) == InTurn(ss, i + 1)
  {
    hide Ups, Turned;
    var ts := Turned(ss, 1);
    NoneUps(ss);
    NoneUps(ts);
    CircularTurned(ss, 0);
    forall i: nat
      ensures InTurn(ts, i) == InTurn(ss, i + 1)
    {
      CircularTurned(ss, i + 1);
    }
  }

  // The pick of the first server that is up: the ring begins behind it then.
  lemma TurnOfUp(ss: seq<Server>, k: nat)
    requires k < |ss| && ss[k].up && forall j :: 0 <= j < k ==> !ss[j].up
    ensures var ts := Turned(ss, k + 1);
            && Ups(ss) != [] && ss[k] == InTurn(ss, 0) && forall i: nat :: InTurn(ts, i) == InTurn(ss, i + 1)
  {
    hide Circular;
    var ts := Turned(ss, k + 1);
    UpsTurned(ss, k);
    FirstOfUps(ss, k);
    assert Circular(Ups(ss), 0) == Ups(ss)[0] by {
      CircularFirst(Ups(ss));
    }
    forall i: nat
      ensures InTurn(ts, i) == InTurn(ss, i + 1)
    {
      CircularTurned(Ups(ss), i);
    }
  }

  lemma CircularFirst<T>(ss: seq<T>)
    requires ss != []
    ensures Circular(ss, 0) == ss[0]
  {
  }

  lemma FirstOfUps(ss: seq<Server>, k: nat)
    requires k < |ss| && ss[k].up && forall j :: 0 <= j < k ==> !ss[j].up
    ensures Ups(ss) == [ss[k]] + Ups(ss[k + 1..])
  {
    hide Ups;
    var front, rest := ss[..k], ss[k + 1..];
    assert ss == front + ([ss[k]] + rest);
    NoneUps(front);
    UpsJoin(front, [ss[k]] + rest);
    UpsOne(ss[k], rest);
  }

  lemma UpsOne(s: Server, rest: seq<Server>)
    ensures Ups([s] + rest) == (if s.up then [s] else []) + Ups(rest)
  {
    assert ([s] + rest)[1..] == rest;
  }

  lemma UpsTurned(ss: seq<Server>, k: nat)
    requires k < |ss| && ss[k].up && forall j :: 0 <= j < k ==> !ss[j].up
    ensures Ups(ss) != [] && Ups(Turned(ss, k + 1)) == Turned(Ups(ss), 1)
  {
    hide Ups;
    var front, rest := ss[..k], ss[k + 1..];
    FirstOfUps(ss, k);
    assert Turned(ss, k + 1) == rest + (front + [ss[k]]);
    NoneUps(front);
    UpsJoin(rest, front + [ss[k]]);
    UpsJoin(front, [ss[k]]);
    UpsOne(ss[k], []);
    assert [ss[k]] + [] == [ss[k]];
    NoneUps([]);
  }

  lemma UpsCount(ss: seq<Server>)
    ensures UpSet(ss) == {} <==> Ups(ss) == []
    ensures |UpSet(ss)| == 0 <==> Ups(ss) == []
  {
    hide Ups;
    NoneUps(ss);
    if UpSet(ss) != {} {
      var s :| s in UpSet(ss);
      var j :| 0 <= j < |ss| && ss[j] == s;
      assert ss[j].up;
    }
    if Ups(ss) != [] {
      var j :| 0 <= j < |ss| && ss[j].up;
      assert ss[j] in UpSet(ss);
    }
  }

  // The requests of a list that have not gone out yet to a server, in order.
  ghost function Unsent(rs: seq<Request>, ns: Server): seq<Request>
    reads rs`txCount, rs`ns
  {
    if rs == [] then []
    else
      var r := rs[|rs| - 1];
      Unsent(rs[..|rs| - 1], ns) + if r.txCount == 0 && r.ns == ns then [r] else []
  }

  lemma {:induction false} UnsentIs(rs: seq<Request>, ns: Server)
    ensures forall r :: r in Unsent(rs, ns) <==> r in rs && r.txCount == 0 && r.ns == ns
  {
    if rs != [] {
      UnsentIs(rs[..|rs| - 1], ns);
      assert rs == rs[..|rs| - 1] + [rs[|rs| - 1]];
    }
  }

  lemma {:induction false} UnsentIn(rs: seq<Request>, ns: Server)
    ensures forall i :: 0 <= i < |Unsent(rs, ns)| ==> Unsent(rs, ns)[i] in rs
  {
    if rs != [] {
      UnsentIn(rs[..|rs| - 1], ns);
      assert rs == rs[..|rs| - 1] + [rs[|rs| - 1]];
    }
  }

  lemma UnsentMore(rs: seq<Request>, i: nat, ns: Server)
    requires i < |rs|
    ensures Unsent(rs[..i + 1], ns) == Unsent(rs[..i], ns) + if rs[i].txCount == 0 && rs[i].ns == ns then [rs[i]] else []
  {
    assert rs[..i + 1][..i] == rs[..i];
  }

  // The same for all buckets, one after the other.
  ghost function AllUnsent(buckets: Buckets, ns: Server): seq<Request>
    reads Flying(buckets)`txCount, Flying(buckets)`ns
  {
    if buckets == [] then []
    else
      var k := |buckets| - 1;
      InFlying(buckets, k);
      FlyingPrefix(buckets, k);
      AllUnsent(buckets[..k], ns) + Unsent(buckets[k], ns)
  }

  lemma FlyingPrefix(buckets: Buckets, k: nat)
    requires k <= |buckets|
    ensures Flying(buckets[..k]) <= Flying(buckets)
  {
    forall r | r in Flying(buckets[..k])
      ensures r in Flying(buckets)
    {
      var j :| 0 <= j < k && r in buckets[..k][j];
      assert r in buckets[j];
    }
  }

  lemma AllUnsentMore(buckets: Buckets, k: nat, ns: Server)
    requires k < |buckets|
    ensures AllUnsent(buckets[..k + 1], ns) == AllUnsent(buckets[..k], ns) + Unsent(buckets[k], ns)
  {
    assert buckets[..k + 1][..k] == buckets[..k];
  }

  lemma {:induction false} AllUnsentIs(buckets: Buckets, ns: Server)
    ensures forall r :: r in AllUnsent(buckets, ns) <==> r in Flying(buckets) && r.txCount == 0 && r.ns == ns
  {
    if buckets != [] {
      var k := |buckets| - 1;
      AllUnsentIs(buckets[..k], ns);
      UnsentIs(buckets[k], ns);
      FlyingPrefix(buckets, k);
      InFlying(buckets, k);
      forall r | r in Flying(buckets)
        ensures r in Flying(buckets[..k]) || r in buckets[k]
      {
        var j :| 0 <= j < |buckets| && r in buckets[j];
        assert j < k ==> r in buckets[..k][j];
      }
    }
  }

  lemma TurnedFine(ss: seq<Server>, k: nat)
    requires ServerRing(ss) && k <= |ss| && ss != []
    ensures ServerRing(Turned(ss, k)) && Turned(ss, k)[0] == (if k == |ss| then ss[0] else ss[k])
    ensures (forall s :: s in Turned(ss, k) <==> s in ss) && UpSet(Turned(ss, k)) == UpSet(ss)
  {
    RingTurned(ss, k);
    TurnedSame(ss, k);
  }
}
