/**
  DNS requests and nameservers, and the circular lists that they are in (common/libevent/evdns.c).
  Unlike the lists of the hash table these have no head of their own.
  */
module RequestLists {
  import opened Sequences

  // struct nameserver: whether it is thought to be up, and how many requests are under way to it.
  class Server {
    var next: Server?
    var prev: Server?
    var up: bool
    var load: int
    var timedOut: nat

    constructor ()
      ensures up && load == 0 && next == null && prev == null
    {
      next, prev, up, load, timedOut := null, null, true, 0, 0;
    }
  }

  // struct request. A request without a server waits to be sent.
  class Request {
    var next: Request?
    var prev: Request?
    var transId: nat
    var ns: Server?
    var txCount: nat
    var reissueCount: nat
    var transmitMe: bool

    constructor (transId: nat, ns: Server?)
      ensures this.transId == transId && this.ns == ns && next == null && prev == null && txCount == 0
    {
      this.transId, this.ns := transId, ns;
      next, prev, txCount, reissueCount, transmitMe := null, null, 0, 0, false;
    }
  }

  function After<T>(rs: seq<T>, i: nat): T
    requires i < |rs|
  {
    if i + 1 == |rs| then rs[0] else rs[i + 1]
  }

  function Prior<T>(rs: seq<T>, i: nat): T
    requires i < |rs|
  {
    if i == 0 then rs[|rs| - 1] else rs[i - 1]
  }

  // rs are linked in a circle.
  ghost predicate Ring(rs: seq<Request>)
    reads rs`next, rs`prev
  {
    && Distinct(rs)
    && forall i {:trigger rs[i].next} {:trigger rs[i].prev} :: 0 <= i < |rs| ==>
         rs[i].next == After(rs, i) && rs[i].prev == Prior(rs, i)
  }

  // The list that a head pointer stands for.
  ghost predicate IsList(head: Request?, rs: seq<Request>)
    reads rs`next, rs`prev
  {
    Ring(rs) && head == if rs == [] then null else rs[0]
  }

  lemma DistinctWithout<T>(rs: seq<T>, i: nat)
    requires Distinct(rs) && i < |rs|
    ensures Distinct(WithoutAt(rs, i))
    ensures forall r :: r in WithoutAt(rs, i) <==> r in rs && r != rs[i]
  {
    forall r | r in rs && r != rs[i]
      ensures r in WithoutAt(rs, i)
    {
      var j :| 0 <= j < |rs| && rs[j] == r;
      assert WithoutAt(rs, i)[if j < i then j else j - 1] == r;
    }
  }

  lemma DistinctMore<T>(rs: seq<T>, r: T)
    requires Distinct(rs) && r !in rs
    ensures Distinct(rs + [r])
  {
  }

  lemma DistinctAt<T>(rs: seq<T>, k: nat)
    requires Distinct(rs) && k < |rs|
    ensures forall i :: 0 <= i < |rs| && i != k ==> rs[i] != rs[k]
  {
  }

  // evdns_request_insert: at the tail.
  method RequestInsert(req: Request, head: Request?, ghost rs: seq<Request>) returns (head': Request?)
    requires IsList(head, rs) && req !in rs
    modifies req`next, req`prev, rs`next, rs`prev
    ensures IsList(head', rs + [req])
  {
    hide Distinct;
    DistinctMore(rs, req);
    if head == null {
      req.next, req.prev := req, req;
      return req;
    }
    DistinctAt(rs, 0);
    DistinctAt(rs, |rs| - 1);
    req.prev := head.prev;
    req.prev.next := req;
    req.next := head;
    head.prev := req;
    head' := head;
    ghost var qs := rs + [req];
    forall i | 0 <= i < |qs|
      ensures qs[i].next == After(qs, i) && qs[i].prev == Prior(qs, i)
    {
      assert i < |rs| ==> qs[i] == rs[i];
    }
  }

  // evdns_request_remove.
  method RequestRemove(req: Request, head: Request?, ghost rs: seq<Request>, ghost i: nat) returns (head': Request?)
    requires IsList(head, rs) && i < |rs| && req == rs[i]
    modifies rs`next, rs`prev
    ensures IsList(head', WithoutAt(rs, i)) && req.next == req.prev == null
  {
    hide Distinct;
    DistinctAt(rs, i);
    DistinctAt(rs, if i + 1 == |rs| then 0 else i + 1);
    DistinctAt(rs, if i == 0 then |rs| - 1 else i - 1);
    DistinctWithout(rs, i);
    assert req.next == After(rs, i) && req.prev == Prior(rs, i);
    ghost var qs := WithoutAt(rs, i);
    head' := head;
    if req.next == req {
      assert |rs| == 1 && qs == [];
      head' := null;
    } else {
      req.next.prev := req.prev;
      req.prev.next := req.next;
      if head == req {
        head' := req.next;
      }
    }
    req.next, req.prev := null, null;
    forall j | 0 <= j < |qs|
      ensures qs[j].next == After(qs, j) && qs[j].prev == Prior(qs, j)
    {
      assert qs[j] == if j < i then rs[j] else rs[j + 1];
    }
  }

  ghost predicate ServerRing(ss: seq<Server>)
    reads ss`next, ss`prev
  {
    && Distinct(ss)
    && forall i {:trigger ss[i].next} {:trigger ss[i].prev} :: 0 <= i < |ss| ==>
         ss[i].next == After(ss, i) && ss[i].prev == Prior(ss, i)
  }

  // The same circle seen from the k-th server on.
  function Turned<T>(ss: seq<T>, k: nat): (ts: seq<T>)
    requires k <= |ss|
    ensures |ts| == |ss| && forall i :: 0 <= i < |ts| ==> ts[i] == if i < |ss| - k then ss[i + k] else ss[i + k - |ss|]
  {
    ss[k..] + ss[..k]
  }

  lemma TurnedSame<T>(ss: seq<T>, k: nat)
    requires k <= |ss|
    ensures forall s :: s in Turned(ss, k) <==> s in ss
  {
  }

  lemma RingTurned(ss: seq<Server>, k: nat)
    requires ServerRing(ss) && k <= |ss|
    ensures ServerRing(Turned(ss, k))
  {
    hide Turned;
    var ts := Turned(ss, k);
    DistinctTurned(ss, k);
    forall i | 0 <= i < |ts|
      ensures ts[i].next == After(ts, i) && ts[i].prev == Prior(ts, i)
    {
      var j := if i < |ss| - k then i + k else i + k - |ss|;
      assert ts[i] == ss[j] && ss[j].next == After(ss, j) && ss[j].prev == Prior(ss, j);
    }
  }

  lemma DistinctTurned<T>(ss: seq<T>, k: nat)
    requires Distinct(ss) && k <= |ss|
    ensures Distinct(Turned(ss, k))
  {
  }

  // The part of evdns_nameserver_add_impl_ that links a server: it comes second.
  method ServerInsert(ns: Server, head: Server?, ghost ss: seq<Server>) returns (head': Server, ghost ts: seq<Server>)
    requires ServerRing(ss) && ns !in ss && head == if ss == [] then null else ss[0]
    modifies ns`next, ns`prev, ss`next, ss`prev
    ensures ts == (if ss == [] then [ns] else [ss[0], ns] + ss[1..]) && ServerRing(ts) && head' == ts[0]
  {
    ts := if ss == [] then [ns] else [ss[0], ns] + ss[1..];
    if head == null {
      ns.next, ns.prev := ns, ns;
      return ns, ts;
    }
    hide Distinct;
    DistinctAt(ss, 0);
    DistinctAt(ss, if |ss| == 1 then 0 else 1);
    DistinctSecond(ss, ns);
    ns.next := head.next;
    ns.prev := head;
    head.next := ns;
    ns.next.prev := ns;
    head' := head;
    forall i | 0 <= i < |ts|
      ensures ts[i].next == After(ts, i) && ts[i].prev == Prior(ts, i)
    {
      assert ts[i] == if i == 0 then ss[0] else if i == 1 then ns else ss[i - 1];
    }
  }

  lemma DistinctSecond<T>(ss: seq<T>, ns: T)
    requires Distinct(ss) && ns !in ss && ss != []
    ensures Distinct([ss[0], ns] + ss[1..])
  {
  }
}
