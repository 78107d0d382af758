/**
  The circular doubly linked lists that hold the pairs of a hash table (common/jansson/hashtable.c).
  */
module HashLists {
  import opened Sequences
  import opened Entries

  // struct hashtable_list: the head of a list, or a part of the pair that holds it.
  class Node {
    var prev: Node
    var next: Node
    // The pair this node is a part of, which the source finds by container_of.
    var holder: Pair?

    // list_init.
    constructor ()
      ensures next == this && prev == this && holder == null
    {
      next, prev, holder := this, this, null;
    }
  }

  // struct hashtable_pair.
  class Pair {
    const list: Node
    const ordered: Node
    const hash: nat
    const key: Key
    var value: Value

    constructor (list: Node, ordered: Node, hash: nat, key: Key, value: Value)
      ensures this.list == list && this.ordered == ordered && this.hash == hash && this.key == key
      ensures this.value == value
    {
      this.list, this.ordered, this.hash, this.key, this.value := list, ordered, hash, key, value;
    }
  }

  lemma DistinctAt(ns: seq<Node>, k: nat)
    requires Distinct(ns) && k < |ns|
    ensures forall i :: 0 <= i < |ns| && i != k ==> ns[i] != ns[k]
  {
  }

  // The node at a place of the circle.
  function Around(ns: seq<Node>, i: int): Node
    requires |ns| > 0 && -1 <= i <= |ns|
  {
    if i == -1 then ns[|ns| - 1] else if i == |ns| then ns[0] else ns[i]
  }

  // ns are linked in a circle, from the head on.
  ghost predicate Ring(ns: seq<Node>)
    reads ns`next, ns`prev
  {
    && |ns| > 0 && Distinct(ns)
    && forall i {:trigger ns[i].next} {:trigger ns[i].prev} :: 0 <= i < |ns| ==>
         ns[i].next == Around(ns, i + 1) && ns[i].prev == Around(ns, i - 1)
  }

  lemma RingAt(ns: seq<Node>, p: nat)
    requires Ring(ns) && p < |ns|
    ensures ns[p].next == Around(ns, p + 1) && ns[p].next in ns
    ensures ns[p].prev == Around(ns, p - 1) && ns[p].prev in ns
  {
  }

  // A node before that at place p; the place of the head stands for the end.
  function Inserted(ns: seq<Node>, p: nat, n: Node): seq<Node>
    requires p < |ns|
  {
    if p == 0 then ns + [n] else ns[..p] + [n] + ns[p..]
  }

  function Removed(ns: seq<Node>, p: nat): seq<Node>
    requires p < |ns|
  {
    ns[..p] + ns[p + 1..]
  }

  // list_insert: node comes before list.
  method ListInsert(list: Node, node: Node, ghost ns: seq<Node>, ghost p: nat)
    requires Ring(ns) && p < |ns| && list == ns[p] && node !in ns
    modifies list`prev, list.prev`next, node`next, node`prev
    ensures Ring(Inserted(ns, p, node))
  {
    hide Distinct;
    DistinctAt(ns, p);
    DistinctAt(ns, if p == 0 then |ns| - 1 else p - 1);
    InsertedDistinct(ns, p, node);
    node.next := list;
    node.prev := list.prev;
    list.prev.next := node;
    list.prev := node;
    ghost var ms := Inserted(ns, p, node);
    ghost var q := if p == 0 then |ns| else p;
    forall i | 0 <= i < |ms|
      ensures ms[i].next == Around(ms, i + 1) && ms[i].prev == Around(ms, i - 1)
    {
      if i < q {
        assert ms[i] == ns[i];
      } else if i > q {
        assert ms[i] == ns[i - 1];
      }
    }
  }

  lemma InsertedDistinct(ns: seq<Node>, p: nat, n: Node)
    requires Distinct(ns) && p < |ns| && n !in ns
    ensures Distinct(Inserted(ns, p, n))
    ensures forall m :: m in Inserted(ns, p, n) <==> m in ns || m == n
  {
  }

  // list_remove.
  method ListRemove(list: Node, ghost ns: seq<Node>, ghost p: nat)
    requires Ring(ns) && 0 < p < |ns| && list == ns[p]
    modifies list.prev`next, list.next`prev
    ensures Ring(Removed(ns, p))
  {
    hide Distinct;
    DistinctAt(ns, p - 1);
    DistinctAt(ns, if p + 1 == |ns| then 0 else p + 1);
    RemovedDistinct(ns, p);
    list.prev.next := list.next;
    list.next.prev := list.prev;
    ghost var ms := Removed(ns, p);
    forall i | 0 <= i < |ms|
      ensures ms[i].next == Around(ms, i + 1) && ms[i].prev == Around(ms, i - 1)
    {
      if i < p {
        assert ms[i] == ns[i];
      } else {
        assert ms[i] == ns[i + 1];
      }
    }
  }

  lemma RemovedFrom(ns: seq<Node>, p: nat)
    requires p < |ns|
    ensures forall m <- Removed(ns, p) :: m in ns
  {
  }

  lemma RemovedDistinct(ns: seq<Node>, p: nat)
    requires Distinct(ns) && p < |ns|
    ensures Distinct(Removed(ns, p))
    ensures forall m :: m in Removed(ns, p) <==> m in ns && m != ns[p]
  {
    forall m | m in ns && m != ns[p]
      ensures m in Removed(ns, p)
    {
      var i :| 0 <= i < |ns| && ns[i] == m;
      assert Removed(ns, p)[if i < p then i else i - 1] == m;
    }
  }
}
