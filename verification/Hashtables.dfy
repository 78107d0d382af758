/**
  jansson's hash table: one circular list holds the pairs of all buckets, each bucket as one stretch
  of it, and a second one keeps the order of insertion (common/jansson/hashtable.c).
  */
module Hashtables {
  import opened Sequences
  import opened Options
  import opened Entries
  import opened HashLists

  const INITIAL_HASHTABLE_ORDER: nat := 3

  // hashsize.
  function HashSize(order: nat): (n: nat)
    ensures n > 0
  {
    if order == 0 then 1 else 2 * HashSize(order - 1)
  }

  // The bucket of a hash.
  function IndexOf(hash: nat, n: nat): (k: nat)
    requires n > 0
    ensures k < n
  {
    hash % n
  }

  // hashmask.
  function HashMask(order: nat): nat {
    HashSize(order) - 1
  }

  // The bits that two numbers have in common, from the lowest on.
  function And(a: nat, b: nat): nat
    decreases a
  {
    if a == 0 then 0 else (if a % 2 == 1 && b % 2 == 1 then 1 else 0) + 2 * And(a / 2, b / 2)
  }

  lemma {:induction false} AndNothing(a: nat)
    ensures And(a, 0) == 0
    decreases a
  {
    if a > 0 {
      AndNothing(a / 2);
    }
  }

  lemma HalfRemainder(a: nat, n: nat)
    requires n > 0
    ensures a % (2 * n) == a % 2 + 2 * (a / 2 % n)
  {
    var q, r := a / 2 / n, a / 2 % n;
    assert a == 2 * (q * n + r) + a % 2;
    assert 2 * (q * n + r) == q * (2 * n) + 2 * r;
    assert 0 <= 2 * r + a % 2 < 2 * n;
    QuotientUnique(a, 2 * n, q, 2 * r + a % 2);
  }

  lemma QuotientUnique(a: nat, n: nat, q: nat, r: nat)
    requires n > 0 && a == q * n + r && r < n
    ensures a % n == r
  {
    var p := a / n;
    var t := a % n;
    assert a == p * n + t && t < n;
    if p < q {
      Multiples(q, p, n);
    } else if p > q {
      Multiples(p, q, n);
    }
  }

  lemma Multiples(p: nat, q: nat, n: nat)
    requires p > q
    ensures p * n >= q * n + n
  {
    var d := p - q - 1;
    assert p * n == q * n + n + d * n;
  }

  // Masking a hash is taking its remainder by the number of buckets.
  lemma {:induction false} MaskIsRemainder(hash: nat, order: nat)
    ensures And(hash, HashMask(order)) == IndexOf(hash, HashSize(order))
    decreases order
  {
    if order == 0 {
      AndNothing(hash);
    } else {
      MaskIsRemainder(hash / 2, order - 1);
      var n := HashSize(order - 1);
      HalfRemainder(hash, n);
      assert HashMask(order) == 2 * (n - 1) + 1;
    }
  }

  // The pairs of a table as they stand in the list, and where each bucket begins and ends there.
  datatype Layout = Layout(pairs: seq<Pair>, lo: seq<nat>, hi: seq<nat>)

  // Each bucket is a stretch of the list with exactly the pairs that hash to it.
  ghost predicate Segments(l: Layout, n: nat) {
    match l
    case Layout(pairs, lo, hi) =>
      && n > 0 && |lo| == |hi| == n
      && (forall k {:trigger lo[k]} {:trigger hi[k]} :: 0 <= k < n ==> lo[k] <= hi[k] <= |pairs|)
      && (forall i :: 0 <= i < |pairs| ==> var k := IndexOf(pairs[i].hash, n); lo[k] <= i < hi[k])
      && (forall k, i {:trigger lo[k], pairs[i]} {:trigger hi[k], pairs[i]} ::
            0 <= k < n && lo[k] <= i < hi[k] ==> IndexOf(pairs[i].hash, n) == k)
  }

  // The layout of a table without pairs.
  function Blank(n: nat): Layout {
    Layout([], seq(n, i => 0), seq(n, i => 0))
  }

  lemma BlankSegments(n: nat)
    requires n > 0
    ensures Segments(Blank(n), n)
  {
  }

  // A pair at the end of the list, as the only one of bucket k.
  function AtEnd(l: Layout, k: nat, p: Pair): Layout
    requires k < |l.lo| == |l.hi|
  {
    Layout(l.pairs + [p], l.lo[k := |l.pairs|], l.hi[k := |l.pairs| + 1])
  }

  lemma AtEndSegments(l: Layout, n: nat, k: nat, p: Pair)
    requires Segments(l, n) && k < n && l.lo[k] == l.hi[k] && IndexOf(p.hash, n) == k
    ensures Segments(AtEnd(l, k, p), n)
  {
    hide IndexOf;
    var m := AtEnd(l, k, p);
    forall i | 0 <= i < |m.pairs|
      ensures var j := IndexOf(m.pairs[i].hash, n); m.lo[j] <= i < m.hi[j]
    {
      if i < |l.pairs| {
        assert m.pairs[i] == l.pairs[i];
      }
    }
    forall j, i | 0 <= j < n && m.lo[j] <= i < m.hi[j]
      ensures IndexOf(m.pairs[i].hash, n) == j
    {
      if j != k {
        assert l.lo[j] <= i < l.hi[j] && m.pairs[i] == l.pairs[i];
      }
    }
  }

  // Places behind a move up by one.
  function Up(xs: seq<nat>, a: nat): (ys: seq<nat>)
    ensures |ys| == |xs| && forall k :: 0 <= k < |ys| ==> ys[k] == if xs[k] > a then xs[k] + 1 else xs[k]
  {
    seq(|xs|, k requires 0 <= k < |xs| => if xs[k] > a then xs[k] + 1 else xs[k])
  }

  // Places behind a move down by one.
  function Down(xs: seq<nat>, a: nat): (ys: seq<nat>)
    ensures |ys| == |xs| && forall k :: 0 <= k < |ys| ==> ys[k] == if xs[k] > a then xs[k] - 1 else xs[k]
  {
    seq(|xs|, k requires 0 <= k < |xs| => if xs[k] > a then xs[k] - 1 else xs[k])
  }

  // A pair at place a, before the others of its bucket.
  function AtFront(l: Layout, a: nat, p: Pair): Layout
    requires a <= |l.pairs|
  {
    Layout(l.pairs[..a] + [p] + l.pairs[a..], Up(l.lo, a), Up(l.hi, a))
  }

  lemma AtFrontSegments(l: Layout, n: nat, k: nat, p: Pair)
    requires Segments(l, n) && k < n && l.lo[k] < l.hi[k] && IndexOf(p.hash, n) == k
    ensures Segments(AtFront(l, l.lo[k], p), n)
  {
    hide IndexOf;
    var a := l.lo[k];
    var m := AtFront(l, a, p);
    FrontPlaced(l, n, k, p);
    forall j, i | 0 <= j < n && m.lo[j] <= i < m.hi[j]
      ensures IndexOf(m.pairs[i].hash, n) == j
    {
      FrontOnly(l, n, k, p, j, i);
    }
  }

  // Each pair stands in the stretch of its bucket.
  lemma FrontPlaced(l: Layout, n: nat, k: nat, p: Pair)
    requires Segments(l, n) && k < n && l.lo[k] < l.hi[k] && IndexOf(p.hash, n) == k
    ensures var m := AtFront(l, l.lo[k], p);
            forall i :: 0 <= i < |m.pairs| ==> var j := IndexOf(m.pairs[i].hash, n); m.lo[j] <= i < m.hi[j]
  {
    hide IndexOf;
    var a := l.lo[k];
    var m := AtFront(l, a, p);
    assert IndexOf(l.pairs[a].hash, n) == k;
    forall i | 0 <= i < |m.pairs|
      ensures var j := IndexOf(m.pairs[i].hash, n); m.lo[j] <= i < m.hi[j]
    {
      var was := if i <= a then i else i - 1;
      if i != a {
        assert m.pairs[i] == l.pairs[was];
      }
    }
  }

  // Only the pairs of a bucket stand in its stretch.
  lemma FrontOnly(l: Layout, n: nat, k: nat, p: Pair, j: nat, i: nat)
    requires Segments(l, n) && k < n && l.lo[k] < l.hi[k] && IndexOf(p.hash, n) == k && j < n
    requires AtFront(l, l.lo[k], p).lo[j] <= i < AtFront(l, l.lo[k], p).hi[j]
    ensures i <= |l.pairs| && IndexOf(AtFront(l, l.lo[k], p).pairs[i].hash, n) == j
  {
    hide IndexOf;
    var a := l.lo[k];
    var m := AtFront(l, a, p);
    assert IndexOf(l.pairs[a].hash, n) == k;
    var was := if i <= a then i else i - 1;
    if i != a {
      assert l.lo[j] <= was < l.hi[j];
      assert m.pairs[i] == l.pairs[was];
    } else {
      assert l.lo[j] <= a < l.hi[j];
    }
  }

  // Without the pair at place x.
  function Cut(l: Layout, x: nat): Layout
    requires x < |l.pairs|
  {
    Layout(l.pairs[..x] + l.pairs[x + 1..], Down(l.lo, x), Down(l.hi, x))
  }

  lemma CutSegments(l: Layout, n: nat, x: nat)
    requires Segments(l, n) && x < |l.pairs|
    ensures Segments(Cut(l, x), n)
  {
    hide IndexOf;
    var m := Cut(l, x);
    forall i | 0 <= i < |m.pairs|
      ensures var j := IndexOf(m.pairs[i].hash, n); m.lo[j] <= i < m.hi[j]
    {
      var was := if i < x then i else i + 1;
      assert m.pairs[i] == l.pairs[was];
    }
    forall j, i | 0 <= j < n && m.lo[j] <= i < m.hi[j]
      ensures IndexOf(m.pairs[i].hash, n) == j
    {
      var was := if i < x then i else i + 1;
      assert m.pairs[i] == l.pairs[was];
      assert l.lo[j] <= was < l.hi[j];
    }
  }

  datatype Bucket = Bucket(first: Node, last: Node)

  // The nodes of the list from its head on.
  function ListNodes(head: Node, ps: seq<Pair>): (ns: seq<Node>)
    ensures |ns| == |ps| + 1 && ns[0] == head && forall i :: 0 <= i < |ps| ==> ns[i + 1] == ps[i].list
  {
    [head] + seq(|ps|, i requires 0 <= i < |ps| => ps[i].list)
  }

  function OrderedNodes(head: Node, ps: seq<Pair>): (ns: seq<Node>)
    ensures |ns| == |ps| + 1 && ns[0] == head && forall i :: 0 <= i < |ps| ==> ns[i + 1] == ps[i].ordered
  {
    [head] + seq(|ps|, i requires 0 <= i < |ps| => ps[i].ordered)
  }

  lemma NodesInserted(head: Node, ps: seq<Pair>, a: nat, p: Pair)
    requires a <= |ps|
    ensures ListNodes(head, ps[..a] + [p] + ps[a..])
            == Inserted(ListNodes(head, ps), if a == |ps| then 0 else a + 1, p.list)
    ensures ps[..|ps|] + [p] + ps[|ps|..] == ps + [p]
  {
  }

  lemma NodesRemoved(head: Node, ps: seq<Pair>, x: nat)
    requires x < |ps|
    ensures ListNodes(head, ps[..x] + ps[x + 1..]) == Removed(ListNodes(head, ps), x + 1)
    ensures OrderedNodes(head, ps[..x] + ps[x + 1..]) == Removed(OrderedNodes(head, ps), x + 1)
  {
  }

  lemma OrderedInserted(head: Node, ps: seq<Pair>, p: Pair)
    ensures OrderedNodes(head, ps + [p]) == Inserted(OrderedNodes(head, ps), 0, p.ordered)
  {
  }

  // What first and last of bucket k are; of an empty bucket both are the head of the list.
  function BucketOf(head: Node, l: Layout, k: nat): Bucket {
    if k < |l.lo| && k < |l.hi| && l.lo[k] < l.hi[k] <= |l.pairs| then
      Bucket(l.pairs[l.lo[k]].list, l.pairs[l.hi[k] - 1].list)
    else Bucket(head, head)
  }

  // The buckets are those of a layout.
  ghost predicate Placed(head: Node, buckets: seq<Bucket>, l: Layout) {
    match l
    case Layout(_, _, _) =>
      Segments(l, |buckets|) && forall k :: 0 <= k < |buckets| ==> buckets[k] == BucketOf(head, l, k)
  }

  // The nodes of a pair lead back to it.
  ghost predicate Held(ps: seq<Pair>)
    reads (set p | p in ps :: p.list)`holder, (set p | p in ps :: p.ordered)`holder
  {
    forall p <- ps :: p.list.holder == p && p.ordered.holder == p
  }

  ghost function PairSet(ps: seq<Pair>): set<Pair> {
    set p | p in ps
  }

  ghost function NodeSet(ns: seq<Node>): set<Node> {
    set n | n in ns
  }

  // ps with one more pair somewhere.
  ghost predicate SamePlus(qs: seq<Pair>, ps: seq<Pair>, p: Pair) {
    |qs| == |ps| + 1 && (forall q <- qs :: q in ps || q == p) && (forall q <- ps :: q in qs) && p in qs
  }

  // Two orders of the same pairs.
  ghost predicate SamePairs(ps: seq<Pair>, qs: seq<Pair>) {
    |ps| == |qs| && (forall p <- ps :: p in qs) && (forall q <- qs :: q in ps)
  }

  lemma PlacedAtEnd(head: Node, buckets: seq<Bucket>, l: Layout, k: nat, p: Pair)
    requires Placed(head, buckets, l) && k < |buckets| && k == IndexOf(p.hash, |buckets|)
    requires |l.lo| == |l.hi| == |buckets| && l.lo[k] == l.hi[k]
    ensures Placed(head, buckets[k := Bucket(p.list, p.list)], AtEnd(l, k, p))
    ensures SamePlus(AtEnd(l, k, p).pairs, l.pairs, p)
  {
    hide IndexOf;
    AtEndSegments(l, |buckets|, k, p);
  }

  lemma FrontElsewhere(head: Node, n: nat, l: Layout, k: nat, j: nat, p: Pair)
    requires Segments(l, n) && k < n && j < n && j != k && l.lo[k] < l.hi[k]
    ensures l.lo[k] <= |l.pairs| && BucketOf(head, AtFront(l, l.lo[k], p), j) == BucketOf(head, l, j)
  {
    hide IndexOf;
    var a := l.lo[k];
    assert IndexOf(l.pairs[a].hash, n) == k;
    assert !(l.lo[j] <= a < l.hi[j]);
  }

  lemma PlacedAtFront(head: Node, buckets: seq<Bucket>, l: Layout, k: nat, p: Pair)
    requires Placed(head, buckets, l) && k < |buckets| && k == IndexOf(p.hash, |buckets|)
    requires |l.lo| == |l.hi| == |buckets| && l.lo[k] < l.hi[k] <= |l.pairs|
    ensures buckets[k].first == l.pairs[l.lo[k]].list
    ensures Placed(head, buckets[k := buckets[k].(first := p.list)], AtFront(l, l.lo[k], p))
    ensures SamePlus(AtFront(l, l.lo[k], p).pairs, l.pairs, p)
  {
    hide IndexOf, Segments;
    AtFrontSegments(l, |buckets|, k, p);
    SplitSame(l.pairs, l.lo[k], p);
    forall j | 0 <= j < |buckets| && j != k
      ensures BucketOf(head, AtFront(l, l.lo[k], p), j) == BucketOf(head, l, j)
    {
      FrontElsewhere(head, |buckets|, l, k, j, p);
    }
  }

  // The bucket of the pair at place x without that pair.
  lemma PlacedCut(head: Node, buckets: seq<Bucket>, l: Layout, x: nat, k: nat)
    requires Placed(head, buckets, l) && x < |l.pairs| && k < |buckets| && k == IndexOf(l.pairs[x].hash, |buckets|)
    ensures |l.lo| == |l.hi| == |buckets| && l.lo[k] <= x < l.hi[k] <= |l.pairs|
    ensures var b := Bucket(if x > l.lo[k] then buckets[k].first else if x + 1 < l.hi[k] then l.pairs[x + 1].list else head,
                            if x + 1 < l.hi[k] then buckets[k].last else if x > l.lo[k] then l.pairs[x - 1].list else head);
            Placed(head, buckets[k := b], Cut(l, x))
  {
    hide IndexOf, Segments;
    CutSegments(l, |buckets|, x);
    SegmentAt(l, |buckets|, x);
    forall j | 0 <= j < |buckets| && j != k
      ensures BucketOf(head, Cut(l, x), j) == BucketOf(head, l, j)
    {
      CutElsewhere(head, |buckets|, l, x, j);
    }
  }

  lemma SegmentAt(l: Layout, n: nat, x: nat)
    requires Segments(l, n) && x < |l.pairs|
    ensures |l.lo| == |l.hi| == n
    ensures var k := IndexOf(l.pairs[x].hash, n); l.lo[k] <= x < l.hi[k] <= |l.pairs|
  {
  }

  lemma CutElsewhere(head: Node, n: nat, l: Layout, x: nat, j: nat)
    requires Segments(l, n) && x < |l.pairs| && j < n && j != IndexOf(l.pairs[x].hash, n)
    ensures BucketOf(head, Cut(l, x), j) == BucketOf(head, l, j)
  {
    hide IndexOf;
    assert !(l.lo[j] <= x < l.hi[j]);
  }

  lemma SplitSame(ps: seq<Pair>, a: nat, p: Pair)
    requires a <= |ps|
    ensures SamePlus(ps[..a] + [p] + ps[a..], ps, p)
  {
    assert ps == ps[..a] + ps[a..];
  }

  // While the pairs of a list are inserted again: the next one is not in the new list yet.
  lemma NotYet(head: Node, olds: seq<Pair>, m: nat, ps: seq<Pair>)
    requires Distinct(ListNodes(head, olds)) && m < |olds| && SamePairs(ps, olds[..m]) && Held(olds)
    ensures olds[m].list.holder == olds[m]
    ensures forall i :: m <= i < |olds| ==> olds[i].list !in ListNodes(head, ps)
    ensures forall i :: m < i < |olds| ==> olds[i].list != olds[m].list
    ensures forall n <- ListNodes(head, ps) :: n in ListNodes(head, olds)
    ensures olds[m].list in ListNodes(head, olds)
  {
    var ns := ListNodes(head, olds);
    assert ns[m + 1] == olds[m].list;
    forall n | n in ListNodes(head, ps)
      ensures n in ns && forall i :: m <= i < |olds| ==> n != olds[i].list
    {
      var j :| 0 <= j < |ps| + 1 && ListNodes(head, ps)[j] == n;
      if j > 0 {
        assert ps[j - 1] in ps;
        var q :| 0 <= q < m && olds[..m][q] == ps[j - 1];
        assert ns[q + 1] == n;
      } else {
        assert ns[0] == n;
      }
    }
    assert forall i :: m <= i < |olds| ==> ns[i + 1] == olds[i].list;
  }

  lemma OneMore(olds: seq<Pair>, m: nat, ps: seq<Pair>, qs: seq<Pair>)
    requires m < |olds| && SamePairs(ps, olds[..m]) && SamePlus(qs, ps, olds[m])
    ensures SamePairs(qs, olds[..m + 1])
  {
    assert olds[..m + 1] == olds[..m] + [olds[m]];
  }

  lemma NotHead(head: Node, olds: seq<Pair>, m: nat)
    requires Distinct(ListNodes(head, olds)) && m <= |olds|
    ensures m < |olds| ==> olds[m].list != head
    ensures m == |olds| ==> olds[..m] == olds
  {
  }

  // The node after that of pair i.
  function Following(head: Node, ps: seq<Pair>, i: nat): Node {
    if i < |ps| then ps[i].list else head
  }

  // The nodes from place m on are still linked one after the other.
  ghost predicate Pending(head: Node, ps: seq<Pair>, m: nat)
    reads (set p | p in ps :: p.list)`next
  {
    forall i {:trigger ps[i].list.next} :: m <= i < |ps| ==> ps[i].list.next == Following(head, ps, i + 1)
  }

  ghost function EntriesOf(ps: seq<Pair>): (es: seq<Entry>)
    reads ps`value
    ensures |es| == |ps| && forall i :: 0 <= i < |ps| ==> es[i] == Entry(ps[i].key, ps[i].value)
  {
    if ps == [] then []
    else EntriesOf(ps[..|ps| - 1]) + [Entry(ps[|ps| - 1].key, ps[|ps| - 1].value)]
  }

  lemma EntriesWithout(ps: seq<Pair>, y: nat)
    requires y < |ps|
    ensures EntriesOf(ps[..y] + ps[y + 1..]) == EntriesOf(ps)[..y] + EntriesOf(ps)[y + 1..]
  {
    hide EntriesOf;
  }

  // Pairs with different keys and the hashes of these.
  ghost predicate Known(ps: seq<Pair>, hashStr: Key -> nat) {
    && (forall p <- ps :: p.hash == hashStr(p.key))
    && (forall i, j :: 0 <= i < j < |ps| ==> ps[i].key != ps[j].key)
  }

  ghost predicate Separate(ns: seq<Node>, ms: seq<Node>) {
    forall n <- ns :: n !in ms
  }

  lemma HeldPlus(qs: seq<Pair>, p: Pair)
    requires Held(qs) && p.list.holder == p && p.ordered.holder == p
    ensures Held(qs + [p])
  {
  }

  // A table with one more pair.
  lemma PlusWhole(ps: seq<Pair>, ps': seq<Pair>, qs: seq<Pair>, p: Pair, hashStr: Key -> nat)
    requires SamePlus(ps', ps, p) && SamePairs(ps, qs) && Known(qs, hashStr)
    requires p.hash == hashStr(p.key) && forall q <- qs :: q.key != p.key
    ensures SamePairs(ps', qs + [p]) && Known(qs + [p], hashStr)
  {
    assert p in qs + [p] && forall q <- qs :: q in qs + [p];
  }

  // A table without one pair.
  lemma CutWhole(head: Node, orderedHead: Node, ps: seq<Pair>, qs: seq<Pair>, x: nat, y: nat, hashStr: Key -> nat)
    requires SamePairs(ps, qs) && Known(qs, hashStr) && x < |ps| && y < |qs| && ps[x] == qs[y]
    requires Distinct(ListNodes(head, ps)) && Separate(ListNodes(head, ps), OrderedNodes(orderedHead, qs))
    ensures var ps', qs' := ps[..x] + ps[x + 1..], qs[..y] + qs[y + 1..];
            && SamePairs(ps', qs') && Known(qs', hashStr)
            && Separate(ListNodes(head, ps'), OrderedNodes(orderedHead, qs'))
            && (forall p <- qs' :: p in qs)
  {
    hide ListNodes, OrderedNodes, Distinct;
    PairsDiffer(head, ps, x);
    KnownDiffer(qs, y, hashStr);
    WithoutOne(ps, x);
    WithoutOne(qs, y);
    KnownWithout(qs, y, hashStr);
    SeparateWithout(head, orderedHead, ps, qs, x, y);
    var ps', qs' := ps[..x] + ps[x + 1..], qs[..y] + qs[y + 1..];
    assert forall p <- ps' :: p in ps && p != ps[x];
    assert forall p <- qs' :: p in qs && p != qs[y];
    assert SamePairs(ps', qs');
  }

  lemma KnownDiffer(qs: seq<Pair>, y: nat, hashStr: Key -> nat)
    requires Known(qs, hashStr) && y < |qs|
    ensures forall i :: 0 <= i < |qs| && i != y ==> qs[i] != qs[y]
  {
  }

  lemma KnownWithout(qs: seq<Pair>, y: nat, hashStr: Key -> nat)
    requires Known(qs, hashStr) && y < |qs|
    ensures Known(qs[..y] + qs[y + 1..], hashStr)
  {
    var rs := qs[..y] + qs[y + 1..];
    assert forall j :: 0 <= j < |rs| ==> rs[j] == qs[if j < y then j else j + 1];
  }

  lemma SeparateWithout(head: Node, orderedHead: Node, ps: seq<Pair>, qs: seq<Pair>, x: nat, y: nat)
    requires x < |ps| && y < |qs| && Separate(ListNodes(head, ps), OrderedNodes(orderedHead, qs))
    ensures Separate(ListNodes(head, ps[..x] + ps[x + 1..]), OrderedNodes(orderedHead, qs[..y] + qs[y + 1..]))
  {
    NodesRemoved(head, ps, x);
    NodesRemoved(orderedHead, qs, y);
    hide ListNodes, OrderedNodes;
    RemovedFrom(ListNodes(head, ps), x + 1);
    RemovedFrom(OrderedNodes(orderedHead, qs), y + 1);
  }

  lemma SeparateCut(head: Node, ps: seq<Pair>, x: nat, ms: seq<Node>)
    requires x < |ps| && Separate(ListNodes(head, ps), ms)
    ensures Separate(ListNodes(head, ps[..x] + ps[x + 1..]), ms)
  {
    NodesRemoved(head, ps, x);
    hide ListNodes;
    RemovedFrom(ListNodes(head, ps), x + 1);
  }

  lemma SeparatePlus(head: Node, orderedHead: Node, ps: seq<Pair>, ps': seq<Pair>, qs: seq<Pair>, p: Pair)
    requires SamePlus(ps', ps, p) && Separate(ListNodes(head, ps), OrderedNodes(orderedHead, qs))
    requires p.list !in OrderedNodes(orderedHead, qs) && p.ordered !in ListNodes(head, ps) && p.list != p.ordered
    ensures Separate(ListNodes(head, ps'), OrderedNodes(orderedHead, qs)) && p.ordered !in ListNodes(head, ps')
    ensures Separate(ListNodes(head, ps'), OrderedNodes(orderedHead, qs + [p]))
  {
    OrderedInserted(orderedHead, qs, p);
    forall n | n in ListNodes(head, ps')
      ensures n in ListNodes(head, ps) || n == p.list
    {
      var i :| 0 <= i < |ps'| + 1 && ListNodes(head, ps')[i] == n;
      if i == 0 {
        assert n == ListNodes(head, ps)[0];
      } else {
        var q := ps'[i - 1];
        assert q in ps';
        if q != p {
          var j :| 0 <= j < |ps| && ps[j] == q;
          assert ListNodes(head, ps)[j + 1] == n;
        }
      }
    }
  }

  lemma SeparateSame(head: Node, ps: seq<Pair>, ps': seq<Pair>, ms: seq<Node>)
    requires SamePairs(ps', ps)
    ensures NodeSet(ListNodes(head, ps')) == NodeSet(ListNodes(head, ps))
    ensures Separate(ListNodes(head, ps), ms) ==> Separate(ListNodes(head, ps'), ms)
  {
    NodesWithin(head, ps, ps');
    NodesWithin(head, ps', ps);
  }

  lemma NodesWithin(head: Node, ps: seq<Pair>, ps': seq<Pair>)
    requires forall p <- ps' :: p in ps
    ensures forall n <- ListNodes(head, ps') :: n in ListNodes(head, ps)
  {
    forall n | n in ListNodes(head, ps')
      ensures n in ListNodes(head, ps)
    {
      var i :| 0 <= i < |ps'| + 1 && ListNodes(head, ps')[i] == n;
      if i == 0 {
        assert n == ListNodes(head, ps)[0];
      } else {
        assert ps'[i - 1] in ps';
        var j :| 0 <= j < |ps| && ps[j] == ps'[i - 1];
        assert ListNodes(head, ps)[j + 1] == n;
      }
    }
  }

  lemma BlankPlaced(head: Node, buckets: seq<Bucket>)
    requires |buckets| > 0 && forall b <- buckets :: b == Bucket(head, head)
    ensures Placed(head, buckets, Blank(|buckets|))
  {
    BlankSegments(|buckets|);
    hide Segments;
    assert forall k :: 0 <= k < |buckets| ==> buckets[k] in buckets;
  }

  lemma RingOfOne(head: Node)
    requires head.next == head && head.prev == head
    ensures Ring(ListNodes(head, [])) && Ring(OrderedNodes(head, []))
  {
  }

  lemma PairsDiffer(head: Node, ps: seq<Pair>, x: nat)
    requires Distinct(ListNodes(head, ps)) && x < |ps|
    ensures forall i :: 0 <= i < |ps| && i != x ==> ps[i] != ps[x]
  {
    DistinctAt(ListNodes(head, ps), x + 1);
    assert forall i :: 0 <= i < |ps| ==> ListNodes(head, ps)[i + 1] == ps[i].list;
  }

  lemma WithoutOne(ps: seq<Pair>, x: nat)
    requires x < |ps| && forall i :: 0 <= i < |ps| && i != x ==> ps[i] != ps[x]
    ensures forall p :: p in ps[..x] + ps[x + 1..] <==> p in ps && p != ps[x]
  {
    var qs := ps[..x] + ps[x + 1..];
    forall p | p in ps && p != ps[x]
      ensures p in qs
    {
      var i :| 0 <= i < |ps| && ps[i] == p;
      assert qs[if i < x then i else i - 1] == p;
    }
  }

  class Hashtable {
    var size: nat
    var order: nat
    var buckets: seq<Bucket>
    const list: Node
    const ordered: Node
    // hashlittle on the key with the seed of the process.
    const hashStr: Key -> nat
    // Whether an allocation may fail.
    const scarce: bool

    ghost var layout: Layout
    // The pairs in the order of insertion.
    ghost var inserted: seq<Pair>

    // The list and the buckets agree.
    ghost predicate Listed()
      reads this`buckets, this`layout, ListNodes(list, layout.pairs)`next, ListNodes(list, layout.pairs)`prev
    {
      match layout
      case Layout(pairs, _, _) => Placed(list, buckets, layout) && Ring(ListNodes(list, pairs))
    }

    // The rest of what belongs to a table: the list of the order of insertion has the same pairs,
    // with different keys, and there are no more of them than buckets.
    ghost predicate Whole()
      reads this
    {
      match layout
      case Layout(pairs, _, _) =>
        && size == |inserted| <= |buckets| == HashSize(order)
        && SamePairs(pairs, inserted) && Known(inserted, hashStr)
        && Separate(ListNodes(list, pairs), OrderedNodes(ordered, inserted))
    }

    ghost predicate InOrder()
      reads this`inserted, OrderedNodes(ordered, inserted)`next, OrderedNodes(ordered, inserted)`prev
    {
      Ring(OrderedNodes(ordered, inserted))
    }

    // What a method other than the constructor may change: the links of the pairs there are.
    ghost function Links(): set<Node>
      reads this
    {
      NodeSet(ListNodes(list, layout.pairs)) + NodeSet(OrderedNodes(ordered, inserted))
    }

    ghost predicate Valid()
      reads this, Links(), (set p | p in inserted :: p.list)`holder, (set p | p in inserted :: p.ordered)`holder
    {
      Listed() && InOrder() && Held(inserted) && Whole()
    }

    // The keys and values in the order of insertion.
    ghost function Entries(): seq<Entry>
      reads this`inserted, inserted`value
    {
      EntriesOf(inserted)
    }

    // A link is a head or belongs to a pair of the table.
    lemma LinksFrom()
      requires Valid()
      ensures forall n <- Links() ::
                n == list || n == ordered || exists p :: p in inserted && (n == p.list || n == p.ordered)
    {
      hide Ring, Segments, Placed;
      var ns, ms := ListNodes(list, layout.pairs), OrderedNodes(ordered, inserted);
      forall n | n in Links()
        ensures n == list || n == ordered || exists p :: p in inserted && (n == p.list || n == p.ordered)
      {
        if n in ns {
          var i :| 0 <= i < |ns| && ns[i] == n;
          if i > 0 {
            assert layout.pairs[i - 1] in layout.pairs && n == layout.pairs[i - 1].list;
          }
        } else {
          var i :| 0 <= i < |ms| && ms[i] == n;
          if i > 0 {
            assert inserted[i - 1] in inserted && n == inserted[i - 1].ordered;
          }
        }
      }
    }

    // hashtable_init.
    constructor (hashStr: Key -> nat, scarce: bool)
      ensures Valid() && Entries() == [] && fresh(list) && fresh(ordered) && inserted == []
      ensures this.scarce == scarce && this.hashStr == hashStr
    {
      var head := new Node();
      var orderedHead := new Node();
      list, ordered, this.hashStr, this.scarce := head, orderedHead, hashStr, scarce;
      size, order := 0, INITIAL_HASHTABLE_ORDER;
      buckets := seq(HashSize(INITIAL_HASHTABLE_ORDER), i => Bucket(head, head));
      layout, inserted := Blank(HashSize(INITIAL_HASHTABLE_ORDER)), [];
      new;
      BlankSegments(HashSize(INITIAL_HASHTABLE_ORDER));
      hide Segments, HashSize;
    }

    // bucket_is_empty.
    function BucketIsEmpty(bucket: Bucket): bool {
      bucket.first == list && bucket.first == bucket.last
    }

    lemma BucketAt(k: nat)
      requires Listed() && k < |buckets|
      ensures |buckets| == |layout.lo| == |layout.hi| && layout.lo[k] <= layout.hi[k] <= |layout.pairs|
      ensures buckets[k] == BucketOf(list, layout, k)
      ensures BucketIsEmpty(buckets[k]) <==> layout.lo[k] == layout.hi[k]
    {
      DistinctAt(ListNodes(list, layout.pairs), 0);
      hide Distinct;
    }

    // insert_to_bucket.
    method InsertToBucket(k: nat, p: Pair)
      requires Listed() && k < |buckets| && k == IndexOf(p.hash, |buckets|) && p.list !in ListNodes(list, layout.pairs)
      modifies this`buckets, this`layout, p.list`next, p.list`prev
      modifies NodeSet(ListNodes(list, layout.pairs))`next, NodeSet(ListNodes(list, layout.pairs))`prev
      ensures Listed() && |buckets| == old(|buckets|)
      ensures SamePlus(layout.pairs, old(layout.pairs), p)
    {
      hide Distinct, Segments, ListNodes, IndexOf;
      var bucket := buckets[k];
      BucketAt(k);
      if BucketIsEmpty(bucket) {
        InsertEmpty(k, p);
      } else {
        InsertFront(k, p);
      }
    }

    method InsertEmpty(k: nat, p: Pair)
      requires Listed() && k < |buckets| && k == IndexOf(p.hash, |buckets|) && p.list !in ListNodes(list, layout.pairs)
      requires |layout.lo| == |layout.hi| == |buckets| && layout.lo[k] == layout.hi[k]
      modifies this`buckets, this`layout, p.list`next, p.list`prev
      modifies NodeSet(ListNodes(list, layout.pairs))`next, NodeSet(ListNodes(list, layout.pairs))`prev
      ensures Listed() && layout == old(AtEnd(layout, k, p)) && |buckets| == old(|buckets|)
      ensures SamePlus(layout.pairs, old(layout.pairs), p)
    {
      hide Distinct, Segments, ListNodes, IndexOf;
      ghost var l := layout;
      NodesInserted(list, l.pairs, |l.pairs|, p);
      PlacedAtEnd(list, buckets, l, k, p);
      ListInsert(list, p.list, ListNodes(list, l.pairs), 0);
      buckets := buckets[k := Bucket(p.list, p.list)];
      layout := AtEnd(l, k, p);
    }

    method InsertFront(k: nat, p: Pair)
      requires Listed() && k < |buckets| && k == IndexOf(p.hash, |buckets|) && p.list !in ListNodes(list, layout.pairs)
      requires |layout.lo| == |layout.hi| == |buckets| && layout.lo[k] < layout.hi[k] <= |layout.pairs|
      modifies this`buckets, this`layout, p.list`next, p.list`prev
      modifies NodeSet(ListNodes(list, layout.pairs))`next, NodeSet(ListNodes(list, layout.pairs))`prev
      ensures Listed() && layout == old(AtFront(layout, layout.lo[k], p)) && |buckets| == old(|buckets|)
      ensures SamePlus(layout.pairs, old(layout.pairs), p)
    {
      hide Distinct, Segments, ListNodes, IndexOf;
      ghost var l := layout;
      ghost var a := l.lo[k];
      NodesInserted(list, l.pairs, a, p);
      PlacedAtFront(list, buckets, l, k, p);
      var bucket := buckets[k];
      ListInsert(bucket.first, p.list, ListNodes(list, l.pairs), a + 1);
      buckets := buckets[k := bucket.(first := p.list)];
      layout := AtFront(l, a, p);
    }

    // The node of a pair of bucket k, and its neighbours.
    lemma AtPlace(k: nat, x: nat)
      requires Listed() && k < |buckets| && x < |layout.pairs|
      requires |layout.lo| == |layout.hi| == |buckets| && layout.lo[k] <= x < layout.hi[k]
      ensures layout.hi[k] <= |layout.pairs|
      ensures var node := layout.pairs[x].list;
              && (buckets[k].first == node <==> x == layout.lo[k]) && (buckets[k].last == node <==> x == layout.hi[k] - 1)
              && node.next == (if x + 1 < |layout.pairs| then layout.pairs[x + 1].list else list)
              && node.prev == (if x > 0 then layout.pairs[x - 1].list else list)
    {
      var ns := ListNodes(list, layout.pairs);
      BucketAt(k);
      DistinctAt(ns, x + 1);
      hide Distinct, Segments;
      assert ns[x + 1].next == Around(ns, x + 2) && ns[x + 1].prev == Around(ns, x);
    }

    // hashtable_find_pair.
    method FindPair(k: nat, key: Key, hash: nat) returns (pair: Pair?, ghost x: nat)
      requires Listed() && Held(layout.pairs) && k < |buckets|
      ensures |layout.lo| == |layout.hi| == |buckets| && layout.hi[k] <= |layout.pairs|
      ensures pair != null ==>
                && layout.lo[k] <= x < layout.hi[k] && pair == layout.pairs[x]
                && pair.key == key && pair.hash == hash
      ensures pair == null ==>
                forall i :: layout.lo[k] <= i < layout.hi[k] ==>
                  layout.pairs[i].key != key || layout.pairs[i].hash != hash
    {
      hide Distinct, Segments, Ring, Placed, Hashtable.Listed;
      var bucket := buckets[k];
      BucketAt(k);
      x := layout.lo[k];
      if BucketIsEmpty(bucket) {
        return null, x;
      }
      AtPlace(k, x);
      var node := bucket.first;
      while true
        invariant Listed() && layout.lo[k] <= x < layout.hi[k] && node == layout.pairs[x].list
        invariant forall i :: layout.lo[k] <= i < x ==> layout.pairs[i].key != key || layout.pairs[i].hash != hash
        decreases layout.hi[k] - x
      {
        AtPlace(k, x);
        assert layout.pairs[x] in layout.pairs;
        pair := node.holder;
        if pair.hash == hash && pair.key == key {
          return;
        }
        if node == bucket.last {
          break;
        }
        node := node.next;
        x := x + 1;
      }
      pair := null;
    }

    // The new first and last of the bucket of a pair that is deleted.
    method Forget(k: nat, pair: Pair, ghost x: nat)
      requires Listed() && x < |layout.pairs| && pair == layout.pairs[x]
      requires k < |buckets| && k == IndexOf(pair.hash, |buckets|)
      modifies this`buckets
      ensures Placed(list, buckets, old(Cut(layout, x))) && |buckets| == old(|buckets|)
    {
      PlacedCut(list, buckets, layout, x, k);
      AtPlace(k, x);
      BucketAt(k);
      hide Distinct, Segments, IndexOf, Ring, Placed, Hashtable.Listed, Cut;
      var bucket := buckets[k];
      if pair.list == bucket.first && pair.list == bucket.last {
        buckets := buckets[k := Bucket(list, list)];
      } else if pair.list == bucket.first {
        buckets := buckets[k := bucket.(first := pair.list.next)];
      } else if pair.list == bucket.last {
        buckets := buckets[k := bucket.(last := pair.list.prev)];
      } else {
        assert buckets[k := bucket] == buckets;
      }
    }

    // The part of hashtable_do_del that takes a pair out of its bucket and out of the list.
    method RemoveFromBucket(k: nat, pair: Pair, ghost x: nat)
      requires Listed() && x < |layout.pairs| && pair == layout.pairs[x]
      requires k < |buckets| && k == IndexOf(pair.hash, |buckets|)
      modifies this`buckets, this`layout
      modifies NodeSet(ListNodes(list, layout.pairs))`next, NodeSet(ListNodes(list, layout.pairs))`prev
      ensures Listed() && layout == old(Cut(layout, x)) && |buckets| == old(|buckets|)
    {
      hide Distinct, Segments, IndexOf, Placed;
      ghost var ns := ListNodes(list, layout.pairs);
      Forget(k, pair, x);
      NodesRemoved(list, layout.pairs, x);
      assert ns[x + 1].next == Around(ns, x + 2) && ns[x + 1].prev == Around(ns, x);
      ListRemove(pair.list, ns, x + 1);
      layout := Cut(layout, x);
    }

    // One turn of the loop of hashtable_do_rehash.
    method ReinsertOne(p: Pair, ghost olds: seq<Pair>, ghost m: nat)
      requires Listed() && Held(olds) && Distinct(ListNodes(list, olds)) && m < |olds| && p == olds[m]
      requires SamePairs(layout.pairs, olds[..m]) && Pending(list, olds, m)
      modifies this`buckets, this`layout, NodeSet(ListNodes(list, olds))`next, NodeSet(ListNodes(list, olds))`prev
      ensures Listed() && |buckets| == old(|buckets|)
      ensures SamePairs(layout.pairs, olds[..m + 1]) && Pending(list, olds, m + 1)
    {
      hide Segments, Ring, Placed, Hashtable.Listed, Distinct, ListNodes;
      ghost var before := layout.pairs;
      NotYet(list, olds, m, before);
      HasBuckets();
      InsertToBucket(IndexOf(p.hash, |buckets|), p);
      OneMore(olds, m, before, layout.pairs);
    }

    lemma HasBuckets()
      requires Listed()
      ensures |buckets| > 0
    {
      hide Ring;
    }

    // The loop of hashtable_do_rehash.
    method Reinsert(node0: Node, ghost olds: seq<Pair>)
      requires Listed() && layout.pairs == [] && Held(olds) && Distinct(ListNodes(list, olds))
      requires node0 == Following(list, olds, 0) && Pending(list, olds, 0)
      modifies this`buckets, this`layout, NodeSet(ListNodes(list, olds))`next, NodeSet(ListNodes(list, olds))`prev
      ensures Listed() && |buckets| == old(|buckets|) && SamePairs(layout.pairs, olds)
    {
      hide Segments, Ring, Placed, Hashtable.Listed, Distinct, ListNodes;
      var node := node0;
      ghost var m := 0;
      assert olds[..0] == [];
      NotHead(list, olds, m);
      while node != list
        invariant m <= |olds| && node == Following(list, olds, m)
        invariant Listed() && |buckets| == old(|buckets|) && SamePairs(layout.pairs, olds[..m]) && Pending(list, olds, m)
        decreases |olds| - m
      {
        var next := node.next;
        assert olds[m] in olds;
        ReinsertOne(node.holder, olds, m);
        node, m := next, m + 1;
      }
      NotHead(list, olds, m);
    }

    // What a pair of the table is known to be.
    lemma Members()
      requires Valid()
      ensures Listed() && Held(layout.pairs) && |buckets| == HashSize(order) && size == |inserted|
      ensures forall p <- layout.pairs :: p.hash == hashStr(p.key)
      ensures Unique(EntriesOf(inserted)) && Distinct(ListNodes(list, layout.pairs))
    {
      hide Segments;
    }

    // A key whose bucket has no such pair is not in the table; otherwise the pair is known.
    lemma PairFound(key: Key, pair: Pair?, x: nat)
      requires Valid() && |layout.lo| == |layout.hi| == |buckets| > 0
      requires var k := IndexOf(hashStr(key), |buckets|);
               && layout.hi[k] <= |layout.pairs|
               && if pair != null then x < layout.hi[k] && pair == layout.pairs[x] && pair.key == key
                  else forall i :: layout.lo[k] <= i < layout.hi[k] ==>
                         layout.pairs[i].key != key || layout.pairs[i].hash != hashStr(key)
      ensures pair != null ==> Place(Entries(), key) < |inserted| && inserted[Place(Entries(), key)] == pair
      ensures pair == null ==> Place(Entries(), key) == |inserted|
    {
      hide Segments, Ring, ListNodes, OrderedNodes, Held, Known, Separate, EntriesOf, BucketOf, Unique;
      Members();
      hide Ring, Distinct, Place;
      if pair != null {
        assert layout.pairs[x] in layout.pairs;
        var y :| 0 <= y < |inserted| && inserted[y] == pair;
        PlaceIs(Entries(), key, y);
      } else {
        forall e | e in Entries()
          ensures e.key != key
        {
          var y :| 0 <= y < |inserted| && Entries()[y] == e;
          assert inserted[y] in inserted;
          var i :| 0 <= i < |layout.pairs| && layout.pairs[i] == inserted[y];
          assert layout.pairs[i] in layout.pairs;
          SegmentAt(layout, |buckets|, i);
        }
        PlaceIs(Entries(), key, |inserted|);
      }
    }

    twostate lemma StillValid()
      requires old(Valid()) && unchanged(this) && (forall n <- Links() :: unchanged(n))
      requires forall p <- inserted :: unchanged(p.list) && unchanged(p.ordered)
      ensures Valid()
    {
      hide Segments, Distinct, Placed;
      ghost var ns, ms := ListNodes(list, layout.pairs), OrderedNodes(ordered, inserted);
      assert forall i :: 0 <= i < |ns| ==> ns[i] in Links();
      assert forall i :: 0 <= i < |ms| ==> ms[i] in Links();
      assert forall i :: 0 <= i < |ns| ==> old(allocated(ns[i])) && unchanged(ns[i]);
      assert forall i :: 0 <= i < |ms| ==> old(allocated(ms[i])) && unchanged(ms[i]);
    }

    // How hashtable_get, hashtable_set, hashtable_del and hashtable_iter_at look for a key.
    method FindKey(key: Key) returns (k: nat, pair: Pair?, ghost x: nat)
      requires Valid()
      ensures Valid() && k == IndexOf(hashStr(key), |buckets|) < |buckets|
      ensures pair == null ==> Place(Entries(), key) == |inserted|
      ensures pair != null ==>
                && x < |layout.pairs| && pair == layout.pairs[x] && pair.hash == hashStr(key)
                && Place(Entries(), key) < |inserted| && inserted[Place(Entries(), key)] == pair
    {
      hide Ring, Distinct, Place, Segments, Placed, Hashtable.Listed;
      Members();
      var hash := hashStr(key);
      k := IndexOf(hash, HashSize(order));
      label before:
      pair, x := FindPair(k, key, hash);
      StillValid@before();
      PairFound(key, pair, x);
    }

    // hashtable_get.
    method Get(key: Key) returns (value: Option<Value>)
      requires Valid()
      ensures value == Lookup(Entries(), key)
    {
      hide Ring, Distinct, Place, Segments, Placed, Hashtable.Valid;
      var k, pair;
      ghost var x;
      k, pair, x := FindKey(key);
      value := if pair == null then None else Some(pair.value);
    }

    // The order of insertion does not depend on the links of the other list.
    twostate lemma StillInOrder()
      requires old(InOrder())
      requires inserted == old(inserted)
      requires forall n <- OrderedNodes(ordered, inserted) :: n.next == old(n.next) && n.prev == old(n.prev)
      ensures InOrder()
    {
      hide Distinct;
      ghost var ms := OrderedNodes(ordered, inserted);
      assert forall i :: 0 <= i < |ms| ==> ms[i] in ms;
    }

    method Unlist(k: nat, pair: Pair, ghost x: nat)
      requires Listed() && InOrder() && x < |layout.pairs| && pair == layout.pairs[x]
      requires Separate(ListNodes(list, layout.pairs), OrderedNodes(ordered, inserted))
      requires k < |buckets| && k == IndexOf(pair.hash, |buckets|)
      modifies this`buckets, this`layout
      modifies NodeSet(ListNodes(list, layout.pairs))`next, NodeSet(ListNodes(list, layout.pairs))`prev
      ensures Listed() && InOrder() && layout == old(Cut(layout, x)) && |buckets| == old(|buckets|)
    {
      hide Distinct, Segments, Placed, Ring, IndexOf, Hashtable.Listed, Hashtable.InOrder;
      ghost var ms := OrderedNodes(ordered, inserted);
      assert forall n <- ms :: n !in NodeSet(ListNodes(list, layout.pairs)) && allocated(n);
      RemoveFromBucket(k, pair, x);
      StillInOrder();
    }

    // The list does not depend on the links of the order of insertion.
    twostate lemma StillListed()
      requires old(Listed()) && layout == old(layout) && buckets == old(buckets)
      requires forall n <- ListNodes(list, layout.pairs) :: n.next == old(n.next) && n.prev == old(n.prev)
      ensures Listed()
    {
      hide Distinct, Placed;
      ghost var ns := ListNodes(list, layout.pairs);
      assert forall i :: 0 <= i < |ns| ==> ns[i] in ns;
    }

    method Unorder(pair: Pair, ghost y: nat)
      requires Listed() && InOrder() && y < |inserted| && pair == inserted[y]
      requires Separate(ListNodes(list, layout.pairs), OrderedNodes(ordered, inserted))
      modifies this`inserted
      modifies NodeSet(OrderedNodes(ordered, inserted))`next, NodeSet(OrderedNodes(ordered, inserted))`prev
      ensures Listed() && InOrder() && inserted == old(inserted[..y] + inserted[y + 1..])
    {
      hide Distinct, Segments, Placed, Ring, Hashtable.Listed;
      ghost var ms := OrderedNodes(ordered, inserted);
      assert forall n <- ListNodes(list, layout.pairs) :: n !in NodeSet(ms) && allocated(n);
      NodesRemoved(ordered, inserted, y);
      RingAt(ms, y + 1);
      ListRemove(pair.ordered, ms, y + 1);
      StillListed();
      inserted := inserted[..y] + inserted[y + 1..];
    }

    // hashtable_do_del after the pair is found.
    method DelPair(k: nat, pair: Pair, ghost x: nat, ghost y: nat)
      requires Valid() && x < |layout.pairs| && pair == layout.pairs[x] && y < |inserted| && pair == inserted[y]
      requires k < |buckets| && k == IndexOf(pair.hash, |buckets|)
      modifies this`size, this`buckets, this`layout, this`inserted, Links()`next, Links()`prev
      ensures Valid() && inserted == old(inserted[..y] + inserted[y + 1..])
    {
      hide Distinct, Segments, Placed, Ring, ListNodes, OrderedNodes, IndexOf, Hashtable.Listed, Hashtable.InOrder, EntriesOf;
      hide SamePairs, Known, Separate;
      Members();
      CutWhole(list, ordered, layout.pairs, inserted, x, y, hashStr);
      SeparateCut(list, layout.pairs, x, OrderedNodes(ordered, inserted));
      Unlist(k, pair, x);
      Unorder(pair, y);
      size := size - 1;
    }

    // insert_to_bucket, seen from the whole table.
    method Enlist(k: nat, p: Pair)
      requires Listed() && InOrder() && k < |buckets| && k == IndexOf(p.hash, |buckets|)
      requires Separate(ListNodes(list, layout.pairs), OrderedNodes(ordered, inserted))
      requires p.list !in ListNodes(list, layout.pairs) && p.list !in OrderedNodes(ordered, inserted)
      modifies this`buckets, this`layout, p.list`next, p.list`prev
      modifies NodeSet(ListNodes(list, layout.pairs))`next, NodeSet(ListNodes(list, layout.pairs))`prev
      ensures Listed() && InOrder() && |buckets| == old(|buckets|)
      ensures SamePlus(layout.pairs, old(layout.pairs), p)
    {
      hide Distinct, Segments, Placed, Ring, IndexOf, Hashtable.Listed, Hashtable.InOrder;
      ghost var ms := OrderedNodes(ordered, inserted);
      assert forall n <- ms :: n !in NodeSet(ListNodes(list, layout.pairs)) && n != p.list && allocated(n);
      InsertToBucket(k, p);
      StillInOrder();
    }

    // list_insert at the end of the order of insertion.
    method Enorder(p: Pair)
      requires Listed() && InOrder()
      requires Separate(ListNodes(list, layout.pairs), OrderedNodes(ordered, inserted))
      requires p.ordered !in ListNodes(list, layout.pairs) && p.ordered !in OrderedNodes(ordered, inserted)
      modifies this`inserted, p.ordered`next, p.ordered`prev
      modifies NodeSet(OrderedNodes(ordered, inserted))`next, NodeSet(OrderedNodes(ordered, inserted))`prev
      ensures Listed() && InOrder() && inserted == old(inserted) + [p]
    {
      hide Distinct, Segments, Placed, Ring, Hashtable.Listed;
      ghost var ms := OrderedNodes(ordered, inserted);
      assert forall n <- ListNodes(list, layout.pairs) :: n !in NodeSet(ms) && n != p.ordered && allocated(n);
      OrderedInserted(ordered, inserted, p);
      RingAt(ms, 0);
      ListInsert(ordered, p.ordered, ms, 0);
      StillListed();
      inserted := inserted + [p];
    }

    // The end of hashtable_set for a key that is not in the table.
    method AddPair(k: nat, p: Pair)
      requires Valid() && k < |buckets| && k == IndexOf(p.hash, |buckets|) && size < |buckets|
      requires p.hash == hashStr(p.key) && forall q <- inserted :: q.key != p.key
      requires p.list.holder == p && p.ordered.holder == p && p.list != p.ordered
      requires p.list !in ListNodes(list, layout.pairs) && p.list !in OrderedNodes(ordered, inserted)
      requires p.ordered !in ListNodes(list, layout.pairs) && p.ordered !in OrderedNodes(ordered, inserted)
      modifies this`size, this`buckets, this`layout, this`inserted, Links()`next, Links()`prev
      modifies p.list`next, p.list`prev, p.ordered`next, p.ordered`prev
      ensures Valid() && inserted == old(inserted) + [p]
    {
      hide Distinct, Segments, Placed, Ring, ListNodes, OrderedNodes, IndexOf, Hashtable.Listed, Hashtable.InOrder;
      hide SamePairs, Known, SamePlus, Separate, Held;
      ghost var ps := layout.pairs;
      HeldPlus(inserted, p);
      Enlist(k, p);
      PlusWhole(ps, layout.pairs, inserted, p, hashStr);
      SeparatePlus(list, ordered, ps, layout.pairs, inserted, p);
      Enorder(p);
      size := size + 1;
    }

    // How the nodes of the list are linked.
    lemma Linked()
      requires Listed()
      ensures list.next == Following(list, layout.pairs, 0) && Pending(list, layout.pairs, 0)
      ensures forall i :: 0 <= i < |layout.pairs| ==> layout.pairs[i].list != list
    {
      hide Segments;
      var ns := ListNodes(list, layout.pairs);
      RingAt(ns, 0);
      forall i | 0 <= i < |layout.pairs|
        ensures layout.pairs[i].list.next == Following(list, layout.pairs, i + 1) && ns[i + 1] != ns[0]
      {
        RingAt(ns, i + 1);
      }
    }

    // The first part of hashtable_do_rehash: twice as many buckets, all empty.
    method StartOver() returns (node: Node)
      requires Listed() && |buckets| == HashSize(order)
      modifies this`order, this`buckets, this`layout, list`next, list`prev
      ensures Listed() && order == old(order) + 1 && |buckets| == HashSize(order) == 2 * old(|buckets|)
      ensures layout.pairs == []
      ensures node == Following(list, old(layout.pairs), 0) && Pending(list, old(layout.pairs), 0)
    {
      Linked();
      hide Segments, Ring, Distinct, ListNodes;
      order := order + 1;
      buckets := seq(HashSize(order), i => Bucket(list, list));
      node := list.next;
      list.next := list;
      list.prev := list;
      layout := Blank(HashSize(order));
      BlankPlaced(list, buckets);
      RingOfOne(list);
    }

    // The list with twice as many buckets.
    method Rebuild()
      requires Listed() && InOrder() && Held(layout.pairs) && |buckets| == HashSize(order)
      requires Separate(ListNodes(list, layout.pairs), OrderedNodes(ordered, inserted))
      requires Distinct(ListNodes(list, layout.pairs))
      modifies this`order, this`buckets, this`layout
      modifies NodeSet(ListNodes(list, layout.pairs))`next, NodeSet(ListNodes(list, layout.pairs))`prev
      ensures Listed() && InOrder() && |buckets| == HashSize(order) == 2 * old(|buckets|)
      ensures SamePairs(layout.pairs, old(layout.pairs))
    {
      hide Distinct, Segments, Placed, Ring, Hashtable.Listed, Hashtable.InOrder, HashSize;
      ghost var ps, ms := layout.pairs, OrderedNodes(ordered, inserted);
      assert forall n <- ms :: n !in NodeSet(ListNodes(list, ps)) && allocated(n);
      assert list in NodeSet(ListNodes(list, ps));
      var node := StartOver();
      Reinsert(node, ps);
      StillInOrder();
    }

    // hashtable_do_rehash.
    method Rehash() returns (r: int)
      requires Valid()
      modifies this`order, this`buckets, this`layout
      modifies NodeSet(ListNodes(list, layout.pairs))`next, NodeSet(ListNodes(list, layout.pairs))`prev
      ensures Valid() && (r == 0 || r == -1) && (!scarce ==> r == 0)
      ensures |buckets| == if r == 0 then 2 * old(|buckets|) else old(|buckets|)
      ensures SamePairs(layout.pairs, old(layout.pairs)) && Links() == old(Links())
    {
      hide Distinct, Segments, Placed, Ring, ListNodes, OrderedNodes, Hashtable.Listed, Hashtable.InOrder, HashSize;
      var found := true;
      if scarce {
        found := *;
      }
      if !found {
        return -1;
      }
      Members();
      SeparateSame(list, layout.pairs, layout.pairs, OrderedNodes(ordered, inserted));
      ghost var ps := layout.pairs;
      Rebuild();
      SeparateSame(list, ps, layout.pairs, OrderedNodes(ordered, inserted));
      return 0;
    }

    // Which pairs there can be after a call.
    twostate predicate Grown()
      reads this`inserted
    {
      forall p <- inserted :: p in old(inserted) || (fresh(p) && fresh(p.list) && fresh(p.ordered))
    }

    lemma KeyIsNew(key: Key)
      requires Place(Entries(), key) == |inserted|
      ensures forall q <- inserted :: q.key != key
    {
      forall q | q in inserted
        ensures q.key != key
      {
        var i :| 0 <= i < |inserted| && inserted[i] == q;
        assert Entries()[i].key == q.key;
      }
    }

    // A new value for the pair at place y.
    method SetValue(pair: Pair, value: Value, ghost y: nat)
      requires Valid() && y < |inserted| && pair == inserted[y]
      modifies pair`value
      ensures Valid() && |Entries()| == |old(Entries())|
      ensures Entries() == old(Entries())[y := Entry(pair.key, value)]
    {
      hide Distinct, Segments, Placed, Ring, Hashtable.Listed, Hashtable.InOrder, HashSize;
      assert forall i :: 0 <= i < |inserted| && i != y ==> inserted[i] != pair by {
        KnownDiffer(inserted, y, hashStr);
      }
      pair.value := value;
    }

    // A new pair that is not in the table yet.
    method FreshPair(key: Key, value: Value) returns (p: Pair)
      requires Valid()
      ensures Valid() && fresh(p) && fresh(p.list) && fresh(p.ordered) && p.list != p.ordered
      ensures p.hash == hashStr(key) && p.key == key && p.value == value && p.list.holder == p && p.ordered.holder == p
      ensures p.list !in ListNodes(list, layout.pairs) && p.list !in OrderedNodes(ordered, inserted)
      ensures p.ordered !in ListNodes(list, layout.pairs) && p.ordered !in OrderedNodes(ordered, inserted)
    {
      hide Distinct, Segments, Placed, Ring, IndexOf, Hashtable.Listed, Hashtable.InOrder, HashSize, Hashtable.Valid;
      label before:
      ghost var ns := ListNodes(list, layout.pairs) + OrderedNodes(ordered, inserted);
      assert forall n <- ns :: allocated(n);
      p := NewPair(hashStr(key), key, value);
      StillValid@before();
      assert forall n <- ns :: n != p.list && n != p.ordered;
      assert forall n <- ListNodes(list, layout.pairs) :: n in ns;
      assert forall n <- OrderedNodes(ordered, inserted) :: n in ns;
    }

    // A new pair at the end.
    method AddNew(k: nat, key: Key, value: Value) returns (r: int)
      requires Valid() && k < |buckets| && k == IndexOf(hashStr(key), |buckets|) && size < |buckets|
      requires Place(Entries(), key) == |inserted|
      modifies this`size, this`buckets, this`layout, this`inserted, Links()`next, Links()`prev
      ensures Valid() && Grown() && (r == 0 || r == -1) && (!scarce ==> r == 0)
      ensures Entries() == if r == 0 then old(Entries()) + [Entry(key, value)] else old(Entries())
    {
      hide Distinct, Segments, Placed, Ring, IndexOf, Hashtable.Listed, Hashtable.InOrder, HashSize, Hashtable.Valid, Place, EntriesOf;
      hide ListNodes, OrderedNodes, Hashtable.Links;
      var found := true;
      if scarce {
        found := *;
      }
      if !found {
        return -1;
      }
      KeyIsNew(key);
      var p := FreshPair(key, value);
      AddPair(k, p);
      r := 0;
    }

    // hashtable_set when there is room for one more pair.
    method SetRoomy(key: Key, value: Value) returns (r: int)
      requires Valid() && size < |buckets|
      modifies this`size, this`buckets, this`layout, this`inserted, Links()`next, Links()`prev
      modifies PairSet(inserted)`value
      ensures Valid() && Grown() && (r == 0 || r == -1) && (!scarce ==> r == 0)
      ensures Entries() == if r == 0 then Put(old(Entries()), key, value) else old(Entries())
    {
      hide Distinct, Segments, Placed, Ring, IndexOf, Hashtable.Listed, Hashtable.InOrder, Place;
      hide ListNodes, OrderedNodes, Hashtable.Links;
      var k, pair;
      ghost var x;
      k, pair, x := FindKey(key);
      if pair != null {
        SetValue(pair, value, Place(Entries(), key));
        r := 0;
      } else {
        r := AddNew(k, key, value);
      }
    }

    // hashtable_set: a key that is there keeps its place and gets another value, a new one comes
    // last. If there is no memory nothing changes but perhaps the number of buckets.
    method Set(key: Key, value: Value) returns (r: int)
      requires Valid()
      modifies this, Links()`next, Links()`prev, PairSet(inserted)`value
      ensures Valid() && Grown() && (r == 0 || r == -1) && (!scarce ==> r == 0)
      ensures Entries() == if r == 0 then Put(old(Entries()), key, value) else old(Entries())
    {
      hide Distinct, Segments, Placed, Ring, IndexOf, Hashtable.Listed, Hashtable.InOrder, Place, Known, EntriesOf, Hashtable.Entries, SamePairs;
      hide ListNodes, OrderedNodes;
      Members();
      if size >= HashSize(order) {
        var s := Rehash();
        if s != 0 {
          return -1;
        }
      }
      r := SetRoomy(key, value);
    }

    // hashtable_del.
    method Del(key: Key) returns (r: int)
      requires Valid()
      modifies this`size, this`buckets, this`layout, this`inserted, Links()`next, Links()`prev
      ensures Valid() && Grown()
      ensures r == if Place(old(Entries()), key) < |old(Entries())| then 0 else -1
      ensures Entries() == Without(old(Entries()), key)
    {
      hide Distinct, Segments, Placed, Ring, IndexOf, Hashtable.Listed, Hashtable.InOrder, Place;
      hide ListNodes, OrderedNodes, Hashtable.Links, Hashtable.Valid, EntriesOf;
      var k, pair;
      ghost var x;
      k, pair, x := FindKey(key);
      if pair == null {
        return -1;
      }
      ghost var ps := inserted;
      DelPair(k, pair, x, Place(Entries(), key));
      assert EntriesOf(ps) == old(Entries());
      EntriesWithout(ps, Place(old(Entries()), key));
      return 0;
    }

    // hashtable_clear: the number of buckets stays.
    method Clear()
      requires Valid()
      modifies this`size, this`buckets, this`layout, this`inserted, list`next, list`prev, ordered`next, ordered`prev
      ensures Valid() && Entries() == [] && inserted == []
    {
      hide Segments, Distinct;
      Members();
      assert list in ListNodes(list, layout.pairs) && ordered in OrderedNodes(ordered, inserted);
      hide Ring, ListNodes, OrderedNodes;
      buckets := seq(HashSize(order), i => Bucket(list, list));
      list.next, list.prev := list, list;
      ordered.next, ordered.prev := ordered, ordered;
      size := 0;
      layout, inserted := Blank(HashSize(order)), [];
      BlankPlaced(list, buckets);
      RingOfOne(list);
      RingOfOne(ordered);
    }

    // The node of the pair that was inserted as number i.
    ghost predicate IsAt(iter: Node?, i: nat)
      reads this`inserted
    {
      i <= |inserted| && iter == if i < |inserted| then inserted[i].ordered else null
    }

    lemma InsertedAt(i: nat)
      requires Valid() && i < |inserted|
      ensures inserted[i].ordered.holder == inserted[i]
      ensures inserted[i].ordered.next == (if i + 1 < |inserted| then inserted[i + 1].ordered else ordered)
      ensures inserted[i].ordered != ordered
    {
      hide Segments, Placed;
      RingAt(OrderedNodes(ordered, inserted), i + 1);
      DistinctAt(OrderedNodes(ordered, inserted), 0);
      assert inserted[i] in inserted;
    }

    // hashtable_iter_next from the node after which i pairs follow; from the head it is hashtable_iter.
    method IterNext(node: Node, ghost i: nat) returns (iter: Node?)
      requires Valid() && i <= |inserted| && node == if i == 0 then ordered else inserted[i - 1].ordered
      ensures IsAt(iter, i)
    {
      hide Segments, Placed, Distinct;
      RingAt(OrderedNodes(ordered, inserted), i);
      if i < |inserted| {
        InsertedAt(i);
      }
      if node.next == ordered {
        return null;
      }
      iter := node.next;
    }

    // hashtable_iter_at.
    method IterAt(key: Key) returns (iter: Node?)
      requires Valid()
      ensures IsAt(iter, Place(Entries(), key))
    {
      hide Distinct, Segments, Placed, Ring, IndexOf, Hashtable.Listed, Hashtable.InOrder, Place;
      hide ListNodes, OrderedNodes, Hashtable.Links;
      var k, pair;
      ghost var x;
      k, pair, x := FindKey(key);
      iter := if pair == null then null else pair.ordered;
    }

    // hashtable_iter_set.
    method IterSet(iter: Node, value: Value, ghost i: nat)
      requires Valid() && i < |inserted| && IsAt(iter, i)
      modifies PairSet(inserted)`value
      ensures Valid() && |old(Entries())| == |inserted|
      ensures Entries() == old(Entries())[i := Entry(inserted[i].key, value)]
    {
      InsertedAt(i);
      SetValue(iter.holder, value, i);
    }

    // A walk with hashtable_iter, hashtable_iter_next, hashtable_iter_key and hashtable_iter_value
    // sees the entries in the order of their insertion.
    method Walk() returns (es: seq<Entry>)
      requires Valid()
      ensures es == Entries()
    {
      hide Distinct, Segments, Placed, Ring, Hashtable.Listed, Hashtable.InOrder, Hashtable.Valid, EntriesOf;
      es := [];
      label before:
      var iter := IterNext(ordered, 0);
      StillValid@before();
      while iter != null
        invariant Valid() && |es| <= |inserted| && es == Entries()[..|es|] && IsAt(iter, |es|)
        decreases |inserted| - |es|
      {
        InsertedAt(|es|);
        es := es + [Entry(iter.holder.key, iter.holder.value)];
        label turn:
        iter := IterNext(iter, |es|);
        StillValid@turn();
      }
    }
  }

  method NewPair(hash: nat, key: Key, value: Value) returns (p: Pair)
    ensures fresh(p) && fresh(p.list) && fresh(p.ordered) && p.list != p.ordered
    ensures p.hash == hash && p.key == key && p.value == value && p.list.holder == p && p.ordered.holder == p
  {
    var node := new Node();
    var orderedNode := new Node();
    p := new Pair(node, orderedNode, hash, key, value);
    node.holder := p;
    orderedNode.holder := p;
  }
}
