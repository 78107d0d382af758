/**
  JSON values as they are built in memory: a graph of nodes, where a node may be in more than one
  container and even, by mistake, within itself (common/jansson/value.c and common/jansson/dump.c).
  */
module JsonGraphs {
  import opened Pieces
  import opened Utf
  import opened JsonTokens
  import opened JsonValues
  import R = JsonRoundTrip

  datatype Content =
    | NullNode
    | TrueNode
    | FalseNode
    | IntegerNode(value: int)
    | StringNode(text: Bytes)
    | ArrayNode(elems: seq<Node>)
    | ObjectNode(slots: seq<Slot>)

  // The slots of an object are in the order of insertion.
  datatype Slot = Slot(key: Bytes, node: Node)

  // json_t. Only arrays and objects are marked as visited.
  class Node {
    var content: Content
    var visited: bool

    constructor (content: Content)
      ensures this.content == content && !visited
    {
      this.content, visited := content, false;
    }
  }

  type Graph = map<Node, Content>

  predicate Container(c: Content) {
    c.ArrayNode? || c.ObjectNode?
  }

  ghost predicate Child(c: Content, older m: Node) {
    match c
    case ArrayNode(elems) => m in elems
    case ObjectNode(slots) => exists i :: 0 <= i < |slots| && slots[i].node == m
    case _ => false
  }

  // What the functions that build values make sure of. json_object_set_new_nocheck takes any key.
  ghost predicate Proper(c: Content) {
    match c
    case IntegerNode(value) => INT_MIN <= value <= INT_MAX
    case ObjectNode(slots) =>
      && (forall i :: 0 <= i < |slots| ==> 0 !in slots[i].key)
      && (forall i, j :: 0 <= i < j < |slots| ==> slots[i].key != slots[j].key)
    case _ => true
  }

  ghost predicate WellBuilt(g: Graph) {
    && (forall n :: n in g ==> Proper(g[n]))
    && (forall n, m :: n in g && Child(g[n], m) ==> m in g)
  }

  // strcmp.
  predicate Before(a: Bytes, b: Bytes) {
    b != [] && (a == [] || a[0] < b[0] || (a[0] == b[0] && Before(a[1..], b[1..])))
  }

  function Insert(s: Slot, slots: seq<Slot>): (r: seq<Slot>)
    ensures multiset(r) == multiset(slots) + multiset{s}
  {
    if slots == [] || !Before(slots[0].key, s.key) then [s] + slots
    else
      assert slots == [slots[0]] + slots[1..];
      [slots[0]] + Insert(s, slots[1..])
  }

  // qsort with compare_keys.
  function Sorted(slots: seq<Slot>): (r: seq<Slot>)
    ensures multiset(r) == multiset(slots)
  {
    if slots == [] then []
    else
      assert slots == [slots[0]] + slots[1..];
      Insert(slots[0], Sorted(slots[1..]))
  }

  // The slots in the order in which they are printed.
  function Order(slots: seq<Slot>, sort: bool): (r: seq<Slot>)
    ensures multiset(r) == multiset(slots)
  {
    if sort then Sorted(slots) else slots
  }

  // v is the value that node n of a graph stands for, as a tree with valid strings. There is none
  // if n is within itself, or if an invalid string is in it.
  ghost predicate Shows(g: Graph, n: Node, v: Json, sort: bool)
    decreases v
  {
    && n in g
    && match g[n]
       case NullNode => v == JNull
       case TrueNode => v == JTrue
       case FalseNode => v == JFalse
       case IntegerNode(value) => v == JInteger(value)
       case StringNode(text) => v == JString(text) && Valid(text)
       case ArrayNode(elems) =>
         && v.JArray? && |v.elems| == |elems|
         && forall i :: 0 <= i < |elems| ==> Shows(g, elems[i], v.elems[i], sort)
       case ObjectNode(slots) =>
         var order := Order(slots, sort);
         && v.JObject? && |v.members| == |order|
         && forall i :: 0 <= i < |order| ==>
                          v.members[i].key == order[i].key && Shows(g, order[i].node, v.members[i].value, sort)
  }

  lemma InOrder(slots: seq<Slot>, sort: bool, i: nat)
    requires i < |Order(slots, sort)|
    ensures exists j :: 0 <= j < |slots| && slots[j] == Order(slots, sort)[i]
  {
    assert Order(slots, sort)[i] in multiset(Order(slots, sort));
  }

  lemma OrderHas(slots: seq<Slot>, sort: bool, j: nat)
    requires j < |slots|
    ensures exists i :: 0 <= i < |Order(slots, sort)| && Order(slots, sort)[i] == slots[j]
  {
    assert slots[j] in multiset(Order(slots, sort));
  }

  // A node stands for one value at most.
  lemma {:induction false} ShowsOne(g: Graph, n: Node, v: Json, w: Json, sort: bool)
    requires Shows(g, n, v, sort) && Shows(g, n, w, sort)
    ensures v == w
    decreases v
  {
    hide Order;
    if g[n].ArrayNode? {
      forall i | 0 <= i < |v.elems|
        ensures v.elems[i] == w.elems[i]
      {
        ShowsOne(g, g[n].elems[i], v.elems[i], w.elems[i], sort);
      }
      assert v.elems == w.elems;
    } else if g[n].ObjectNode? {
      forall i | 0 <= i < |v.members|
        ensures v.members[i] == w.members[i]
      {
        ShowsOne(g, Order(g[n].slots, sort)[i].node, v.members[i].value, w.members[i].value, sort);
      }
      assert v.members == w.members;
    }
  }

  // The part of v that a child stands for.
  lemma ChildShows(g: Graph, n: Node, v: Json, sort: bool, m: Node) returns (w: Json)
    requires Shows(g, n, v, sort) && Child(g[n], m)
    ensures Shows(g, m, w, sort) && (v decreases to w)
  {
    hide Order;
    if g[n].ArrayNode? {
      var i :| 0 <= i < |g[n].elems| && g[n].elems[i] == m;
      w := v.elems[i];
    } else {
      var slots := g[n].slots;
      var j :| 0 <= j < |slots| && slots[j].node == m;
      OrderHas(slots, sort, j);
      var i :| 0 <= i < |Order(slots, sort)| && Order(slots, sort)[i] == slots[j];
      w := v.members[i].value;
    }
  }

  // Each node is a child of the one before.
  ghost predicate Path(g: Graph, p: seq<Node>) {
    && (forall i :: 0 <= i < |p| ==> p[i] in g)
    && (forall i :: 0 < i < |p| ==> Child(g[p[i - 1]], p[i]))
  }

  // A path that comes back to one of its nodes.
  ghost predicate Lasso(g: Graph, p: seq<Node>) {
    Path(g, p) && exists i :: 0 <= i < |p| - 1 && p[i] == p[|p| - 1]
  }

  // A path to a string that is not valid.
  ghost predicate LeadsToBadString(g: Graph, p: seq<Node>) {
    Path(g, p) && p != [] && g[p[|p| - 1]].StringNode? && !Valid(g[p[|p| - 1]].text)
  }

  lemma PathStep(g: Graph, p: seq<Node>)
    requires Path(g, p) && |p| > 1
    ensures Path(g, p[1..]) && Child(g[p[0]], p[1])
  {
  }

  // What is within itself stands for no value: a value has no part that is as large as itself.
  lemma {:induction false} NoLasso(g: Graph, p: seq<Node>, v: Json, sort: bool)
    requires Lasso(g, p) && Shows(g, p[0], v, sort)
    ensures false
    decreases v
  {
    hide Shows;
    var k := |p| - 1;
    var i :| 0 <= i < k && p[i] == p[k];
    PathStep(g, p);
    var w := ChildShows(g, p[0], v, sort, p[1]);
    if i > 0 {
      assert p[1..][i - 1] == p[1..][k - 1];
      NoLasso(g, p[1..], w, sort);
    } else {
      var q := p[1..] + [p[1]];
      assert q[0] == q[k] && q[k - 1] == p[0];
      NoLasso(g, q, w, sort);
    }
  }

  lemma {:induction false} NoBadString(g: Graph, p: seq<Node>, v: Json, sort: bool)
    requires LeadsToBadString(g, p) && Shows(g, p[0], v, sort)
    ensures false
    decreases v
  {
    if |p| > 1 {
      PathStep(g, p);
      hide Shows;
      var w := ChildShows(g, p[0], v, sort, p[1]);
      NoBadString(g, p[1..], w, sort);
    }
  }

  lemma {:induction false} ShowsPrintable(g: Graph, n: Node, v: Json, sort: bool)
    requires WellBuilt(g) && Shows(g, n, v, sort)
    ensures Printable(v) && (R.Sound(v) <==> KeysValid(v))
    decreases v
  {
    hide Order;
    assert Proper(g[n]);
    if g[n].ArrayNode? {
      forall i | 0 <= i < |v.elems|
        ensures Printable(v.elems[i]) && (R.Sound(v.elems[i]) <==> KeysValid(v.elems[i]))
      {
        ShowsPrintable(g, g[n].elems[i], v.elems[i], sort);
      }
    } else if g[n].ObjectNode? {
      forall i | 0 <= i < |v.members|
        ensures 0 !in v.members[i].key && Printable(v.members[i].value)
        ensures R.Sound(v.members[i].value) <==> KeysValid(v.members[i].value)
      {
        InOrder(g[n].slots, sort, i);
        ShowsPrintable(g, Order(g[n].slots, sort)[i].node, v.members[i].value, sort);
      }
      OrderUnique(g[n].slots, sort);
    }
  }

  ghost predicate UniqueKeys(slots: seq<Slot>) {
    forall i, j :: 0 <= i < j < |slots| ==> slots[i].key != slots[j].key
  }

  lemma OrderUnique(slots: seq<Slot>, sort: bool)
    requires UniqueKeys(slots)
    ensures UniqueKeys(Order(slots, sort))
  {
    hide Order;
    var r := Order(slots, sort);
    forall i, j | 0 <= i < j < |r|
      ensures r[i].key != r[j].key
    {
      InOrder(slots, sort, i);
      InOrder(slots, sort, j);
      if r[i].key == r[j].key {
        assert r[i] == r[j];
        TwiceThere(r, i, j);
        OnceThere(slots, r[i]);
      }
    }
  }

  lemma TwiceThere(r: seq<Slot>, i: nat, j: nat)
    requires i < j < |r| && r[i] == r[j]
    ensures multiset(r)[r[i]] >= 2
  {
    assert r == r[..j] + r[j..] && r[..j][i] == r[i] && r[j..][0] == r[i];
    assert multiset(r) == multiset(r[..j]) + multiset(r[j..]);
    assert r[i] in multiset(r[..j]) && r[i] in multiset(r[j..]);
  }

  lemma {:induction false} OnceThere(slots: seq<Slot>, s: Slot)
    requires UniqueKeys(slots)
    ensures multiset(slots)[s] <= 1
  {
    if slots != [] {
      OnceThere(slots[1..], s);
      assert slots == [slots[0]] + slots[1..];
      if slots[0] == s {
        assert s !in slots[1..];
      }
    }
  }

  // Equal as JSON values: the order of members does not matter.
  ghost predicate Same(v: Json, w: Json)
    decreases v
  {
    match v
    case JArray(elems) => w.JArray? && |w.elems| == |elems| && forall i :: 0 <= i < |elems| ==> Same(elems[i], w.elems[i])
    case JObject(members) =>
      && w.JObject? && |w.members| == |members|
      && forall i :: 0 <= i < |members| ==> Counterpart(v, i, w)
    case _ => v == w
  }

  ghost predicate Counterpart(v: Json, i: nat, w: Json)
    requires v.JObject? && w.JObject? && i < |v.members|
    decreases v, 0
  {
    exists j :: 0 <= j < |w.members| && w.members[j].key == v.members[i].key && Same(v.members[i].value, w.members[j].value)
  }

  // Keys in ascending order in every object.
  ghost predicate Ascending(v: Json) {
    match v
    case JArray(elems) => forall i :: 0 <= i < |elems| ==> Ascending(elems[i])
    case JObject(members) =>
      && (forall i :: 0 <= i < |members| ==> Ascending(members[i].value))
      && (forall i, j :: 0 <= i < j < |members| ==> Before(members[i].key, members[j].key))
    case _ => true
  }

  // JSON_SORT_KEYS changes the order of members and nothing else.
  lemma {:induction false} SortReorders(g: Graph, n: Node, v: Json, w: Json)
    requires Shows(g, n, v, true) && Shows(g, n, w, false)
    ensures Same(v, w)
    decreases v
  {
    hide Sorted;
    if g[n].ArrayNode? {
      forall i | 0 <= i < |v.elems|
        ensures Same(v.elems[i], w.elems[i])
      {
        SortReorders(g, g[n].elems[i], v.elems[i], w.elems[i]);
      }
    } else if g[n].ObjectNode? {
      var slots := g[n].slots;
      forall i | 0 <= i < |v.members|
        ensures Counterpart(v, i, w)
      {
        InOrder(slots, true, i);
        var j :| 0 <= j < |slots| && slots[j] == Order(slots, true)[i];
        SortReorders(g, slots[j].node, v.members[i].value, w.members[j].value);
      }
      assert |multiset(Order(slots, true))| == |multiset(slots)|;
    }
  }

  lemma {:induction false} BeforeTotal(a: Bytes, b: Bytes)
    ensures a == b || Before(a, b) || Before(b, a)
    ensures !(Before(a, b) && Before(b, a))
  {
    if a != [] && b != [] && a[0] == b[0] {
      BeforeTotal(a[1..], b[1..]);
      if a[1..] == b[1..] {
        assert a == [a[0]] + a[1..] && b == [b[0]] + b[1..];
      }
    }
  }

  lemma {:induction false} BeforeTransitive(a: Bytes, b: Bytes, c: Bytes)
    requires Before(a, b) && Before(b, c)
    ensures Before(a, c)
  {
    if a != [] && a[0] == b[0] == c[0] {
      BeforeTransitive(a[1..], b[1..], c[1..]);
    }
  }

  ghost predicate InAscent(slots: seq<Slot>) {
    forall i, j :: 0 <= i < j < |slots| ==> Before(slots[i].key, slots[j].key)
  }

  lemma {:induction false} InsertAscends(s: Slot, slots: seq<Slot>)
    requires InAscent(slots) && forall x <- slots :: x.key != s.key
    ensures InAscent(Insert(s, slots))
  {
    hide Before;
    if slots != [] {
      assert slots[0] in slots;
      BeforeTotal(slots[0].key, s.key);
      var r := Insert(s, slots);
      if Before(slots[0].key, s.key) {
        InsertAscends(s, slots[1..]);
        forall j | 0 < j < |r|
          ensures Before(slots[0].key, r[j].key)
        {
          assert r[j] in multiset(r[1..]);
          assert r[j] == s || r[j] in slots[1..];
        }
      } else {
        forall j | 0 < j < |r|
          ensures Before(s.key, r[j].key)
        {
          if j > 1 {
            BeforeTransitive(s.key, slots[0].key, slots[j - 1].key);
          }
        }
      }
    }
  }

  lemma {:induction false} SortedAscends(slots: seq<Slot>)
    requires UniqueKeys(slots)
    ensures InAscent(Sorted(slots))
  {
    if slots != [] {
      SortedAscends(slots[1..]);
      forall x | x in Sorted(slots[1..])
        ensures x.key != slots[0].key
      {
        assert x in multiset(slots[1..]);
        var j :| 0 <= j < |slots[1..]| && slots[1..][j] == x;
        assert slots[j + 1] == x;
      }
      InsertAscends(slots[0], Sorted(slots[1..]));
    }
  }

  lemma {:induction false} SortAscends(g: Graph, n: Node, v: Json)
    requires WellBuilt(g) && Shows(g, n, v, true)
    ensures Ascending(v)
    decreases v
  {
    hide Sorted, Before;
    assert Proper(g[n]);
    if g[n].ArrayNode? {
      forall i | 0 <= i < |v.elems|
        ensures Ascending(v.elems[i])
      {
        SortAscends(g, g[n].elems[i], v.elems[i]);
      }
    } else if g[n].ObjectNode? {
      SortedAscends(g[n].slots);
      forall i | 0 <= i < |v.members|
        ensures Ascending(v.members[i].value)
      {
        SortAscends(g, Order(g[n].slots, true)[i].node, v.members[i].value);
      }
    }
  }
}
