/**
  Printing JSON values (common/jansson/dump.c).
  */
module JsonDumper {
  import opened Options
  import opened Pieces
  import opened Utf
  import opened JsonTokens
  import opened JsonValues
  import opened JsonGraphs
  import JsonPrinter
  import JsonStrings
  import JsonGrammar
  import JsonParser
  import R = JsonRoundTrip

  // What the callback of the printer has got; it never refuses anything.
  class Sink {
    var out: Bytes

    constructor ()
      ensures out == []
    {
      out := [];
    }

    method Dump(b: Bytes)
      modifies this
      ensures out == old(out) + b
    {
      out := out + b;
    }
  }

  // sizeof whitespace - 1.
  const BLANKS_AT_ONCE: nat := 32

  // dump_indent.
  method DumpIndent(f: Format, depth: nat, space: bool, sink: Sink)
    modifies sink
    ensures sink.out == old(sink.out) + Indent(f, depth, space)
  {
    if f.indent > 0 {
      var left := depth * f.indent;
      sink.Dump([0x0A]);
      while left > 0
        invariant 0 <= left <= depth * f.indent
        invariant sink.out == old(sink.out) + ([0x0A] + Blanks(depth * f.indent - left))
      {
        var n := if left < BLANKS_AT_ONCE then left else BLANKS_AT_ONCE;
        sink.Dump(Blanks(n));
        left := left - n;
      }
    } else if space && !f.compact {
      sink.Dump([0x20]);
    }
  }

  // What is printed behind an element or a member.
  function Between(f: Format, depth: nat, last: bool): Bytes {
    if last then Indent(f, depth, false) else [COMMA] + Indent(f, depth + 1, true)
  }

  method DumpBetween(f: Format, depth: nat, last: bool, sink: Sink)
    modifies sink
    ensures sink.out == old(sink.out) + Between(f, depth, last)
  {
    hide Indent;
    if last {
      DumpIndent(f, depth, false, sink);
    } else {
      sink.Dump([COMMA]);
      DumpIndent(f, depth + 1, true, sink);
      assert old(sink.out) + [COMMA] + Indent(f, depth + 1, true) == old(sink.out) + ([COMMA] + Indent(f, depth + 1, true));
    }
  }

  // dump_string.
  method DumpText(s: Bytes, f: Format, sink: Sink) returns (ok: bool)
    modifies sink
    ensures ok <==> Valid(s)
    ensures sink.out == old(sink.out) + StringText(s, f.style)
  {
    var text;
    ok, text := JsonPrinter.DumpString(s, f.style);
    sink.Dump(text);
  }

  // The nodes of the graph in memory.
  ghost predicate InMemory(g: Graph)
    reads g.Keys
  {
    forall n :: n in g ==> n.content == g[n]
  }

  ghost predicate Marked(g: Graph, trail: seq<Node>)
    reads g.Keys
  {
    forall n :: n in g ==> (n.visited <==> n in trail)
  }

  // No marks but some of these.
  ghost predicate MarkedWithin(g: Graph, trail: seq<Node>)
    reads g.Keys
  {
    forall n :: n in g && n.visited ==> n in trail
  }

  ghost function Unvisited(g: Graph, trail: seq<Node>): set<Node> {
    set n | n in g && n !in trail
  }

  // A reason to fail: the path goes on from some nodes to one of itself, or to a bad string.
  ghost predicate Reason(g: Graph, trail: seq<Node>, p: seq<Node>) {
    trail <= p && trail != [] && (Lasso(g, p) || LeadsToBadString(g, p))
  }

  lemma ReasonBefore(g: Graph, trail: seq<Node>, m: Node, p: seq<Node>)
    requires Reason(g, trail + [m], p) && trail != []
    ensures Reason(g, trail, p)
  {
    hide Lasso, LeadsToBadString;
  }

  lemma PathOn(g: Graph, trail: seq<Node>, m: Node)
    requires Path(g, trail) && m in g && (trail != [] ==> Child(g[trail[|trail| - 1]], m))
    ensures Path(g, trail + [m])
  {
  }

  // What is printed of the first elements of an array of n elements.
  ghost function ElemsPrefix(vs: seq<Json>, f: Format, depth: nat, n: nat): Bytes
    requires forall v <- vs :: Printable(v)
  {
    if vs == [] then []
    else
      var last := vs[|vs| - 1];
      assert last in vs && forall v <- vs[..|vs| - 1] :: v in vs;
      ElemsPrefix(vs[..|vs| - 1], f, depth, n) + (Text(last, f, depth + 1) + Between(f, depth, |vs| == n))
  }

  ghost function MembersPrefix(ms: seq<Member>, f: Format, depth: nat, n: nat): Bytes
    requires forall m <- ms :: Printable(m.value)
  {
    if ms == [] then []
    else
      var last := ms[|ms| - 1];
      assert last in ms && forall m <- ms[..|ms| - 1] :: m in ms;
      MembersPrefix(ms[..|ms| - 1], f, depth, n)
      + (StringText(last.key, f.style) + Separator(f) + Text(last.value, f, depth + 1) + Between(f, depth, |ms| == n))
  }

  lemma {:induction false} ElemsPrefixIs(v: Json, f: Format, depth: nat, i: nat)
    requires v.JArray? && Printable(v) && i < |v.elems|
    ensures forall e <- v.elems[..i] :: Printable(e)
    ensures ElemsPrefix(v.elems[..i], f, depth, |v.elems|) + ElemsText(v, f, depth, i) == ElemsText(v, f, depth, 0)
  {
    hide Text, Indent;
    if i > 0 {
      ElemsPrefixIs(v, f, depth, i - 1);
      assert v.elems[..i][..i - 1] == v.elems[..i - 1];
      var a := ElemsPrefix(v.elems[..i - 1], f, depth, |v.elems|);
      var x := Text(v.elems[i - 1], f, depth + 1);
      var b := Between(f, depth, false);
      var r := ElemsText(v, f, depth, i);
      assert (a + (x + b)) + r == a + (x + (b + r));
    }
  }

  lemma ElemsWhole(v: Json, f: Format, depth: nat)
    requires v.JArray? && Printable(v) && v.elems != [] && forall e <- v.elems :: Printable(e)
    ensures ElemsPrefix(v.elems, f, depth, |v.elems|) + [CLOSE_ARRAY] == ElemsText(v, f, depth, 0)
  {
    hide Text, Indent;
    var k := |v.elems| - 1;
    ElemsPrefixIs(v, f, depth, k);
    var a := ElemsPrefix(v.elems[..k], f, depth, |v.elems|);
    var x := Text(v.elems[k], f, depth + 1);
    var b := Between(f, depth, true);
    assert ElemsText(v, f, depth, k + 1) == [];
    assert (a + (x + b)) + [CLOSE_ARRAY] == a + (x + ((b + [CLOSE_ARRAY]) + []));
  }

  lemma FrontPrintable(v: Json, i: nat)
    requires v.JObject? && Printable(v) && i <= |v.members|
    ensures forall m <- v.members[..i] :: Printable(m.value)
  {
    hide Valid;
    assert forall m <- v.members[..i] :: exists j :: 0 <= j < |v.members| && v.members[j] == m;
  }

  lemma Regrouped(a: Bytes, k: Bytes, s: Bytes, x: Bytes, b: Bytes, r: Bytes)
    ensures (a + (k + s + x + b)) + r == a + (k + (s + (x + (b + r))))
  {
  }

  lemma {:induction false} MembersPrefixIs(v: Json, f: Format, depth: nat, i: nat)
    requires v.JObject? && Printable(v) && i < |v.members|
    ensures forall m <- v.members[..i] :: Printable(m.value)
    ensures MembersPrefix(v.members[..i], f, depth, |v.members|) + MembersText(v, f, depth, i) == MembersText(v, f, depth, 0)
  {
    hide Printable;
    FrontPrintable(v, i);
    hide Text, Indent, StringText, Separator, Valid;
    if i > 0 {
      MembersPrefixIs(v, f, depth, i - 1);
      assert v.members[..i][..i - 1] == v.members[..i - 1];
      var m := v.members[i - 1];
      Regrouped(MembersPrefix(v.members[..i - 1], f, depth, |v.members|), StringText(m.key, f.style), Separator(f),
                Text(m.value, f, depth + 1), Between(f, depth, false), MembersText(v, f, depth, i));
    }
  }

  lemma MembersWhole(v: Json, f: Format, depth: nat)
    requires v.JObject? && Printable(v) && v.members != [] && forall m <- v.members :: Printable(m.value)
    ensures MembersPrefix(v.members, f, depth, |v.members|) + [CLOSE_OBJECT] == MembersText(v, f, depth, 0)
  {
    hide Text, Indent, StringText, Separator;
    var i := |v.members| - 1;
    MembersPrefixIs(v, f, depth, i);
    var m := v.members[i];
    var a := MembersPrefix(v.members[..i], f, depth, |v.members|);
    var k, s, x := StringText(m.key, f.style), Separator(f), Text(m.value, f, depth + 1);
    var b := Between(f, depth, true);
    assert MembersText(v, f, depth, i + 1) == [];
    assert (a + (k + s + x + b)) + [CLOSE_OBJECT] == a + (k + (s + (x + ((b + [CLOSE_OBJECT]) + []))));
  }

  // do_dump of a node that is in the nodes of the trail, one within the other, all of them marked.
  method DoDump(n: Node, f: Format, sort: bool, depth: nat, sink: Sink, ghost g: Graph, ghost trail: seq<Node>)
    returns (ok: bool, ghost v: Json, ghost bad: seq<Node>)
    requires WellBuilt(g) && InMemory(g) && Path(g, trail + [n]) && Marked(g, trail)
    modifies sink, g.Keys`visited
    ensures if ok then Marked(g, trail) else MarkedWithin(g, trail)
    ensures ok ==> Shows(g, n, v, sort) && Printable(v) && sink.out == old(sink.out) + Text(v, f, depth)
    ensures !ok ==> Reason(g, trail + [n], bad)
    decreases Unvisited(g, trail), 0
  {
    hide WellBuilt, Order, ElemsText, MembersText, Indent, Lasso, Path, Valid, StringText, IntegerText, Child;
    v, bad := JNull, trail + [n];
    InPath(g, trail, n);
    match n.content {
      case NullNode =>
        sink.Dump(NULL);
        ok := true;
      case TrueNode =>
        sink.Dump(TRUE);
        ok, v := true, JTrue;
      case FalseNode =>
        sink.Dump(FALSE);
        ok, v := true, JFalse;
      case IntegerNode(value) =>
        sink.Dump(IntegerText(value));
        ok, v := true, JInteger(value);
      case StringNode(text) =>
        ok := DumpText(text, f, sink);
        v := JString(text);
      case ArrayNode(elems) =>
        if n.visited {
          IsLasso(g, trail, n);
          n.visited := false;
          return false, v, bad;
        }
        n.visited := true;
        FewerUnvisited(g, trail, n);
        ok, v, bad := DumpArray(n, elems, f, sort, depth, sink, g, trail + [n]);
        n.visited := false;
      case ObjectNode(slots) =>
        if n.visited {
          IsLasso(g, trail, n);
          n.visited := false;
          return false, v, bad;
        }
        n.visited := true;
        FewerUnvisited(g, trail, n);
        ok, v, bad := DumpObject(n, slots, f, sort, depth, sink, g, trail + [n]);
        n.visited := false;
    }
  }

  lemma InPath(g: Graph, trail: seq<Node>, n: Node)
    requires Path(g, trail + [n])
    ensures n in g
  {
    assert (trail + [n])[|trail|] == n;
  }

  lemma IsLasso(g: Graph, trail: seq<Node>, n: Node)
    requires Path(g, trail + [n]) && n in trail
    ensures Lasso(g, trail + [n])
  {
    var i :| 0 <= i < |trail| && trail[i] == n;
    var p := trail + [n];
    assert p[i] == p[|p| - 1];
  }

  lemma FewerUnvisited(g: Graph, trail: seq<Node>, n: Node)
    requires n in g && n !in trail
    ensures Unvisited(g, trail + [n]) < Unvisited(g, trail)
  {
    assert n in Unvisited(g, trail) && n !in Unvisited(g, trail + [n]);
  }

  // do_dump for an array, without its mark.
  method DumpArray(n: Node, elems: seq<Node>, f: Format, sort: bool, depth: nat, sink: Sink, ghost g: Graph, ghost trail: seq<Node>)
    returns (ok: bool, ghost v: Json, ghost bad: seq<Node>)
    requires WellBuilt(g) && InMemory(g) && Marked(g, trail) && Path(g, trail)
    requires trail != [] && trail[|trail| - 1] == n && n in g && g[n] == ArrayNode(elems)
    modifies sink, g.Keys`visited
    ensures if ok then Marked(g, trail) else MarkedWithin(g, trail)
    ensures ok ==> Shows(g, n, v, sort) && Printable(v) && sink.out == old(sink.out) + Text(v, f, depth)
    ensures !ok ==> Reason(g, trail, bad)
    decreases Unvisited(g, trail), 2
  {
    hide WellBuilt, Reason, Path, Indent, ElemsText, ElemsPrefix, Shows, Printable, Text, Between, Container;
    sink.Dump([OPEN_ARRAY]);
    if |elems| == 0 {
      sink.Dump([CLOSE_ARRAY]);
      EmptyArray(g, n, f, sort, depth);
      assert old(sink.out) + [OPEN_ARRAY] + [CLOSE_ARRAY] == old(sink.out) + ([OPEN_ARRAY] + [CLOSE_ARRAY]);
      return true, JArray([]), [];
    }
    DumpIndent(f, depth + 1, false, sink);
    ghost var start := sink.out;
    ghost var vs: seq<Json> := [];
    assert ElemsPrefix(vs, f, depth, |elems|) == [] by { NoElems(f, depth, |elems|); }
    for i := 0 to |elems|
      invariant |vs| == i && InMemory(g) && Marked(g, trail)
      invariant forall j :: 0 <= j < i ==> Shows(g, elems[j], vs[j], sort) && Printable(vs[j])
      invariant sink.out == start + ElemsPrefix(vs, f, depth, |elems|)
    {
      ghost var w: Json;
      PathToChild(g, trail, elems[i]);
      ok, w, bad := DoDump(elems[i], f, sort, depth + 1, sink, g, trail);
      if !ok {
        ReasonBefore(g, trail, elems[i], bad);
        return false, JNull, bad;
      }
      DumpBetween(f, depth, i == |elems| - 1, sink);
      MoreElems(vs, w, f, depth, |elems|);
      vs := vs + [w];
    }
    sink.Dump([CLOSE_ARRAY]);
    ok, v, bad := true, JArray(vs), [];
    ArrayDone(g, n, vs, f, sort, depth, old(sink.out));
  }

  lemma EmptyArray(g: Graph, n: Node, f: Format, sort: bool, depth: nat)
    requires n in g && g[n] == ArrayNode([])
    ensures Shows(g, n, JArray([]), sort) && Printable(JArray([])) && Text(JArray([]), f, depth) == [OPEN_ARRAY] + [CLOSE_ARRAY]
  {
  }

  lemma EmptyObject(g: Graph, n: Node, f: Format, sort: bool, depth: nat)
    requires n in g && g[n].ObjectNode? && Order(g[n].slots, sort) == []
    ensures Shows(g, n, JObject([]), sort) && Printable(JObject([]))
    ensures Text(JObject([]), f, depth) == [OPEN_OBJECT] + [CLOSE_OBJECT]
  {
    hide Order;
  }

  // All elements have been printed behind some text.
  lemma ArrayDone(g: Graph, n: Node, vs: seq<Json>, f: Format, sort: bool, depth: nat, out: Bytes)
    requires n in g && g[n].ArrayNode? && |vs| == |g[n].elems| > 0
    requires forall i :: 0 <= i < |vs| ==> Shows(g, g[n].elems[i], vs[i], sort) && Printable(vs[i])
    ensures Shows(g, n, JArray(vs), sort) && Printable(JArray(vs))
    ensures out + [OPEN_ARRAY] + Indent(f, depth + 1, false) + ElemsPrefix(vs, f, depth, |vs|) + [CLOSE_ARRAY]
         == out + Text(JArray(vs), f, depth)
  {
    hide Indent, ElemsText, ElemsPrefix;
    var v := JArray(vs);
    ElemsWhole(v, f, depth);
    var d, x := Indent(f, depth + 1, false), ElemsPrefix(vs, f, depth, |vs|);
    assert out + [OPEN_ARRAY] + d + x + [CLOSE_ARRAY] == out + ([OPEN_ARRAY] + (d + (x + [CLOSE_ARRAY])));
  }

  lemma ObjectDone(g: Graph, n: Node, ms: seq<Member>, f: Format, sort: bool, depth: nat, out: Bytes)
    requires n in g && g[n].ObjectNode? && |ms| == |Order(g[n].slots, sort)| > 0
    requires forall i :: 0 <= i < |ms| ==>
                           && ms[i].key == Order(g[n].slots, sort)[i].key
                           && Shows(g, Order(g[n].slots, sort)[i].node, ms[i].value, sort)
    requires forall m <- ms :: Printable(m.value)
    ensures Shows(g, n, JObject(ms), sort) && Printable(JObject(ms))
    ensures out + [OPEN_OBJECT] + Indent(f, depth + 1, false) + MembersPrefix(ms, f, depth, |ms|) + [CLOSE_OBJECT]
         == out + Text(JObject(ms), f, depth)
  {
    hide Indent, MembersText, MembersPrefix, Order, Valid;
    var v := JObject(ms);
    assert forall i :: 0 <= i < |ms| ==> ms[i] in ms;
    MembersWhole(v, f, depth);
    var d, x := Indent(f, depth + 1, false), MembersPrefix(ms, f, depth, |ms|);
    assert out + [OPEN_OBJECT] + d + x + [CLOSE_OBJECT] == out + ([OPEN_OBJECT] + (d + (x + [CLOSE_OBJECT])));
  }

  lemma NoElems(f: Format, depth: nat, n: nat)
    ensures ElemsPrefix([], f, depth, n) == [] && MembersPrefix([], f, depth, n) == []
  {
  }

  lemma PathToChild(g: Graph, trail: seq<Node>, m: Node)
    requires WellBuilt(g) && Path(g, trail) && trail != [] && Child(g[trail[|trail| - 1]], m)
    ensures Path(g, trail + [m]) && m in g
  {
    assert trail[|trail| - 1] in g;
    PathOn(g, trail, m);
  }

  lemma MoreElems(vs: seq<Json>, w: Json, f: Format, depth: nat, n: nat)
    requires (forall v <- vs :: Printable(v)) && Printable(w)
    ensures ElemsPrefix(vs + [w], f, depth, n)
         == ElemsPrefix(vs, f, depth, n) + (Text(w, f, depth + 1) + Between(f, depth, |vs| + 1 == n))
  {
    hide Text, Between;
    assert (vs + [w])[..|vs|] == vs;
  }

  lemma MoreMembers(ms: seq<Member>, m: Member, f: Format, depth: nat, n: nat)
    requires (forall x <- ms :: Printable(x.value)) && Printable(m.value)
    ensures MembersPrefix(ms + [m], f, depth, n)
         == MembersPrefix(ms, f, depth, n)
            + (StringText(m.key, f.style) + Separator(f) + Text(m.value, f, depth + 1) + Between(f, depth, |ms| + 1 == n))
  {
    hide Text, Between, StringText, Separator;
    assert (ms + [m])[..|ms|] == ms;
  }

  // do_dump for an object, without its mark. The loops with and without JSON_SORT_KEYS are one here,
  // over the keys in their order.
  method DumpObject(n: Node, slots: seq<Slot>, f: Format, sort: bool, depth: nat, sink: Sink, ghost g: Graph, ghost trail: seq<Node>)
    returns (ok: bool, ghost v: Json, ghost bad: seq<Node>)
    requires WellBuilt(g) && InMemory(g) && Marked(g, trail) && Path(g, trail)
    requires trail != [] && trail[|trail| - 1] == n && n in g && g[n] == ObjectNode(slots)
    modifies sink, g.Keys`visited
    ensures if ok then Marked(g, trail) else MarkedWithin(g, trail)
    ensures ok ==> Shows(g, n, v, sort) && Printable(v) && sink.out == old(sink.out) + Text(v, f, depth)
    ensures !ok ==> Reason(g, trail, bad)
    decreases Unvisited(g, trail), 2
  {
    hide WellBuilt, Reason, Path, Indent, MembersText, MembersPrefix, Order, Separator, Between, StringText;
    hide Shows, Printable, Text, Valid;
    var order := Order(slots, sort);
    sink.Dump([OPEN_OBJECT]);
    if |order| == 0 {
      sink.Dump([CLOSE_OBJECT]);
      EmptyObject(g, n, f, sort, depth);
      assert old(sink.out) + [OPEN_OBJECT] + [CLOSE_OBJECT] == old(sink.out) + ([OPEN_OBJECT] + [CLOSE_OBJECT]);
      return true, JObject([]), [];
    }
    DumpIndent(f, depth + 1, false, sink);
    ghost var start := sink.out;
    ghost var ms: seq<Member> := [];
    assert MembersPrefix(ms, f, depth, |order|) == [] by { NoElems(f, depth, |order|); }
    for i := 0 to |order|
      invariant |ms| == i && InMemory(g) && Marked(g, trail)
      invariant forall j :: 0 <= j < i ==> ms[j].key == order[j].key && Shows(g, order[j].node, ms[j].value, sort)
      invariant forall m <- ms :: Printable(m.value)
      invariant sink.out == start + MembersPrefix(ms, f, depth, |order|)
    {
      ghost var w: Json;
      SlotFits(g, trail, slots, sort, i);
      ok, w, bad := DumpMember(order[i], f, sort, depth, sink, g, trail, i == |order| - 1);
      if !ok {
        return false, JNull, bad;
      }
      ghost var m := Member(order[i].key, w);
      MoreMembers(ms, m, f, depth, |order|);
      ms := ms + [m];
    }
    sink.Dump([CLOSE_OBJECT]);
    ok, v, bad := true, JObject(ms), [];
    ObjectDone(g, n, ms, f, sort, depth, old(sink.out));
  }

  // One member: key, separator and value, and what is behind it. That a key could not be printed as a whole
  // goes unnoticed.
  method DumpMember(s: Slot, f: Format, sort: bool, depth: nat, sink: Sink, ghost g: Graph, ghost trail: seq<Node>, last: bool)
    returns (ok: bool, ghost w: Json, ghost bad: seq<Node>)
    requires WellBuilt(g) && InMemory(g) && Marked(g, trail) && trail != [] && Path(g, trail + [s.node])
    modifies sink, g.Keys`visited
    ensures if ok then Marked(g, trail) else MarkedWithin(g, trail)
    ensures ok ==> Shows(g, s.node, w, sort) && Printable(w)
    ensures ok ==> sink.out == old(sink.out)
                     + (StringText(s.key, f.style) + Separator(f) + Text(w, f, depth + 1) + Between(f, depth, last))
    ensures !ok ==> Reason(g, trail, bad)
    decreases Unvisited(g, trail), 1
  {
    hide WellBuilt, Reason, Path, Indent, Text, StringText, Shows, Printable, Valid, Between;
    var key := DumpText(s.key, f, sink);
    sink.Dump(if f.compact then [COLON] else [COLON, 0x20]);
    ok, w, bad := DoDump(s.node, f, sort, depth + 1, sink, g, trail);
    if !ok {
      ReasonBefore(g, trail, s.node, bad);
      return;
    }
    DumpBetween(f, depth, last, sink);
  }

  lemma SlotFits(g: Graph, trail: seq<Node>, slots: seq<Slot>, sort: bool, i: nat)
    requires WellBuilt(g) && Path(g, trail) && trail != [] && g[trail[|trail| - 1]] == ObjectNode(slots)
    requires i < |Order(slots, sort)|
    ensures Path(g, trail + [Order(slots, sort)[i].node])
  {
    hide Order;
    InOrder(slots, sort, i);
    assert trail[|trail| - 1] in g;
    assert JsonGraphs.Proper(g[trail[|trail| - 1]]);
    PathToChild(g, trail, Order(slots, sort)[i].node);
  }

  // json_dumps. It fails exactly for a value that is within itself somewhere or holds a string that
  // is not valid, and for one that is no array or object unless the flags allow it. All marks are
  // clear again, whether it fails or not.
  method Dumps(n: Node, f: Format, sort: bool, encodeAny: bool, ghost g: Graph) returns (text: Option<Bytes>)
    requires WellBuilt(g) && InMemory(g) && n in g && Marked(g, [])
    modifies g.Keys`visited
    ensures Marked(g, [])
    ensures text.Some? <==> (encodeAny || Container(g[n])) && exists v :: Shows(g, n, v, sort)
    ensures text.None? <==> !(encodeAny || Container(g[n])) || exists p :: Reason(g, [n], p)
    ensures forall v :: Shows(g, n, v, sort) && text.Some? ==> Printable(v) && text.value == Text(v, f, 0)
  {
    hide WellBuilt, Reason, Path, Shows, Printable, Text;
    var c := n.content;
    if !encodeAny {
      if !Container(c) {
        return None;
      }
    }
    var sink := new Sink();
    assert [] + [n] == [n];
    OnePath(g, n);
    var ok;
    ghost var v, bad;
    ok, v, bad := DoDump(n, f, sort, 0, sink, g, []);
    forall p, w | Reason(g, [n], p) && Shows(g, n, w, sort)
      ensures false
    {
      NoReason(g, n, p, w, sort);
    }
    if !ok {
      assert Reason(g, [n], bad);
      return None;
    }
    assert Shows(g, n, v, sort);
    assert [] + Text(v, f, 0) == Text(v, f, 0);
    text := Some(sink.out);
    forall w | Shows(g, n, w, sort)
      ensures w == v
    {
      ShowsOne(g, n, w, v, sort);
    }
  }

  lemma OnePath(g: Graph, n: Node)
    requires n in g
    ensures Path(g, [n])
  {
  }

  lemma NoReason(g: Graph, n: Node, p: seq<Node>, v: Json, sort: bool)
    requires Reason(g, [n], p) && Shows(g, n, v, sort)
    ensures false
  {
    hide Shows, Path;
    assert p[0] == n;
    if Lasso(g, p) {
      NoLasso(g, p, v, sort);
    } else {
      NoBadString(g, p, v, sort);
    }
  }

  // Printing a value in memory and parsing the text, for all flags of both: the result is the value exactly if
  // all its keys are valid, the parser accepts its depth and its zero bytes, and it is an array or an object
  // unless the flags allow others. With an invalid key it is another value or none.
  method DumpAndLoad(n: Node, f: Format, sort: bool, encodeAny: bool, flags: JsonGrammar.Flags, ghost g: Graph)
    returns (r: JsonParser.Result)
    requires WellBuilt(g) && InMemory(g) && n in g && Marked(g, [])
    modifies g.Keys`visited
    ensures Marked(g, [])
    ensures forall v :: Shows(g, n, v, sort) ==>
              (r == JsonParser.Made(v) <==>
                 KeysValid(v) && R.Acceptable(v, flags, 0) && (Container(g[n]) || (encodeAny && flags.decodeAny)))
    ensures forall v :: Shows(g, n, v, sort) && KeysValid(v) ==> r == JsonParser.Made(v) || r == JsonParser.Error
    ensures (forall v :: !Shows(g, n, v, sort)) ==> r == JsonParser.Error
    ensures r.Made? ==> KeysValid(r.value)
  {
    hide WellBuilt, Reason, Path, Shows, Text, Printable, KeysValid, R.Acceptable, R.Sound;
    var text := Dumps(n, f, sort, encodeAny, g);
    if text.None? {
      return JsonParser.Error;
    }
    ghost var v :| Shows(g, n, v, sort);
    ShowsPrintable(g, n, v, sort);
    ShowsContainer(g, n, v, sort);
    R.TextLoadable(v, f, 0);
    r := JsonParser.Loads(text.value, flags);
    forall w | Shows(g, n, w, sort)
      ensures w == v
    {
      ShowsOne(g, n, w, v, sort);
    }
  }

  lemma ShowsContainer(g: Graph, n: Node, v: Json, sort: bool)
    requires Shows(g, n, v, sort)
    ensures Container(g[n]) <==> v.JArray? || v.JObject?
  {
    hide Order;
  }
}
