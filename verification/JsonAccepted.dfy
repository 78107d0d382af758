/**
  What the JSON parser accepts are the JSON texts, with what they mean.
  */
module JsonAccepted {
  import opened Options
  import opened Pieces
  import opened Utf
  import opened JsonTokens
  import opened JsonValues
  import opened JsonGrammar
  import opened JsonLetters
  import T = JsonTexts
  import V = JsonValidity
  import JsonStream

  // What the parser has made of a text, with u behind it.
  predicate Reads(t: Bytes, u: Bytes, clean: bool, flags: Flags, depth: nat, v: Json) {
    var (tok, r) := Next(t, clean);
    ValueOf(tok, r, clean, flags, depth) == Parsed(v, u)
  }

  lemma ReadsStart(t: Bytes, u: Bytes, clean: bool, flags: Flags, depth: nat, v: Json)
    requires Reads(t, u, clean, flags, depth, v)
    ensures var tok := Next(t, clean).0;
            !tok.TokenEof? && tok != TokenPunct(CLOSE_ARRAY) && tok != TokenPunct(CLOSE_OBJECT) && depth < flags.maxDepth
  {
    hide Next, ArrayOf, ObjectOf;
  }

  // Space, a comma or a bracket is no part of a value.
  lemma EndsBehind(x: T.Tree, w: Bytes, c: byte, u: Bytes)
    requires T.AllSpace(w) && c in {COMMA, CLOSE_ARRAY, CLOSE_OBJECT}
    ensures T.Ends(x, w + [c] + u)
  {
    var t := w + [c] + u;
    assert t[0] == if w == [] then c else w[0];
    assert w != [] ==> w[0] in w;
  }

  lemma EndsSpace(x: T.Tree, w: Bytes)
    requires T.AllSpace(w)
    ensures T.Ends(x, w)
  {
    assert w != [] ==> w[0] in w;
  }

  lemma LeafReads(x: T.Tree, u: Bytes, clean: bool, flags: Flags, depth: nat)
    requires Leaf(x) && T.Formed(x) && T.Ends(x, u) && depth < flags.maxDepth && T.Permitted(x, flags, flags.maxDepth - depth)
    ensures Reads(T.Flat(x) + u, u, clean, flags, depth, T.Meaning(x))
    ensures !Next(T.Flat(x) + u, clean).0.TokenPunct?
  {
    hide Next, T.Flat, T.Content, T.Signed;
    LeafRead(x, u, clean);
  }

  // A tree is read as what it means.
  lemma {:induction false} TreeReads(x: T.Tree, u: Bytes, clean: bool, flags: Flags, depth: nat)
    requires T.Formed(x) && T.Ends(x, u) && depth < flags.maxDepth && T.Permitted(x, flags, flags.maxDepth - depth)
    ensures Reads(T.Flat(x) + u, u, clean, flags, depth, T.Meaning(x))
    ensures Next(T.Flat(x) + u, clean).0 == TokenPunct(OPEN_ARRAY) <==> x.List?
    ensures Next(T.Flat(x) + u, clean).0 == TokenPunct(OPEN_OBJECT) <==> x.Table?
    decreases x
  {
    hide Next, Reads, ArrayOf, ObjectOf, T.Flat, T.Meaning, T.Ends, T.FlatItems, T.FlatEntries;
    match x {
      case List(space, items) =>
        ListFlat(x);
        if items == [] {
          NoItemsRead(space, u, clean, flags, depth + 1);
        } else {
          ItemsRead(items, u, clean, flags, depth + 1, []);
          ItemsReadAll(items, u, clean, flags, depth + 1);
        }
        ListOpens(x, u, clean, flags, depth);
      case Table(space, entries) =>
        TableFlat(x);
        if entries == [] {
          NoEntriesRead(space, u, clean, flags, depth + 1);
        } else {
          EntriesRead(entries, u, clean, flags, depth + 1, []);
          EntriesReadAll(entries, u, clean, flags, depth + 1);
        }
        TableOpens(x, u, clean, flags, depth);
      case _ => LeafReads(x, u, clean, flags, depth);
    }
  }

  lemma ListOpens(x: T.Tree, u: Bytes, clean: bool, flags: Flags, depth: nat)
    requires x.List? && T.Formed(x) && T.ItemsFormed(x.items) && depth < flags.maxDepth
    requires var inner := if x.items == [] then x.space else T.FlatItems(x.items);
             ArrayOf(inner + [CLOSE_ARRAY] + u, clean, flags, depth + 1) == Parsed(T.Meaning(x), u)
    ensures Reads(T.Flat(x) + u, u, clean, flags, depth, T.Meaning(x))
    ensures Next(T.Flat(x) + u, clean).0 == TokenPunct(OPEN_ARRAY)
  {
    hide Next, Reads, ArrayOf, T.Flat, T.Meaning, T.FlatItems;
    var inner := if x.items == [] then x.space else T.FlatItems(x.items);
    ListFlat(x);
    assert T.Flat(x) + u == [] + [OPEN_ARRAY] + (inner + [CLOSE_ARRAY] + u);
    PunctRead([], OPEN_ARRAY, inner + [CLOSE_ARRAY] + u, clean);
    OpenReads(T.Flat(x) + u, inner + [CLOSE_ARRAY] + u, u, clean, flags, depth, T.Meaning(x));
  }

  lemma TableOpens(x: T.Tree, u: Bytes, clean: bool, flags: Flags, depth: nat)
    requires x.Table? && T.Formed(x) && T.EntriesFormed(x.entries) && depth < flags.maxDepth
    requires var inner := if x.entries == [] then x.space else T.FlatEntries(x.entries);
             ObjectOf(inner + [CLOSE_OBJECT] + u, clean, flags, depth + 1) == Parsed(T.Meaning(x), u)
    ensures Reads(T.Flat(x) + u, u, clean, flags, depth, T.Meaning(x))
    ensures Next(T.Flat(x) + u, clean).0 == TokenPunct(OPEN_OBJECT)
  {
    hide Next, Reads, ObjectOf, T.Flat, T.Meaning, T.FlatEntries;
    var inner := if x.entries == [] then x.space else T.FlatEntries(x.entries);
    TableFlat(x);
    assert T.Flat(x) + u == [] + [OPEN_OBJECT] + (inner + [CLOSE_OBJECT] + u);
    PunctRead([], OPEN_OBJECT, inner + [CLOSE_OBJECT] + u, clean);
    OpenReads(T.Flat(x) + u, inner + [CLOSE_OBJECT] + u, u, clean, flags, depth, T.Meaning(x));
  }

  lemma ListFlat(x: T.Tree)
    requires x.List? && T.Formed(x)
    ensures T.ItemsFormed(x.items)
    ensures T.Flat(x) == [OPEN_ARRAY] + (if x.items == [] then x.space else T.FlatItems(x.items)) + [CLOSE_ARRAY]
    ensures T.Meaning(x) == JArray(T.Meanings(x.items))
  {
    hide T.FlatItems, T.Meanings;
  }

  lemma TableFlat(x: T.Tree)
    requires x.Table? && T.Formed(x)
    ensures T.EntriesFormed(x.entries)
    ensures T.Flat(x) == [OPEN_OBJECT] + (if x.entries == [] then x.space else T.FlatEntries(x.entries)) + [CLOSE_OBJECT]
    ensures T.Meaning(x) == JObject(T.Merged([], x.entries))
  {
    hide T.FlatEntries, T.Merged;
  }

  lemma OpenReads(t: Bytes, r: Bytes, u: Bytes, clean: bool, flags: Flags, depth: nat, v: Json)
    requires depth < flags.maxDepth
    requires || (Next(t, clean) == (TokenPunct(OPEN_ARRAY), r) && ArrayOf(r, clean, flags, depth + 1) == Parsed(v, u))
             || (Next(t, clean) == (TokenPunct(OPEN_OBJECT), r) && ObjectOf(r, clean, flags, depth + 1) == Parsed(v, u))
    ensures Reads(t, u, clean, flags, depth, v)
  {
    hide Next, ArrayOf, ObjectOf;
  }

  lemma NoItemsRead(space: Bytes, u: Bytes, clean: bool, flags: Flags, depth: nat)
    requires T.AllSpace(space)
    ensures ArrayOf(space + [CLOSE_ARRAY] + u, clean, flags, depth) == Parsed(JArray([]), u)
    ensures T.Meanings([]) == []
  {
    hide Next, ElementsOf;
    PunctRead(space, CLOSE_ARRAY, u, clean);
  }

  lemma NoEntriesRead(space: Bytes, u: Bytes, clean: bool, flags: Flags, depth: nat)
    requires T.AllSpace(space)
    ensures ObjectOf(space + [CLOSE_OBJECT] + u, clean, flags, depth) == Parsed(JObject([]), u)
    ensures T.Merged([], []) == []
  {
    hide Next, MembersOf;
    PunctRead(space, CLOSE_OBJECT, u, clean);
  }

  // All items may be read.
  predicate ItemsPermitted(items: seq<T.Item>, flags: Flags, levels: nat)
    requires T.ItemsFormed(items)
  {
    forall i :: 0 <= i < |items| ==> T.ItemFormed(items[i]) && T.Permitted(items[i].tree, flags, levels)
  }

  // One turn of the loop over the elements.
  lemma ElementStep(t: Bytes, u: Bytes, clean: bool, flags: Flags, depth: nat, v: Json, elems: seq<Json>)
    requires Reads(t, u, clean, flags, depth, v)
    ensures var (tok, r) := Next(t, clean);
            var (tok1, t1) := Next(u, clean);
            && (tok1 == TokenPunct(CLOSE_ARRAY) ==>
                  ElementsOf(tok, r, clean, flags, depth, elems) == Parsed(JArray(elems + [v]), t1))
            && (tok1 == TokenPunct(COMMA) ==>
                  var (tok2, t2) := Next(t1, clean);
                  ElementsOf(tok, r, clean, flags, depth, elems) == ElementsOf(tok2, t2, clean, flags, depth, elems + [v]))
            && (tok1 != TokenPunct(COMMA) && tok1 != TokenPunct(CLOSE_ARRAY) ==>
                  ElementsOf(tok, r, clean, flags, depth, elems) == Refused)
  {
    ReadsStart(t, u, clean, flags, depth, v);
    hide Next, ValueOf;
  }

  lemma {:induction false} ItemsRead(items: seq<T.Item>, u: Bytes, clean: bool, flags: Flags, depth: nat, elems: seq<Json>)
    requires items != [] && T.ItemsFormed(items) && depth < flags.maxDepth && ItemsPermitted(items, flags, flags.maxDepth - depth)
    ensures var (tok, r) := Next(T.FlatItems(items) + [CLOSE_ARRAY] + u, clean);
            && tok != TokenPunct(CLOSE_ARRAY)
            && ElementsOf(tok, r, clean, flags, depth, elems) == Parsed(JArray(elems + T.Meanings(items)), u)
    decreases items
  {
    hide Next, Reads, ElementsOf, T.FlatItems, T.Meanings, T.Ends, T.Flat;
    var i := items[0];
    var rest := if |items| == 1 then u else T.FlatItems(items[1..]) + [CLOSE_ARRAY] + u;
    var c := if |items| == 1 then CLOSE_ARRAY else COMMA;
    var behind := i.after + [c] + rest;
    FirstItem(items, u);
    ItemRead(i, c, rest, clean, flags, depth);
    var t, v := i.before + (T.Flat(i.tree) + behind), T.Meaning(i.tree);
    ReadsStart(t, behind, clean, flags, depth, v);
    ElementStep(t, behind, clean, flags, depth, v, elems);
    FirstMeaning(items);
    if |items| > 1 {
      ItemsRead(items[1..], u, clean, flags, depth, elems + [v]);
      assert elems + [v] + T.Meanings(items[1..]) == elems + ([v] + T.Meanings(items[1..]));
    }
  }

  lemma ItemRead(i: T.Item, c: byte, rest: Bytes, clean: bool, flags: Flags, depth: nat)
    requires depth < flags.maxDepth && (c == COMMA || c == CLOSE_ARRAY)
    requires T.ItemFormed(i) && T.Permitted(i.tree, flags, flags.maxDepth - depth)
    ensures var behind := i.after + [c] + rest;
            && Reads(i.before + (T.Flat(i.tree) + behind), behind, clean, flags, depth, T.Meaning(i.tree))
            && Next(behind, clean) == (TokenPunct(c), rest)
    decreases i, 1
  {
    hide Next, Reads, T.Ends;
    var behind := i.after + [c] + rest;
    EndsBehind(i.tree, i.after, c, rest);
    TreeReads(i.tree, behind, clean, flags, depth);
    SpaceRead(i.before, T.Flat(i.tree) + behind, clean);
    PunctRead(i.after, c, rest, clean);
    ReadsAlike(i.before + (T.Flat(i.tree) + behind), T.Flat(i.tree) + behind, behind, clean, flags, depth, T.Meaning(i.tree));
  }

  lemma ReadsAlike(s: Bytes, t: Bytes, u: Bytes, clean: bool, flags: Flags, depth: nat, v: Json)
    requires Next(s, clean) == Next(t, clean) && Reads(t, u, clean, flags, depth, v)
    ensures Reads(s, u, clean, flags, depth, v)
  {
    hide Next, ValueOf;
  }

  lemma FirstItem(items: seq<T.Item>, u: Bytes)
    requires items != [] && T.ItemsFormed(items)
    ensures T.ItemFormed(items[0])
    ensures var i := items[0];
            T.FlatItems(items) + [CLOSE_ARRAY] + u
            == i.before + (T.Flat(i.tree)
                           + if |items| == 1 then i.after + [CLOSE_ARRAY] + u
                             else i.after + [COMMA] + (T.FlatItems(items[1..]) + [CLOSE_ARRAY] + u))
  {
    hide T.Flat;
    var i := items[0];
    var a, b, c := i.before, T.Flat(i.tree), i.after;
    var f := if |items| == 1 then [] else T.FlatItems(items[1..]);
    assert T.FlatItems(items) == (a + b + c) + if |items| == 1 then [] else [COMMA] + f;
    hide T.FlatItems;
    LastGroup(a, b, c, [CLOSE_ARRAY], u);
    MoreGroup(a, b, c, [COMMA], f, [CLOSE_ARRAY], u);
  }

  lemma LastGroup(a: Bytes, b: Bytes, c: Bytes, d: Bytes, u: Bytes)
    ensures (a + b + c) + [] + d + u == a + (b + (c + d + u))
  {
  }

  lemma MoreGroup(a: Bytes, b: Bytes, c: Bytes, m: Bytes, f: Bytes, d: Bytes, u: Bytes)
    ensures (a + b + c) + (m + f) + d + u == a + (b + (c + m + (f + d + u)))
  {
  }

  lemma FirstMeaning(items: seq<T.Item>)
    requires items != [] && T.ItemsFormed(items)
    ensures T.ItemFormed(items[0]) && T.Meanings(items) == [T.Meaning(items[0].tree)] + T.Meanings(items[1..])
    ensures |items| == 1 ==> T.Meanings(items) == [T.Meaning(items[0].tree)]
  {
    hide T.Meaning;
  }

  lemma ItemsReadAll(items: seq<T.Item>, u: Bytes, clean: bool, flags: Flags, depth: nat)
    requires items != [] && T.ItemsFormed(items)
    requires var (tok, r) := Next(T.FlatItems(items) + [CLOSE_ARRAY] + u, clean);
             && tok != TokenPunct(CLOSE_ARRAY)
             && ElementsOf(tok, r, clean, flags, depth, []) == Parsed(JArray([] + T.Meanings(items)), u)
    ensures ArrayOf(T.FlatItems(items) + [CLOSE_ARRAY] + u, clean, flags, depth) == Parsed(JArray(T.Meanings(items)), u)
  {
    hide Next, ElementsOf, T.FlatItems;
    assert [] + T.Meanings(items) == T.Meanings(items);
  }

  predicate EntriesPermitted(es: seq<T.Entry>, flags: Flags, levels: nat)
    requires T.EntriesFormed(es)
  {
    && (forall i :: 0 <= i < |es| ==>
          && T.AllSpelled(es[i].key) && 0 !in T.Content(es[i].key)
          && T.ItemFormed(es[i].item) && T.Permitted(es[i].item.tree, flags, levels))
    && (flags.rejectDuplicates ==>
          forall i, j :: 0 <= i < j < |es| ==> T.Content(es[i].key) != T.Content(es[j].key))
  }

  // No entry has a key that is there already, if that is refused.
  predicate NewKeys(ms: seq<Member>, es: seq<T.Entry>, flags: Flags)
    requires T.EntriesFormed(es)
  {
    flags.rejectDuplicates ==>
      forall i :: 0 <= i < |es| ==> T.AllSpelled(es[i].key) && !HasKey(ms, T.Content(es[i].key))
  }

  lemma {:induction false} PutIsWith(ms: seq<Member>, key: Bytes, value: Json)
    ensures Put(ms, key, value) == T.With(ms, key, value)
  {
    if ms != [] && ms[0].key != key {
      PutIsWith(ms[1..], key, value);
      WithLater(ms, key, value);
      hide T.With;
    } else {
      WithFirst(ms, key, value);
      hide T.With;
    }
  }

  lemma WithFirst(ms: seq<Member>, key: Bytes, value: Json)
    requires ms == [] || ms[0].key == key
    ensures T.With(ms, key, value) == [Member(key, value)] + if ms == [] then [] else ms[1..]
    ensures ms == [] ==> T.With(ms, key, value) == [Member(key, value)]
  {
  }

  lemma WithLater(ms: seq<Member>, key: Bytes, value: Json)
    requires ms != [] && ms[0].key != key
    ensures T.With(ms, key, value) == [ms[0]] + T.With(ms[1..], key, value)
  {
    var rest, m, i := ms[1..], Member(key, value), T.Place(ms[1..], key);
    assert T.Place(ms, key) == i + 1;
    if i < |rest| {
      assert [ms[0]] + rest[i := m] == ms[i + 1 := m];
    } else {
      assert [ms[0]] + (rest + [m]) == ms + [m];
    }
  }

  // The keys after a member was put in.
  lemma PutKeys(ms: seq<Member>, key: Bytes, value: Json, other: Bytes)
    ensures HasKey(T.With(ms, key, value), other) <==> HasKey(ms, other) || other == key
  {
    var i := T.Place(ms, key);
    var r := T.With(ms, key, value);
    assert i < |r| && r[i].key == key;
    assert forall j :: 0 <= j < |ms| ==> r[j].key == ms[j].key;
  }

  // One turn of the loop over the members, from a key on.
  lemma MemberStep(t: Bytes, t1: Bytes, t2: Bytes, u: Bytes, clean: bool, flags: Flags, depth: nat, key: Bytes, v: Json,
                   ms: seq<Member>)
    requires Next(t, clean) == (TokenString(key), t1) && Next(t1, clean) == (TokenPunct(COLON), t2)
    requires Reads(t2, u, clean, flags, depth, v) && 0 !in key && (flags.rejectDuplicates ==> !HasKey(ms, key))
    ensures var (tok3, t3) := Next(u, clean);
            var o := MembersOf(TokenString(key), t1, clean, flags, depth, ms);
            && (tok3 == TokenPunct(CLOSE_OBJECT) ==> o == Parsed(JObject(Put(ms, key, v)), t3))
            && (tok3 == TokenPunct(COMMA) ==>
                  var (tok4, t4) := Next(t3, clean);
                  o == MembersOf(tok4, t4, clean, flags, depth, Put(ms, key, v)))
  {
    hide Next, ValueOf, Put;
  }

  lemma {:induction false} EntriesRead(es: seq<T.Entry>, u: Bytes, clean: bool, flags: Flags, depth: nat, ms: seq<Member>)
    requires es != [] && T.EntriesFormed(es) && depth < flags.maxDepth && EntriesPermitted(es, flags, flags.maxDepth - depth)
    requires NewKeys(ms, es, flags)
    ensures var (tok, r) := Next(T.FlatEntries(es) + [CLOSE_OBJECT] + u, clean);
            && tok != TokenPunct(CLOSE_OBJECT)
            && MembersOf(tok, r, clean, flags, depth, ms) == Parsed(JObject(T.Merged(ms, es)), u)
    decreases es
  {
    hide Next, Reads, MembersOf, T.FlatEntries, T.Merged, T.Ends, T.Content, T.Inner;
    var e := es[0];
    var i := e.item;
    var rest := if |es| == 1 then u else T.FlatEntries(es[1..]) + [CLOSE_OBJECT] + u;
    var c := if |es| == 1 then CLOSE_OBJECT else COMMA;
    var behind := i.after + [c] + rest;
    var t2 := i.before + (T.Flat(i.tree) + behind);
    var t1 := e.after + [COLON] + t2;
    var key, v := T.Content(e.key), T.Meaning(i.tree);
    FirstEntry(es, u);
    EndsBehind(i.tree, i.after, c, rest);
    TreeReads(i.tree, behind, clean, flags, depth);
    SpaceRead(i.before, T.Flat(i.tree) + behind, clean);
    ReadsAlike(t2, T.Flat(i.tree) + behind, behind, clean, flags, depth, v);
    PunctRead(i.after, c, rest, clean);
    KeyReads(e.before, e.key, t1, clean);
    PunctRead(e.after, COLON, t2, clean);
    var t := e.before + (T.Flat(T.Quote(e.key)) + t1);
    MemberStep(t, t1, t2, behind, clean, flags, depth, key, v, ms);
    PutIsWith(ms, key, v);
    FirstMerged(ms, es);
    if |es| > 1 {
      NewKeysLater(ms, es, flags, depth, v);
      EntriesRead(es[1..], u, clean, flags, depth, T.With(ms, key, v));
    }
  }

  lemma KeyReads(w: Bytes, key: seq<T.Spelling>, u: Bytes, clean: bool)
    requires T.AllSpace(w) && T.AllSpelled(key)
    ensures Next(w + (T.Flat(T.Quote(key)) + u), clean) == (TokenString(T.Content(key)), u)
  {
    hide Next, T.Flat, T.Content;
    LeafRead(T.Quote(key), u, clean);
    SpaceRead(w, T.Flat(T.Quote(key)) + u, clean);
  }

  lemma FirstEntry(es: seq<T.Entry>, u: Bytes)
    requires es != [] && T.EntriesFormed(es)
    ensures T.AllSpace(es[0].before) && T.AllSpelled(es[0].key) && T.AllSpace(es[0].after) && T.ItemFormed(es[0].item)
    ensures var e := es[0];
            var i := e.item;
            var behind := if |es| == 1 then i.after + [CLOSE_OBJECT] + u
                          else i.after + [COMMA] + (T.FlatEntries(es[1..]) + [CLOSE_OBJECT] + u);
            T.FlatEntries(es) + [CLOSE_OBJECT] + u
            == e.before + (T.Flat(T.Quote(e.key)) + (e.after + [COLON] + (i.before + (T.Flat(i.tree) + behind))))
  {
    hide *;
    EntryParts(es);
    EntriesText(es);
    var e := es[0];
    var i := e.item;
    var q := T.Flat(T.Quote(e.key));
    if |es| == 1 {
      LastEntryGroup(e.before, q, e.after, i.before, T.Flat(i.tree), i.after, u);
    } else {
      MoreEntryGroup(e.before, q, e.after, i.before, T.Flat(i.tree), i.after, T.FlatEntries(es[1..]), u);
    }
  }

  lemma LastEntryGroup(w: Bytes, q: Bytes, k: Bytes, a: Bytes, b: Bytes, c: Bytes, u: Bytes)
    ensures (w + q + k + [COLON] + (a + b + c) + []) + [CLOSE_OBJECT] + u
            == w + (q + (k + [COLON] + (a + (b + (c + [CLOSE_OBJECT] + u)))))
  {
    KeyGroup(w, q, k, [COLON], a + b + c, [], [CLOSE_OBJECT], u);
    LastGroup(a, b, c, [CLOSE_OBJECT], u);
  }

  lemma MoreEntryGroup(w: Bytes, q: Bytes, k: Bytes, a: Bytes, b: Bytes, c: Bytes, f: Bytes, u: Bytes)
    ensures (w + q + k + [COLON] + (a + b + c) + ([COMMA] + f)) + [CLOSE_OBJECT] + u
            == w + (q + (k + [COLON] + (a + (b + (c + [COMMA] + (f + [CLOSE_OBJECT] + u))))))
  {
    KeyGroup(w, q, k, [COLON], a + b + c, [COMMA] + f, [CLOSE_OBJECT], u);
    MoreGroup(a, b, c, [COMMA], f, [CLOSE_OBJECT], u);
  }

  lemma EntryParts(es: seq<T.Entry>)
    requires es != [] && T.EntriesFormed(es)
    ensures T.AllSpace(es[0].before) && T.AllSpelled(es[0].key) && T.AllSpace(es[0].after) && T.ItemFormed(es[0].item)
    ensures T.EntriesFormed(es[1..]) && T.Formed(es[0].item.tree) && T.Formed(T.Quote(es[0].key))
  {
  }

  lemma EntriesText(es: seq<T.Entry>)
    requires es != [] && T.EntriesFormed(es)
    ensures T.AllSpace(es[0].before) && T.AllSpelled(es[0].key) && T.AllSpace(es[0].after) && T.ItemFormed(es[0].item)
    ensures var e := es[0];
            var i := e.item;
            var s := e.before + T.Flat(T.Quote(e.key)) + e.after + [COLON] + (i.before + T.Flat(i.tree) + i.after);
            && (|es| == 1 ==> T.FlatEntries(es) == s + [])
            && (|es| > 1 ==> T.FlatEntries(es) == s + ([COMMA] + T.FlatEntries(es[1..])))
  {
    assert T.Flat(T.Quote(es[0].key)) == [0x22] + T.Inner(es[0].key) + [0x22];
    hide T.Flat, T.Inner;
  }

  lemma KeyGroup(a: Bytes, b: Bytes, c: Bytes, m: Bytes, i: Bytes, x: Bytes, d: Bytes, u: Bytes)
    ensures (a + b + c + m + i + x) + d + u == a + (b + (c + m + (i + x + d + u)))
  {
  }

  lemma FirstMerged(ms: seq<Member>, es: seq<T.Entry>)
    requires es != [] && T.EntriesFormed(es)
    ensures T.AllSpelled(es[0].key) && T.ItemFormed(es[0].item)
    ensures var r := T.With(ms, T.Content(es[0].key), T.Meaning(es[0].item.tree));
            && T.Merged(ms, es) == T.Merged(r, es[1..]) && (|es| == 1 ==> T.Merged(ms, es) == r)
  {
    hide T.With, T.Content, T.Meaning;
  }

  lemma NewKeysLater(ms: seq<Member>, es: seq<T.Entry>, flags: Flags, depth: nat, v: Json)
    requires es != [] && T.EntriesFormed(es) && depth <= flags.maxDepth && EntriesPermitted(es, flags, flags.maxDepth - depth)
    requires NewKeys(ms, es, flags)
    ensures T.EntriesFormed(es[1..]) && EntriesPermitted(es[1..], flags, flags.maxDepth - depth) && T.AllSpelled(es[0].key)
    ensures NewKeys(T.With(ms, T.Content(es[0].key), v), es[1..], flags)
  {
    hide T.With, T.Content, HasKey;
    if flags.rejectDuplicates {
      forall i | 0 <= i < |es| - 1
        ensures !HasKey(T.With(ms, T.Content(es[0].key), v), T.Content(es[1..][i].key))
      {
        PutKeys(ms, T.Content(es[0].key), v, T.Content(es[i + 1].key));
      }
    }
  }

  lemma EntriesReadAll(es: seq<T.Entry>, u: Bytes, clean: bool, flags: Flags, depth: nat)
    requires es != [] && T.EntriesFormed(es)
    requires var (tok, r) := Next(T.FlatEntries(es) + [CLOSE_OBJECT] + u, clean);
             && tok != TokenPunct(CLOSE_OBJECT)
             && MembersOf(tok, r, clean, flags, depth, []) == Parsed(JObject(T.Merged([], es)), u)
    ensures ObjectOf(T.FlatEntries(es) + [CLOSE_OBJECT] + u, clean, flags, depth) == Parsed(JObject(T.Merged([], es)), u)
  {
    hide Next, MembersOf, T.FlatEntries, T.Merged;
  }

  // What is read was a text: w is the space in front of it.
  predicate WasText(t: Bytes, w: Bytes, x: T.Tree, o: Outcome, flags: Flags, depth: nat) {
    && o.Parsed? && depth < flags.maxDepth && T.AllSpace(w) && T.Formed(x) && T.Permitted(x, flags, flags.maxDepth - depth)
    && t == w + T.Flat(x) + o.rest && T.Meaning(x) == o.value && T.Ends(x, o.rest)
  }

  lemma LeafWas(t: Bytes, clean: bool, flags: Flags, depth: nat) returns (w: Bytes, x: T.Tree)
    requires Valid(t) && Proper(Next(t, clean).0) && !Next(t, clean).0.TokenPunct?
    requires var (tok, r) := Next(t, clean); ValueOf(tok, r, clean, flags, depth).Parsed?
    ensures var (tok, r) := Next(t, clean);
            WasText(t, w, x, ValueOf(tok, r, clean, flags, depth), flags, depth) && Leaf(x)
  {
    hide Next, Valid, T.Flat, T.Content, T.Signed, T.Ends;
    w, x := LeafBack(t, clean);
  }

  lemma {:induction false} ValueWas(t: Bytes, clean: bool, flags: Flags, depth: nat) returns (w: Bytes, x: T.Tree)
    requires Valid(t)
    requires var (tok, r) := Next(t, clean); ValueOf(tok, r, clean, flags, depth).Parsed?
    ensures var (tok, r) := Next(t, clean);
            && WasText(t, w, x, ValueOf(tok, r, clean, flags, depth), flags, depth)
            && Valid(ValueOf(tok, r, clean, flags, depth).rest) && |ValueOf(tok, r, clean, flags, depth).rest| < |t|
            && (x.List? <==> tok == TokenPunct(OPEN_ARRAY)) && (x.Table? <==> tok == TokenPunct(OPEN_OBJECT))
    decreases |t|, 0
  {
    hide Next, ArrayOf, ObjectOf, Valid, WasText;
    var (tok, r) := Next(t, clean);
    V.NextValid(t, clean);
    V.ValueOfValid(tok, r, clean, flags, depth);
    if tok == TokenPunct(OPEN_ARRAY) {
      w := PunctBack(t, clean);
      x := ArrayWas(r, clean, flags, depth + 1);
      OpenWas(t, w, r, x, ArrayOf(r, clean, flags, depth + 1), flags, depth);
    } else if tok == TokenPunct(OPEN_OBJECT) {
      w := PunctBack(t, clean);
      x := ObjectWas(r, clean, flags, depth + 1);
      OpenWas(t, w, r, x, ObjectOf(r, clean, flags, depth + 1), flags, depth);
    } else {
      w, x := LeafWas(t, clean, flags, depth);
    }
  }

  // The text behind an opening bracket.
  predicate WasOpen(r: Bytes, x: T.Tree, o: Outcome, flags: Flags, depth: nat) {
    && o.Parsed? && 0 < depth <= flags.maxDepth && T.Formed(x) && T.Permitted(x, flags, flags.maxDepth - (depth - 1))
    && (x.List? || x.Table?) && T.Flat(x) + o.rest == [if x.List? then OPEN_ARRAY else OPEN_OBJECT] + r && T.Meaning(x) == o.value
  }

  lemma OpenWas(t: Bytes, w: Bytes, r: Bytes, x: T.Tree, o: Outcome, flags: Flags, depth: nat)
    requires WasOpen(r, x, o, flags, depth + 1) && T.AllSpace(w)
    requires t == w + [if x.List? then OPEN_ARRAY else OPEN_OBJECT] + r
    ensures WasText(t, w, x, o, flags, depth)
  {
    hide T.Flat, T.Meaning;
    assert w + T.Flat(x) + o.rest == w + (T.Flat(x) + o.rest);
  }

  lemma {:induction false} ArrayWas(r: Bytes, clean: bool, flags: Flags, depth: nat) returns (x: T.Tree)
    requires Valid(r) && 0 < depth <= flags.maxDepth && ArrayOf(r, clean, flags, depth).Parsed?
    ensures WasOpen(r, x, ArrayOf(r, clean, flags, depth), flags, depth) && x.List?
    decreases |r|, 2
  {
    hide Next, ElementsOf, Valid, T.Flat, T.Meaning;
    var (tok, u) := Next(r, clean);
    if tok == TokenPunct(CLOSE_ARRAY) {
      var w := PunctBack(r, clean);
      x := T.List(w, []);
      ListFlat(x);
      NoItemsRead(w, u, clean, flags, depth);
      assert T.Flat(x) + u == [OPEN_ARRAY] + (w + [CLOSE_ARRAY] + u);
    } else {
      var items := ItemsWere(r, clean, flags, depth, []);
      x := ListOf(r, items, ElementsOf(tok, u, clean, flags, depth, []), flags, depth);
    }
  }

  lemma ListOf(r: Bytes, items: seq<T.Item>, o: Outcome, flags: Flags, depth: nat) returns (x: T.Tree)
    requires WereItems(r, items, o, [], flags, depth) && depth > 0
    ensures WasOpen(r, x, o, flags, depth) && x.List?
  {
    hide T.Flat, T.Meaning, T.FlatItems, T.Meanings;
    x := T.List([], items);
    ListFormed(items, flags, flags.maxDepth - depth);
    ListFlat(x);
    assert [] + T.Meanings(items) == T.Meanings(items);
    assert T.Flat(x) + o.rest == [OPEN_ARRAY] + (T.FlatItems(items) + [CLOSE_ARRAY] + o.rest);
  }

  lemma ListFormed(items: seq<T.Item>, flags: Flags, levels: nat)
    requires T.ItemsFormed(items) && ItemsPermitted(items, flags, levels)
    ensures T.Formed(T.List([], items)) && T.Permitted(T.List([], items), flags, levels + 1)
  {
  }

  predicate WereItems(t: Bytes, items: seq<T.Item>, o: Outcome, elems: seq<Json>, flags: Flags, depth: nat) {
    && o.Parsed? && depth <= flags.maxDepth && items != [] && T.ItemsFormed(items)
    && ItemsPermitted(items, flags, flags.maxDepth - depth)
    && t == T.FlatItems(items) + [CLOSE_ARRAY] + o.rest && o.value == JArray(elems + T.Meanings(items))
  }

  lemma {:induction false} ItemsWere(t: Bytes, clean: bool, flags: Flags, depth: nat, elems: seq<Json>)
    returns (items: seq<T.Item>)
    requires Valid(t) && depth <= flags.maxDepth
    requires var (tok, r) := Next(t, clean); ElementsOf(tok, r, clean, flags, depth, elems).Parsed?
    ensures var (tok, r) := Next(t, clean); WereItems(t, items, ElementsOf(tok, r, clean, flags, depth, elems), elems, flags, depth)
    decreases |t|, 1
  {
    hide Next, ValueOf, ElementsOf, Valid, WasText, WereItems;
    var (tok, r) := Next(t, clean);
    ElementParsed(t, clean, flags, depth, elems);
    var o := ValueOf(tok, r, clean, flags, depth);
    var w, x := ValueWas(t, clean, flags, depth);
    var (tok1, t1) := Next(o.rest, clean);
    ReadsIs(t, o.rest, clean, flags, depth, o.value);
    ElementStep(t, o.rest, clean, flags, depth, o.value, elems);
    V.NextValid(o.rest, clean);
    var a := PunctBack(o.rest, clean);
    var i := T.Item(w, x, a);
    if tok1 == TokenPunct(CLOSE_ARRAY) {
      items := [i];
      LastItem(t, i, o, t1, elems, flags, depth);
    } else {
      var rest := ItemsWere(t1, clean, flags, depth, elems + [o.value]);
      items := [i] + rest;
      MoreItems(t, i, o, t1, rest, ElementsOf(tok, r, clean, flags, depth, elems), elems, flags, depth);
    }
  }

  lemma ElementParsed(t: Bytes, clean: bool, flags: Flags, depth: nat, elems: seq<Json>)
    requires var (tok, r) := Next(t, clean); ElementsOf(tok, r, clean, flags, depth, elems).Parsed?
    ensures var (tok, r) := Next(t, clean);
            var o := ValueOf(tok, r, clean, flags, depth);
            o.Parsed? && Next(o.rest, clean).0 in {TokenPunct(COMMA), TokenPunct(CLOSE_ARRAY)}
  {
    hide Next, ValueOf;
  }

  lemma ReadsIs(t: Bytes, u: Bytes, clean: bool, flags: Flags, depth: nat, v: Json)
    requires var (tok, r) := Next(t, clean); ValueOf(tok, r, clean, flags, depth) == Parsed(v, u)
    ensures Reads(t, u, clean, flags, depth, v)
  {
    hide Next, ValueOf;
  }

  lemma LastItem(t: Bytes, i: T.Item, o: Outcome, u: Bytes, elems: seq<Json>, flags: Flags, depth: nat)
    requires WasText(t, i.before, i.tree, o, flags, depth) && T.AllSpace(i.after) && o.rest == i.after + [CLOSE_ARRAY] + u
    ensures WereItems(t, [i], Parsed(JArray(elems + [o.value]), u), elems, flags, depth)
  {
    hide T.Flat, T.Meaning, T.Ends;
    FirstMeaning([i]);
    FirstItem([i], u);
    hide T.FlatItems, T.Meanings;
    assert i.before + T.Flat(i.tree) + o.rest == i.before + (T.Flat(i.tree) + o.rest);
  }

  lemma MoreItems(t: Bytes, i: T.Item, o: Outcome, t1: Bytes, rest: seq<T.Item>, all: Outcome, elems: seq<Json>, flags: Flags,
                  depth: nat)
    requires WasText(t, i.before, i.tree, o, flags, depth) && T.AllSpace(i.after) && o.rest == i.after + [COMMA] + t1
    requires WereItems(t1, rest, all, elems + [o.value], flags, depth)
    ensures WereItems(t, [i] + rest, all, elems, flags, depth)
  {
    hide T.Flat, T.Meaning, T.Ends, T.FlatItems, T.Meanings;
    var items := [i] + rest;
    assert items[1..] == rest;
    MoreItemsText(t, i, o, t1, rest, all.rest, flags, depth);
    FirstMeaning(items);
    assert elems + [o.value] + T.Meanings(rest) == elems + ([o.value] + T.Meanings(rest));
  }

  lemma MoreItemsText(t: Bytes, i: T.Item, o: Outcome, t1: Bytes, rest: seq<T.Item>, u: Bytes, flags: Flags, depth: nat)
    requires WasText(t, i.before, i.tree, o, flags, depth) && T.AllSpace(i.after) && o.rest == i.after + [COMMA] + t1
    requires rest != [] && T.ItemsFormed(rest) && t1 == T.FlatItems(rest) + [CLOSE_ARRAY] + u
    ensures T.ItemFormed(i) && T.ItemsFormed([i] + rest) && t == T.FlatItems([i] + rest) + [CLOSE_ARRAY] + u
  {
    hide T.Flat, T.Meaning, T.Ends, T.FlatItems;
    assert ([i] + rest)[1..] == rest;
    FirstItem([i] + rest, u);
    assert i.before + T.Flat(i.tree) + o.rest == i.before + (T.Flat(i.tree) + o.rest);
  }

  lemma {:induction false} ObjectWas(r: Bytes, clean: bool, flags: Flags, depth: nat) returns (x: T.Tree)
    requires Valid(r) && 0 < depth <= flags.maxDepth && ObjectOf(r, clean, flags, depth).Parsed?
    ensures WasOpen(r, x, ObjectOf(r, clean, flags, depth), flags, depth) && x.Table?
    decreases |r|, 2
  {
    hide Next, MembersOf, Valid, T.Flat, T.Meaning;
    var (tok, u) := Next(r, clean);
    if tok == TokenPunct(CLOSE_OBJECT) {
      var w := PunctBack(r, clean);
      x := T.Table(w, []);
      TableFlat(x);
      NoEntriesRead(w, u, clean, flags, depth);
      assert T.Flat(x) + u == [OPEN_OBJECT] + (w + [CLOSE_OBJECT] + u);
    } else {
      var es := EntriesWere(r, clean, flags, depth, []);
      x := TableOf(r, es, MembersOf(tok, u, clean, flags, depth, []), flags, depth);
    }
  }

  lemma TableOf(r: Bytes, es: seq<T.Entry>, o: Outcome, flags: Flags, depth: nat) returns (x: T.Tree)
    requires WereEntries(r, es, o, [], flags, depth) && depth > 0
    ensures WasOpen(r, x, o, flags, depth) && x.Table?
  {
    hide T.Flat, T.Meaning, T.FlatEntries, T.Merged;
    x := T.Table([], es);
    TableFormed(es, flags, flags.maxDepth - depth);
    TableFlat(x);
    assert T.Flat(x) + o.rest == [OPEN_OBJECT] + (T.FlatEntries(es) + [CLOSE_OBJECT] + o.rest);
  }

  lemma TableFormed(es: seq<T.Entry>, flags: Flags, levels: nat)
    requires T.EntriesFormed(es) && EntriesPermitted(es, flags, levels)
    ensures T.Formed(T.Table([], es)) && T.Permitted(T.Table([], es), flags, levels + 1)
  {
    hide T.Content;
  }

  predicate WereEntries(t: Bytes, es: seq<T.Entry>, o: Outcome, ms: seq<Member>, flags: Flags, depth: nat) {
    && o.Parsed? && depth <= flags.maxDepth && es != [] && T.EntriesFormed(es)
    && EntriesPermitted(es, flags, flags.maxDepth - depth) && NewKeys(ms, es, flags)
    && t == T.FlatEntries(es) + [CLOSE_OBJECT] + o.rest && o.value == JObject(T.Merged(ms, es))
  }

  lemma {:induction false} EntriesWere(t: Bytes, clean: bool, flags: Flags, depth: nat, ms: seq<Member>)
    returns (es: seq<T.Entry>)
    requires Valid(t) && depth <= flags.maxDepth
    requires var (tok, r) := Next(t, clean); MembersOf(tok, r, clean, flags, depth, ms).Parsed?
    ensures var (tok, r) := Next(t, clean); WereEntries(t, es, MembersOf(tok, r, clean, flags, depth, ms), ms, flags, depth)
    decreases |t|, 1
  {
    hide Next, ValueOf, MembersOf, Valid, WasText, WereEntries, Put, HasKey, T.Flat, T.Content, T.Ends;
    var (tok, t1) := Next(t, clean);
    MemberParsed(t, clean, flags, depth, ms);
    V.NextValid(t, clean);
    V.NextValid(t1, clean);
    var b, x := LeafBack(t, clean);
    var k := x.chars;
    var key := tok.val;
    var t2 := Next(t1, clean).1;
    var a := PunctBack(t1, clean);
    var (tok2, r2) := Next(t2, clean);
    var o := ValueOf(tok2, r2, clean, flags, depth);
    var w, y := ValueWas(t2, clean, flags, depth);
    ReadsIs(t2, o.rest, clean, flags, depth, o.value);
    MemberStep(t, t1, t2, o.rest, clean, flags, depth, key, o.value, ms);
    PutIsWith(ms, key, o.value);
    V.NextValid(o.rest, clean);
    var (tok3, t3) := Next(o.rest, clean);
    var c := PunctBack(o.rest, clean);
    var e := T.Entry(b, k, a, T.Item(w, y, c));
    if tok3 == TokenPunct(CLOSE_OBJECT) {
      es := [e];
      LastEntry(t, t2, e, o, t3, ms, flags, depth);
    } else {
      var rest := EntriesWere(t3, clean, flags, depth, T.With(ms, key, o.value));
      es := [e] + rest;
      MoreEntries(t, t2, e, o, t3, rest, MembersOf(tok, t1, clean, flags, depth, ms), ms, flags, depth);
    }
  }

  lemma MemberParsed(t: Bytes, clean: bool, flags: Flags, depth: nat, ms: seq<Member>)
    requires var (tok, r) := Next(t, clean); MembersOf(tok, r, clean, flags, depth, ms).Parsed?
    ensures var (tok, r) := Next(t, clean);
            && tok.TokenString? && 0 !in tok.val && (flags.rejectDuplicates ==> !HasKey(ms, tok.val))
            && Next(r, clean).0 == TokenPunct(COLON)
            && var (tok2, t2) := Next(Next(r, clean).1, clean);
               var o := ValueOf(tok2, t2, clean, flags, depth);
               o.Parsed? && Next(o.rest, clean).0 in {TokenPunct(COMMA), TokenPunct(CLOSE_OBJECT)}
  {
    hide Next, ValueOf, HasKey, Put;
  }

  // The text of an entry with something behind it.
  predicate WasEntry(t: Bytes, t2: Bytes, e: T.Entry, o: Outcome, ms: seq<Member>, flags: Flags, depth: nat) {
    && T.AllSpace(e.before) && T.AllSpelled(e.key) && T.AllSpace(e.after) && T.AllSpace(e.item.after)
    && t == e.before + T.Flat(T.Quote(e.key)) + (e.after + [COLON] + t2)
    && WasText(t2, e.item.before, e.item.tree, o, flags, depth)
    && 0 !in T.Content(e.key) && (flags.rejectDuplicates ==> !HasKey(ms, T.Content(e.key)))
  }

  lemma EntryFlat(t: Bytes, t2: Bytes, e: T.Entry, o: Outcome, ms: seq<Member>, flags: Flags, depth: nat)
    requires WasEntry(t, t2, e, o, ms, flags, depth)
    ensures t == e.before + (T.Flat(T.Quote(e.key)) + (e.after + [COLON] + (e.item.before + (T.Flat(e.item.tree) + o.rest))))
    ensures T.ItemFormed(e.item) && T.EntriesFormed([e])
  {
    hide T.Flat, T.Meaning, T.Ends, T.Content;
    assert t2 == e.item.before + (T.Flat(e.item.tree) + o.rest);
  }

  lemma LastEntry(t: Bytes, t2: Bytes, e: T.Entry, o: Outcome, u: Bytes, ms: seq<Member>, flags: Flags, depth: nat)
    requires WasEntry(t, t2, e, o, ms, flags, depth) && o.rest == e.item.after + [CLOSE_OBJECT] + u
    ensures WereEntries(t, [e], Parsed(JObject(T.With(ms, T.Content(e.key), o.value)), u), ms, flags, depth)
  {
    hide T.Flat, T.Meaning, T.Ends, T.Content, T.With, HasKey;
    EntryFlat(t, t2, e, o, ms, flags, depth);
    FirstEntry([e], u);
    FirstMerged(ms, [e]);
    hide T.FlatEntries, T.Merged;
  }

  lemma MoreEntries(t: Bytes, t2: Bytes, e: T.Entry, o: Outcome, t3: Bytes, rest: seq<T.Entry>, all: Outcome, ms: seq<Member>,
                    flags: Flags, depth: nat)
    requires WasEntry(t, t2, e, o, ms, flags, depth) && o.rest == e.item.after + [COMMA] + t3
    requires WereEntries(t3, rest, all, T.With(ms, T.Content(e.key), o.value), flags, depth)
    ensures WereEntries(t, [e] + rest, all, ms, flags, depth)
  {
    hide T.Flat, T.Meaning, T.Ends, T.Content, T.With, HasKey;
    var es := [e] + rest;
    assert es[1..] == rest;
    EntryFlat(t, t2, e, o, ms, flags, depth);
    FirstEntry(es, all.rest);
    FirstMerged(ms, es);
    hide T.FlatEntries, T.Merged;
    KeysApart(e, rest, o.value, ms, flags);
  }

  lemma KeysApart(e: T.Entry, rest: seq<T.Entry>, v: Json, ms: seq<Member>, flags: Flags)
    requires T.AllSpelled(e.key) && T.EntriesFormed(rest) && NewKeys(T.With(ms, T.Content(e.key), v), rest, flags)
    requires T.EntriesFormed([e] + rest) && (flags.rejectDuplicates ==> !HasKey(ms, T.Content(e.key)))
    ensures NewKeys(ms, [e] + rest, flags)
    ensures flags.rejectDuplicates ==> forall i :: 0 <= i < |rest| ==> T.Content(rest[i].key) != T.Content(e.key)
  {
    hide T.With, T.Content, HasKey;
    if flags.rejectDuplicates {
      forall i | 0 <= i < |rest|
        ensures T.AllSpelled(rest[i].key) && !HasKey(ms, T.Content(rest[i].key)) && T.Content(rest[i].key) != T.Content(e.key)
      {
        PutKeys(ms, T.Content(e.key), v, T.Content(rest[i].key));
      }
    }
  }
}
