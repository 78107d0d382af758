/**
  What the flags of the JSON printer make of a text (common/jansson/dump.c): where there is space, and how strings
  are spelled.
  */
module JsonLayout {
  import opened Options
  import opened Pieces
  import opened Utf
  import opened JsonStrings
  import opened JsonTokens
  import opened JsonValues
  import opened JsonLetters
  import opened JsonAccepted
  import T = JsonTexts
  import R = JsonRoundTrip
  import JsonPrinter

  // Upper-case hexadecimal digits.
  predicate Upper(ds: Bytes) {
    forall i :: 0 <= i < |ds| ==> 0x30 <= ds[i] <= 0x39 || 0x41 <= ds[i] <= 0x46
  }

  // How a character is spelled. JSON_ENSURE_ASCII: no character beyond 7F stands for itself; without the flag
  // each of them does. JSON_ESCAPE_SLASH: a slash has a backslash before it; without the flag it has none.
  // Control characters have a name or two zeros and two digits.
  predicate SpelledFor(p: T.Spelling, style: Style) {
    match p
    case Raw(cp) => cp <= (if style.ensureAscii then 0x7F else 0x10FFFF) && (style.escapeSlash ==> cp != 0x2F)
    case Short(c) => c == 0x2F ==> style.escapeSlash
    case Hex(ds) =>
      && T.FourDigits(ds) && Upper(ds)
      && if T.Unit(ds) < 0x20 then T.Unit(ds) !in {0x08, 0x09, 0x0A, 0x0C, 0x0D} else style.ensureAscii && T.Unit(ds) > 0x7F
    case Pair(h, l) => style.ensureAscii && Upper(h) && Upper(l)
  }

  predicate AllSpelledFor(ps: seq<T.Spelling>, style: Style) {
    forall p <- ps :: SpelledFor(p, style)
  }

  // JSON_INDENT: a new line, and so many blanks for each level. Without it there is one blank behind a comma,
  // and with JSON_COMPACT none.
  function Break(f: Format, level: nat, comma: bool): Bytes {
    if f.indent > 0 then [0x0A] + seq(level * f.indent, _ => 0x20)
    else if comma && !f.compact then [0x20]
    else []
  }

  // Where space is in the text of a value at some depth: before each element and member, and before the closing
  // bracket; and behind a colon, unless the text is compact.
  predicate Laid(t: T.Tree, f: Format, depth: nat)
    decreases t
  {
    match t
    case Word(_) => true
    case Number(minus, ds) => ds == [0x30] ==> !minus
    case Quote(ps) => AllSpelledFor(ps, f.style)
    case List(space, items) =>
      && space == []
      && forall i :: 0 <= i < |items| ==> ItemLaid(items[i], f, depth, i == 0, i + 1 == |items|, Break(f, depth + 1, i > 0))
    case Table(space, entries) =>
      && space == []
      && forall i :: 0 <= i < |entries| ==>
           && entries[i].before == Break(f, depth + 1, i > 0) && AllSpelledFor(entries[i].key, f.style) && entries[i].after == []
           && ItemLaid(entries[i].item, f, depth, i == 0, i + 1 == |entries|, if f.compact then [] else [0x20])
  }

  predicate ItemLaid(i: T.Item, f: Format, depth: nat, first: bool, last: bool, before: Bytes)
    decreases i
  {
    i.before == before && Laid(i.tree, f, depth + 1) && i.after == if last then Break(f, depth, false) else []
  }

  lemma BreakIs(f: Format, level: nat, comma: bool)
    ensures Indent(f, level, comma) == Break(f, level, comma) && T.AllSpace(Break(f, level, comma))
  {
    SpaceIs(Indent(f, level, comma));
  }

  // How the printer spells a character.
  function SpellingOf(cp: int, style: Style): (p: T.Spelling)
    requires Scalar(cp)
  {
    if !MustEscape(cp, style) then T.Raw(cp)
    else if |Escape(cp)| == 2 then T.Short(Escape(cp)[1])
    else if cp < 0x10000 then T.Hex(Hex4(cp))
    else T.Pair(Hex4(High(cp)), Hex4(LowHalf(cp)))
  }

  lemma Hex4Is(n: nat)
    requires n < 0x10000
    ensures T.FourDigits(Hex4(n)) && T.Unit(Hex4(n)) == n && Upper(Hex4(n))
  {
    Hex4Decoded(n);
    UnitIs(Hex4(n), []);
    assert Hex4(n) + [] == Hex4(n);
    DigitsUpper(n);
    hide Hex4, Decoded4, T.Unit;
  }

  lemma DigitsUpper(n: nat)
    requires n < 0x10000
    ensures Upper(Hex4(n))
  {
  }

  lemma CharacterSpelled(cp: int, style: Style)
    requires Scalar(cp)
    ensures var p := SpellingOf(cp, style);
            T.Spelled(p) && T.Meant(p) == cp && T.Letters(p) == CharText(cp, style) && SpelledFor(p, style)
  {
    if MustEscape(cp, style) && |Escape(cp)| != 2 {
      NumberSpelled(cp, style);
    }
  }

  lemma NumberSpelled(cp: int, style: Style)
    requires Scalar(cp) && MustEscape(cp, style) && |Escape(cp)| != 2
    ensures var p := SpellingOf(cp, style);
            T.Spelled(p) && T.Meant(p) == cp && T.Letters(p) == CharText(cp, style) && SpelledFor(p, style)
  {
    hide Hex4, T.FourDigits, T.Unit, Upper;
    if cp < 0x10000 {
      Hex4Is(cp);
    } else {
      Hex4Is(High(cp));
      Hex4Is(LowHalf(cp));
    }
  }

  lemma {:induction false} BodySpelled(cps: seq<int>, style: Style) returns (ps: seq<T.Spelling>)
    requires AllScalar(cps)
    ensures T.AllSpelled(ps) && AllSpelledFor(ps, style) && T.Inner(ps) == Body(cps, style) && T.Content(ps) == EncodeAll(cps)
  {
    hide CharText, SpelledFor, T.Spelled, T.Meant, T.Letters, Encode, SpellingOf;
    ps := [];
    if cps != [] {
      assert cps[0] in cps && Scalar(cps[0]) && forall c <- cps[1..] :: c in cps;
      CharacterSpelled(cps[0], style);
      var rest := BodySpelled(cps[1..], style);
      ps := [SpellingOf(cps[0], style)] + rest;
      assert ps[1..] == rest;
    }
  }

  lemma StringSpelled(s: Bytes, style: Style) returns (ps: seq<T.Spelling>)
    requires Valid(s)
    ensures T.AllSpelled(ps) && AllSpelledFor(ps, style) && T.Content(ps) == s
    ensures StringText(s, style) == [0x22] + T.Inner(ps) + [0x22]
  {
    hide Body, EncodeAll, T.AllSpelled, AllSpelledFor, T.Inner, T.Content;
    var cps: seq<int> :| AllScalar(cps) && EncodeAll(cps) == s;
    StringTextIs(cps, style);
    ps := BodySpelled(cps, style);
  }

  lemma IntegerSpelled(i: int) returns (ds: Bytes)
    requires INT_MIN <= i <= INT_MAX
    ensures T.Formed(T.Number(i < 0, ds)) && T.Signed(i < 0, ds) == i && IntegerText(i) == NumberText(i < 0, ds)
    ensures ds == [0x30] ==> i == 0
  {
    var n := if i < 0 then -i else i;
    ds := DecimalText(n);
    R.DecimalBack(n);
    hide DecimalText, Decimal, T.Numeral;
    assert forall k :: 0 <= k < |ds| ==> ds[k] in ds && IsDigit(ds[k]);
    NumeralIs(ds);
    ZeroIs();
  }

  lemma ZeroIs()
    ensures Decimal([0x30]) == 0
  {
    assert [0x30][..0] == [];
  }

  // The printed text of a value is laid out like that, and means the value.
  lemma {:induction false} TextLaid(v: Json, f: Format, depth: nat) returns (t: T.Tree)
    requires Printable(v) && R.Sound(v)
    ensures T.Formed(t) && T.Flat(t) == Text(v, f, depth) && T.Meaning(t) == v && Laid(t, f, depth)
    decreases v, 1, 0
  {
    hide StringText, IntegerText, T.Inner, T.Content, T.Signed, Break, Indent;
    match v {
      case JInteger(i) =>
        var ds := IntegerSpelled(i);
        t := T.Number(i < 0, ds);
        FlatLeaf(t);
      case JString(text) =>
        var ps := StringSpelled(text, f.style);
        t := T.Quote(ps);
      case JArray(elems) =>
        if elems == [] {
          t := T.List([], []);
        } else {
          var items := ItemsLaid(v, f, depth, 0);
          t := ListLaid(v, f, depth, items);
        }
      case JObject(members) =>
        if members == [] {
          t := T.Table([], []);
        } else {
          var es := EntriesLaid(v, f, depth, 0, []);
          t := TableLaid(v, f, depth, es);
        }
      case _ => t := T.Word(v);
    }
  }

  predicate LaidItems(items: seq<T.Item>, f: Format, depth: nat, begin: nat) {
    forall k :: 0 <= k < |items| ==>
      ItemLaid(items[k], f, depth, begin + k == 0, k + 1 == |items|, Break(f, depth + 1, begin + k > 0))
  }

  lemma ListLaid(v: Json, f: Format, depth: nat, items: seq<T.Item>) returns (t: T.Tree)
    requires v.JArray? && Printable(v) && v.elems != [] && items != [] && T.ItemsFormed(items) && LaidItems(items, f, depth, 0)
    requires T.FlatItems(items) + [CLOSE_ARRAY] == Break(f, depth + 1, false) + ElemsText(v, f, depth, 0)
    requires T.Meanings(items) == v.elems
    ensures T.Formed(t) && T.Flat(t) == Text(v, f, depth) && T.Meaning(t) == v && Laid(t, f, depth)
  {
    hide T.FlatItems, ElemsText, Break, Indent, T.Meanings, ItemLaid;
    t := T.List([], items);
    BreakIs(f, depth + 1, false);
    assert T.Flat(t) == [OPEN_ARRAY] + (T.FlatItems(items) + [CLOSE_ARRAY]);
  }

  lemma {:induction false} ItemsLaid(v: Json, f: Format, depth: nat, i: nat) returns (items: seq<T.Item>)
    requires v.JArray? && Printable(v) && R.Sound(v) && i < |v.elems|
    ensures items != [] && T.ItemsFormed(items) && LaidItems(items, f, depth, i)
    ensures T.FlatItems(items) + [CLOSE_ARRAY] == Break(f, depth + 1, i > 0) + ElemsText(v, f, depth, i)
    ensures T.Meanings(items) == v.elems[i..]
    decreases v, 0, |v.elems| - i
  {
    hide Text, Break, Indent, T.Flat, T.Meaning, Laid;
    var x := TextLaid(v.elems[i], f, depth + 1);
    var b := Break(f, depth + 1, i > 0);
    BreakIs(f, depth + 1, i > 0);
    BreakIs(f, depth + 1, true);
    BreakIs(f, depth, false);
    if i + 1 == |v.elems| {
      items := [T.Item(b, x, Break(f, depth, false))];
      assert v.elems[i..] == [v.elems[i]];
      FirstMeaning(items);
      hide T.Meanings;
      LastItemText(v, f, depth, i, items[0]);
    } else {
      var rest := ItemsLaid(v, f, depth, i + 1);
      var e := T.Item(b, x, []);
      items := [e] + rest;
      assert items[1..] == rest && v.elems[i..] == [v.elems[i]] + v.elems[i + 1..];
      FirstMeaning(items);
      hide T.Meanings;
      MoreItemText(v, f, depth, i, e, rest);
    }
  }

  lemma ElementsFrom(v: Json, f: Format, depth: nat, i: nat)
    requires v.JArray? && Printable(v) && i < |v.elems|
    ensures ElemsText(v, f, depth, i)
            == Text(v.elems[i], f, depth + 1)
               + (Behind(f, depth, i + 1 == |v.elems|, CLOSE_ARRAY) + ElemsText(v, f, depth, i + 1))
    ensures ElemsText(v, f, depth, |v.elems|) == []
  {
    hide Text, Behind;
  }

  lemma LastItemText(v: Json, f: Format, depth: nat, i: nat, e: T.Item)
    requires v.JArray? && Printable(v) && i + 1 == |v.elems| && T.ItemFormed(e)
    requires e.before == Break(f, depth + 1, i > 0) && e.after == Break(f, depth, false)
    requires T.Flat(e.tree) == Text(v.elems[i], f, depth + 1)
    ensures T.FlatItems([e]) + [CLOSE_ARRAY] == Break(f, depth + 1, i > 0) + ElemsText(v, f, depth, i)
  {
    hide Text, Break, T.Flat, ElemsText, Behind;
    ElementsFrom(v, f, depth, i);
    BehindIs(f, depth, true, CLOSE_ARRAY);
    var a := Behind(f, depth, true, CLOSE_ARRAY);
    assert a + [] == a;
    FirstItem([e], []);
    hide T.FlatItems;
    GroupLast(T.FlatItems([e]) + [CLOSE_ARRAY], e.before, T.Flat(e.tree), e.after + [CLOSE_ARRAY]);
  }

  lemma MoreItemText(v: Json, f: Format, depth: nat, i: nat, e: T.Item, rest: seq<T.Item>)
    requires v.JArray? && Printable(v) && i + 1 < |v.elems| && T.ItemFormed(e) && rest != [] && T.ItemsFormed(rest)
    requires e.before == Break(f, depth + 1, i > 0) && e.after == []
    requires T.Flat(e.tree) == Text(v.elems[i], f, depth + 1)
    requires T.FlatItems(rest) + [CLOSE_ARRAY] == Break(f, depth + 1, true) + ElemsText(v, f, depth, i + 1)
    ensures T.ItemsFormed([e] + rest)
    ensures T.FlatItems([e] + rest) + [CLOSE_ARRAY] == Break(f, depth + 1, i > 0) + ElemsText(v, f, depth, i)
  {
    hide Text, Break, T.Flat, ElemsText, Behind;
    ElementsFrom(v, f, depth, i);
    BehindIs(f, depth, false, CLOSE_ARRAY);
    CommaGroup(Break(f, depth + 1, true), ElemsText(v, f, depth, i + 1));
    var items := [e] + rest;
    assert items[1..] == rest;
    FirstItem(items, []);
    hide T.FlatItems;
    GroupMore(T.FlatItems(items) + [CLOSE_ARRAY], e.before, T.Flat(e.tree), T.FlatItems(rest) + [CLOSE_ARRAY],
              Break(f, depth + 1, true) + ElemsText(v, f, depth, i + 1));
  }

  lemma GroupLast(all: Bytes, b: Bytes, x: Bytes, a: Bytes)
    requires all + [] == b + (x + (a + []))
    ensures all == b + (x + (a + []))
  {
  }

  lemma GroupMore(all: Bytes, b: Bytes, x: Bytes, r: Bytes, s: Bytes)
    requires all + [] == b + (x + ([] + [COMMA] + (r + []))) && r == s
    ensures all == b + (x + ([COMMA] + s))
  {
    assert [] + [COMMA] + (r + []) == [COMMA] + s;
  }

  predicate LaidEntries(es: seq<T.Entry>, f: Format, depth: nat, begin: nat) {
    forall k :: 0 <= k < |es| ==>
      && es[k].before == Break(f, depth + 1, begin + k > 0) && AllSpelledFor(es[k].key, f.style) && es[k].after == []
      && ItemLaid(es[k].item, f, depth, begin + k == 0, k + 1 == |es|, if f.compact then [] else [0x20])
  }

  lemma TableLaid(v: Json, f: Format, depth: nat, es: seq<T.Entry>) returns (t: T.Tree)
    requires v.JObject? && Printable(v) && v.members != [] && es != [] && T.EntriesFormed(es) && LaidEntries(es, f, depth, 0)
    requires T.FlatEntries(es) + [CLOSE_OBJECT] == Break(f, depth + 1, false) + MembersText(v, f, depth, 0)
    requires T.Merged([], es) == v.members
    ensures T.Formed(t) && T.Flat(t) == Text(v, f, depth) && T.Meaning(t) == v && Laid(t, f, depth)
  {
    hide T.FlatEntries, MembersText, Break, Indent, T.Merged, ItemLaid;
    t := T.Table([], es);
    BreakIs(f, depth + 1, false);
    assert T.Flat(t) == [OPEN_OBJECT] + (T.FlatEntries(es) + [CLOSE_OBJECT]);
  }

  // A new key comes last.
  lemma {:induction false} NewKeyLast(ms: seq<Member>, key: Bytes, value: Json)
    requires forall i :: 0 <= i < |ms| ==> ms[i].key != key
    ensures T.With(ms, key, value) == ms + [Member(key, value)]
  {
  }

  lemma {:induction false} EntriesLaid(v: Json, f: Format, depth: nat, i: nat, ms: seq<Member>) returns (es: seq<T.Entry>)
    requires v.JObject? && Printable(v) && R.Sound(v) && i < |v.members| && ms == v.members[..i]
    ensures es != [] && T.EntriesFormed(es) && LaidEntries(es, f, depth, i)
    ensures T.FlatEntries(es) + [CLOSE_OBJECT] == Break(f, depth + 1, i > 0) + MembersText(v, f, depth, i)
    ensures T.Merged(ms, es) == v.members
    decreases v, 0, |v.members| - i
  {
    hide Text, StringText, Break, T.Flat, T.Meaning, Laid, T.Content, T.With, T.Inner, T.FlatEntries, T.Merged, MembersText;
    hide Printable, R.Sound, Valid;
    MemberFine(v, i);
    var m := v.members[i];
    var e := EntryLaid(v, f, depth, i);
    NewKeyLast(ms, m.key, m.value);
    assert v.members[..i] + [m] == v.members[..i + 1];
    if i + 1 == |v.members| {
      es := [e];
      FirstMerged(ms, es);
      assert v.members[..i + 1] == v.members;
      LastEntryText(v, f, depth, i, e);
    } else {
      var rest := EntriesLaid(v, f, depth, i + 1, v.members[..i + 1]);
      es := [e] + rest;
      assert es[1..] == rest;
      MoreEntryText(v, f, depth, i, e, rest);
      FirstMerged(ms, es);
    }
  }

  lemma MemberFine(v: Json, i: nat)
    requires v.JObject? && Printable(v) && R.Sound(v) && i < |v.members|
    ensures Valid(v.members[i].key) && Printable(v.members[i].value) && R.Sound(v.members[i].value)
    ensures forall k :: 0 <= k < i ==> v.members[k].key != v.members[i].key
  {
  }

  lemma {:induction false} EntryLaid(v: Json, f: Format, depth: nat, i: nat) returns (e: T.Entry)
    requires v.JObject? && Printable(v) && R.Sound(v) && i < |v.members|
    ensures EntryText(v, f, depth, i, e) && AllSpelledFor(e.key, f.style) && T.Meaning(e.item.tree) == v.members[i].value
    ensures ItemLaid(e.item, f, depth, i == 0, i + 1 == |v.members|, if f.compact then [] else [0x20])
    decreases v, 0, 0
  {
    hide Text, StringText, Break, Indent, T.Flat, T.Meaning, Laid, T.Content, T.Inner, Printable, R.Sound, Valid, AllSpelledFor;
    MemberFine(v, i);
    var m := v.members[i];
    var ps := StringSpelled(m.key, f.style);
    var x := TextLaid(m.value, f, depth + 1);
    BreakIs(f, depth + 1, i > 0);
    BreakIs(f, depth, false);
    QuoteFlat(ps);
    e := T.Entry(Break(f, depth + 1, i > 0), ps, [],
                 T.Item(if f.compact then [] else [0x20], x, if i + 1 == |v.members| then Break(f, depth, false) else []));
  }

  predicate EntryFor(v: Json, f: Format, depth: nat, i: nat, e: T.Entry)
    requires v.JObject? && i < |v.members|
  {
    && T.EntriesFormed([e]) && T.AllSpelled(e.key) && T.Content(e.key) == v.members[i].key && T.ItemFormed(e.item)
    && e.before == Break(f, depth + 1, i > 0) && e.after == [] && e.item.before == (if f.compact then [] else [0x20])
  }

  ghost predicate EntryText(v: Json, f: Format, depth: nat, i: nat, e: T.Entry)
    requires v.JObject? && Printable(v) && i < |v.members|
  {
    && EntryFor(v, f, depth, i, e) && StringText(v.members[i].key, f.style) == T.Flat(T.Quote(e.key))
    && T.Flat(e.item.tree) == Text(v.members[i].value, f, depth + 1)
  }

  lemma LastEntryText(v: Json, f: Format, depth: nat, i: nat, e: T.Entry)
    requires v.JObject? && Printable(v) && i + 1 == |v.members| && EntryText(v, f, depth, i, e)
    requires e.item.after == Break(f, depth, false)
    ensures T.FlatEntries([e]) + [CLOSE_OBJECT] == Break(f, depth + 1, i > 0) + MembersText(v, f, depth, i)
  {
    hide Text, StringText, Break, T.Flat, T.Content, MembersText;
    LastMember(v, f, depth, i);
    FirstEntry([e], []);
    hide T.FlatEntries;
    GroupLastEntry(T.FlatEntries([e]) + [CLOSE_OBJECT], e.before, T.Flat(T.Quote(e.key)), e.item.before, T.Flat(e.item.tree),
                   e.item.after + [CLOSE_OBJECT]);
  }

  lemma MoreEntryText(v: Json, f: Format, depth: nat, i: nat, e: T.Entry, rest: seq<T.Entry>)
    requires v.JObject? && Printable(v) && i + 1 < |v.members| && EntryText(v, f, depth, i, e)
    requires e.item.after == [] && rest != [] && T.EntriesFormed(rest)
    requires T.FlatEntries(rest) + [CLOSE_OBJECT] == Break(f, depth + 1, true) + MembersText(v, f, depth, i + 1)
    ensures T.EntriesFormed([e] + rest)
    ensures T.FlatEntries([e] + rest) + [CLOSE_OBJECT] == Break(f, depth + 1, i > 0) + MembersText(v, f, depth, i)
  {
    hide Text, StringText, Break, T.Flat, T.Content, MembersText;
    NextMember(v, f, depth, i);
    var es := [e] + rest;
    assert es[1..] == rest;
    FirstEntry(es, []);
    hide T.FlatEntries;
    GroupMoreEntry(T.FlatEntries(es) + [CLOSE_OBJECT], e.before, T.Flat(T.Quote(e.key)), e.item.before, T.Flat(e.item.tree),
                   T.FlatEntries(rest) + [CLOSE_OBJECT], Break(f, depth + 1, true) + MembersText(v, f, depth, i + 1));
  }

  lemma QuoteFlat(ps: seq<T.Spelling>)
    requires T.AllSpelled(ps)
    ensures T.Flat(T.Quote(ps)) == [0x22] + T.Inner(ps) + [0x22]
  {
  }

  lemma BehindIs(f: Format, depth: nat, last: bool, close: byte)
    ensures Behind(f, depth, last, close) == if last then Break(f, depth, false) + [close] else [COMMA] + Break(f, depth + 1, true)
  {
    hide Break, Indent;
    BreakIs(f, depth, false);
    BreakIs(f, depth + 1, true);
  }

  // The text from a member on, piece by piece.
  lemma MembersFrom(v: Json, f: Format, depth: nat, i: nat)
    requires v.JObject? && Printable(v) && i < |v.members|
    ensures var m, last := v.members[i], i + 1 == |v.members|;
            MembersText(v, f, depth, i)
            == StringText(m.key, f.style)
               + (Separator(f) + (Text(m.value, f, depth + 1)
                                  + (Behind(f, depth, last, CLOSE_OBJECT) + MembersText(v, f, depth, i + 1))))
    ensures MembersText(v, f, depth, |v.members|) == []
    ensures Separator(f) == [COLON] + if f.compact then [] else [0x20]
  {
    hide Text, StringText, Behind;
  }

  lemma LastMember(v: Json, f: Format, depth: nat, i: nat)
    requires v.JObject? && Printable(v) && i + 1 == |v.members|
    ensures var m, s := v.members[i], if f.compact then [] else [0x20];
            MembersText(v, f, depth, i)
            == StringText(m.key, f.style) + ([COLON] + s + (Text(m.value, f, depth + 1) + (Break(f, depth, false) + [CLOSE_OBJECT])))
  {
    hide Text, StringText, Break, Behind, MembersText, Separator;
    MembersFrom(v, f, depth, i);
    BehindIs(f, depth, true, CLOSE_OBJECT);
    var e := Behind(f, depth, true, CLOSE_OBJECT);
    assert e + [] == e;
  }

  lemma NextMember(v: Json, f: Format, depth: nat, i: nat)
    requires v.JObject? && Printable(v) && i + 1 < |v.members|
    ensures var m, s := v.members[i], if f.compact then [] else [0x20];
            MembersText(v, f, depth, i)
            == StringText(m.key, f.style)
               + ([COLON] + s + (Text(m.value, f, depth + 1) + ([COMMA] + (Break(f, depth + 1, true) + MembersText(v, f, depth, i + 1)))))
  {
    hide Text, StringText, Break, Behind, MembersText, Separator;
    MembersFrom(v, f, depth, i);
    BehindIs(f, depth, false, CLOSE_OBJECT);
    CommaGroup(Break(f, depth + 1, true), MembersText(v, f, depth, i + 1));
  }

  lemma CommaGroup(c: Bytes, r: Bytes)
    ensures [COMMA] + c + r == [COMMA] + (c + r)
  {
  }

  lemma GroupLastEntry(all: Bytes, b: Bytes, k: Bytes, s: Bytes, x: Bytes, a: Bytes)
    requires all + [] == b + (k + ([] + [COLON] + (s + (x + (a + [])))))
    ensures all == b + (k + ([COLON] + s + (x + a)))
  {
    assert [] + [COLON] + (s + (x + (a + []))) == [COLON] + s + (x + a);
  }

  lemma GroupMoreEntry(all: Bytes, b: Bytes, k: Bytes, s: Bytes, x: Bytes, r: Bytes, t: Bytes)
    requires all + [] == b + (k + ([] + [COLON] + (s + (x + ([] + [COMMA] + (r + [])))))) && r == t
    ensures all == b + (k + ([COLON] + s + (x + ([COMMA] + t))))
  {
    assert [] + [COMMA] + (r + []) == [COMMA] + t;
    assert [] + [COLON] + (s + (x + ([COMMA] + t))) == [COLON] + s + (x + ([COMMA] + t));
  }

  // No space anywhere outside strings.
  predicate Tight(t: T.Tree)
    decreases t
  {
    match t
    case List(space, items) =>
      space == [] && forall i :: 0 <= i < |items| ==> items[i].before == [] && Tight(items[i].tree) && items[i].after == []
    case Table(space, entries) =>
      && space == []
      && forall i :: 0 <= i < |entries| ==>
           && entries[i].before == [] && entries[i].after == []
           && entries[i].item.before == [] && Tight(entries[i].item.tree) && entries[i].item.after == []
    case _ => true
  }

  // Compact text on one line has none.
  lemma {:induction false} CompactTight(t: T.Tree, f: Format, depth: nat)
    requires Laid(t, f, depth) && f.compact && f.indent == 0
    ensures Tight(t)
    decreases t
  {
    match t
    case List(_, items) =>
      forall i | 0 <= i < |items|
        ensures items[i].before == [] && Tight(items[i].tree) && items[i].after == []
      {
        CompactTight(items[i].tree, f, depth + 1);
      }
    case Table(_, entries) =>
      forall i | 0 <= i < |entries|
        ensures entries[i].before == [] && entries[i].after == []
        ensures entries[i].item.before == [] && Tight(entries[i].item.tree) && entries[i].item.after == []
      {
        CompactTight(entries[i].item.tree, f, depth + 1);
      }
    case _ =>
  }

  predicate Ascii(s: Bytes) {
    forall i :: 0 <= i < |s| ==> s[i] < 0x80
  }

  lemma AsciiJoin(s: Bytes, t: Bytes)
    requires Ascii(s) && Ascii(t)
    ensures Ascii(s + t)
  {
  }

  lemma CharacterAscii(cp: int, style: Style)
    requires Scalar(cp) && style.ensureAscii
    ensures Ascii(CharText(cp, style))
  {
  }

  lemma {:induction false} BodyAscii(cps: seq<int>, style: Style)
    requires AllScalar(cps) && style.ensureAscii
    ensures Ascii(Body(cps, style))
  {
    hide CharText;
    if cps != [] {
      assert cps[0] in cps && Scalar(cps[0]) && forall c <- cps[1..] :: c in cps;
      CharacterAscii(cps[0], style);
      BodyAscii(cps[1..], style);
    }
  }

  lemma StringAscii(s: Bytes, style: Style)
    requires style.ensureAscii
    ensures Ascii(StringText(s, style))
  {
    hide Body, EncodeAll;
    if Valid(s) {
      var cps: seq<int> :| AllScalar(cps) && EncodeAll(cps) == s;
      StringTextIs(cps, style);
      BodyAscii(cps, style);
    } else {
      JsonPrinter.CutScalar(s, style);
      BodyAscii(JsonPrinter.UpToEscape(JsonPrinter.Leading(s), style), style);
    }
  }

  lemma IndentAscii(f: Format, depth: nat, comma: bool)
    ensures Ascii(Indent(f, depth, comma))
  {
    var s := Indent(f, depth, comma);
    assert forall i :: 0 <= i < |s| ==> s[i] in s && IsSpace(s[i]);
  }

  lemma BehindAscii(f: Format, depth: nat, last: bool, close: byte)
    requires close < 0x80
    ensures Ascii(Behind(f, depth, last, close))
  {
    hide Indent;
    IndentAscii(f, depth, false);
    IndentAscii(f, depth + 1, true);
  }

  // With JSON_ENSURE_ASCII every byte of a text is below 80 hexadecimal, whatever the keys are.
  lemma {:induction false} TextAscii(v: Json, f: Format, depth: nat)
    requires Printable(v) && f.style.ensureAscii
    ensures Ascii(Text(v, f, depth))
    decreases v, 1, 0
  {
    hide StringText, Indent, DecimalText;
    match v
    case JInteger(i) => IntegerAscii(i);
    case JString(text) => StringAscii(text, f.style);
    case JArray(elems) =>
      IndentAscii(f, depth + 1, false);
      ElementsAscii(v, f, depth, 0);
    case JObject(members) =>
      IndentAscii(f, depth + 1, false);
      MembersAscii(v, f, depth, 0);
    case _ =>
  }

  lemma IntegerAscii(i: int)
    ensures Ascii(IntegerText(i))
  {
    hide DecimalText;
    var ds := DecimalText(if i < 0 then -i else i);
    assert forall k :: 0 <= k < |ds| ==> ds[k] in ds && IsDigit(ds[k]);
  }

  lemma {:induction false} ElementsAscii(v: Json, f: Format, depth: nat, i: nat)
    requires v.JArray? && Printable(v) && i <= |v.elems| && f.style.ensureAscii
    ensures Ascii(ElemsText(v, f, depth, i))
    decreases v, 0, |v.elems| - i
  {
    hide Text, Behind;
    if i < |v.elems| {
      TextAscii(v.elems[i], f, depth + 1);
      BehindAscii(f, depth, i + 1 == |v.elems|, CLOSE_ARRAY);
      ElementsAscii(v, f, depth, i + 1);
    }
  }

  lemma {:induction false} MembersAscii(v: Json, f: Format, depth: nat, i: nat)
    requires v.JObject? && Printable(v) && i <= |v.members| && f.style.ensureAscii
    ensures Ascii(MembersText(v, f, depth, i))
    decreases v, 0, |v.members| - i
  {
    hide Text, Behind, StringText;
    if i < |v.members| {
      var m, last := v.members[i], i + 1 == |v.members|;
      StringAscii(m.key, f.style);
      TextAscii(m.value, f, depth + 1);
      BehindAscii(f, depth, last, CLOSE_OBJECT);
      MembersAscii(v, f, depth, i + 1);
      MembersFrom(v, f, depth, i);
      hide MembersText;
      AsciiJoin(Behind(f, depth, last, CLOSE_OBJECT), MembersText(v, f, depth, i + 1));
      AsciiJoin(Text(m.value, f, depth + 1), Behind(f, depth, last, CLOSE_OBJECT) + MembersText(v, f, depth, i + 1));
    }
  }

  // Known texts: a letter beyond ASCII, a character beyond the first 65536, and a slash.
  lemma KnownStrings()
    ensures StringText([0xC3, 0xA9], Style(false, false)) == [0x22, 0xC3, 0xA9, 0x22]
    ensures StringText([0xC3, 0xA9], Style(true, false)) == [0x22, 0x5C, 0x75, 0x30, 0x30, 0x45, 0x39, 0x22]
    ensures StringText([0xF0, 0x9D, 0x84, 0x9E], Style(true, false))
            == [0x22, 0x5C, 0x75, 0x44, 0x38, 0x33, 0x34, 0x5C, 0x75, 0x44, 0x44, 0x31, 0x45, 0x22]
    ensures StringText([0x2F], Style(false, true)) == [0x22, 0x5C, 0x2F, 0x22]
    ensures StringText([0x2F], Style(false, false)) == [0x22, 0x2F, 0x22]
  {
    hide CharText, Encode, StringText;
    KnownCodes();
    KnownEscapes();
    OneCharacterText(0xE9, Style(false, false));
    OneCharacterText(0xE9, Style(true, false));
    OneCharacterText(0x1D11E, Style(true, false));
    OneCharacterText(0x2F, Style(false, true));
    OneCharacterText(0x2F, Style(false, false));
  }

  lemma KnownEscapes()
    ensures CharText(0xE9, Style(false, false)) == [0xC3, 0xA9]
    ensures CharText(0xE9, Style(true, false)) == [0x5C, 0x75, 0x30, 0x30, 0x45, 0x39]
    ensures CharText(0x1D11E, Style(true, false))
            == [0x5C, 0x75, 0x44, 0x38, 0x33, 0x34] + [0x5C, 0x75, 0x44, 0x44, 0x31, 0x45]
    ensures CharText(0x2F, Style(false, true)) == [0x5C, 0x2F] && CharText(0x2F, Style(false, false)) == [0x2F]
  {
    KnownCodes();
    hide Encode;
    assert High(0x1D11E) == 0xD834 && LowHalf(0x1D11E) == 0xDD1E;
    hide High, LowHalf;
    KnownHex();
    hide Hex4;
  }

  lemma KnownHex()
    ensures Hex4(0xE9) == [0x30, 0x30, 0x45, 0x39]
    ensures Hex4(0xD834) == [0x44, 0x38, 0x33, 0x34] && Hex4(0xDD1E) == [0x44, 0x44, 0x31, 0x45]
  {
  }

  lemma OneCharacterText(cp: int, style: Style)
    requires Scalar(cp)
    ensures StringText(Encode(cp).value, style) == [QUOTE] + CharText(cp, style) + [QUOTE]
  {
    hide CharText, Encode;
    StringTextIs([cp], style);
    assert [cp][1..] == [];
    assert EncodeAll([cp]) == Encode(cp).value + [] == Encode(cp).value;
    assert Body([cp], style) == CharText(cp, style) + [] == CharText(cp, style);
  }
}
