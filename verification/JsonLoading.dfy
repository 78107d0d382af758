/**
  json_loads makes a value of its input exactly if the input is a text of that value (common/jansson/load.c).
  */
module JsonLoading {
  import opened Options
  import opened Pieces
  import opened Utf
  import opened JsonTokens
  import opened JsonValues
  import opened JsonGrammar
  import opened JsonLetters
  import opened JsonAccepted
  import T = JsonTexts
  import V = JsonValidity
  import opened JsonStream

  // Bytes below 80 hexadecimal are characters.
  lemma {:induction false} AsciiValid(s: Bytes)
    requires forall i :: 0 <= i < |s| ==> s[i] < 0x80
    ensures Valid(s)
  {
    hide Valid, Encode;
    if s == [] {
      V.NothingValid();
    } else {
      OneByte(s[0]);
      V.OneValid(s[0] as int);
      AsciiValid(s[1..]);
      V.ValidJoin([s[0]], s[1..]);
      assert [s[0]] + s[1..] == s;
    }
  }

  lemma SpaceValid(w: Bytes)
    requires T.AllSpace(w)
    ensures Valid(w)
  {
    assert forall i :: 0 <= i < |w| ==> w[i] in w;
    AsciiValid(w);
  }

  lemma LettersValid(p: T.Spelling)
    requires T.Spelled(p)
    ensures Valid(T.Letters(p))
  {
    hide Valid, Encode;
    if p.Raw? {
      V.OneValid(p.cp);
    } else {
      AsciiValid(T.Letters(p));
    }
  }

  lemma {:induction false} InnerValid(ps: seq<T.Spelling>)
    requires T.AllSpelled(ps)
    ensures Valid(T.Inner(ps))
  {
    hide Valid, T.Letters, T.Spelled;
    if ps == [] {
      V.NothingValid();
    } else {
      assert ps[0] in ps && forall p <- ps[1..] :: p in ps;
      LettersValid(ps[0]);
      InnerValid(ps[1..]);
      V.ValidJoin(T.Letters(ps[0]), T.Inner(ps[1..]));
    }
  }

  lemma QuoteValid(ps: seq<T.Spelling>)
    requires T.AllSpelled(ps)
    ensures Valid([0x22] + T.Inner(ps) + [0x22])
  {
    hide Valid, T.Inner, T.AllSpelled;
    AsciiValid([0x22]);
    InnerValid(ps);
    JoinThree([0x22], T.Inner(ps), [0x22]);
  }

  lemma JoinThree(a: Bytes, b: Bytes, c: Bytes)
    requires Valid(a) && Valid(b) && Valid(c)
    ensures Valid(a + b + c)
  {
    hide Valid;
    V.ValidJoin(a, b);
    V.ValidJoin(a + b, c);
  }

  // What a tree spells is UTF-8.
  lemma {:induction false} FlatValid(x: T.Tree)
    requires T.Formed(x)
    ensures Valid(T.Flat(x))
    decreases x
  {
    hide Valid, T.FlatItems, T.FlatEntries, T.Inner, T.AllSpelled, T.Signed;
    match x {
      case List(space, items) =>
        if items == [] {
          SpaceValid(space);
        } else {
          ItemsValid(items);
        }
        AsciiValid([0x5B]);
        AsciiValid([0x5D]);
        JoinThree([0x5B], if items == [] then space else T.FlatItems(items), [0x5D]);
      case Table(space, entries) =>
        if entries == [] {
          SpaceValid(space);
        } else {
          EntriesValid(entries);
        }
        AsciiValid([0x7B]);
        AsciiValid([0x7D]);
        JoinThree([0x7B], if entries == [] then space else T.FlatEntries(entries), [0x7D]);
      case Quote(ps) => QuoteValid(ps);
      case _ => AsciiValid(T.Flat(x));
    }
  }

  lemma {:induction false} ItemValid(i: T.Item)
    requires T.ItemFormed(i)
    ensures Valid(T.FlatItem(i))
    decreases i
  {
    hide Valid, T.Flat, T.AllSpace;
    SpaceValid(i.before);
    FlatValid(i.tree);
    SpaceValid(i.after);
    JoinThree(i.before, T.Flat(i.tree), i.after);
  }

  lemma {:induction false} ItemsValid(items: seq<T.Item>)
    requires items != [] && T.ItemsFormed(items)
    ensures Valid(T.FlatItems(items))
    decreases items
  {
    hide Valid, T.FlatItem;
    ItemValid(items[0]);
    AsciiValid([COMMA]);
    if |items| == 1 {
      assert T.FlatItem(items[0]) + [] == T.FlatItem(items[0]);
    } else {
      ItemsValid(items[1..]);
      V.ValidJoin([COMMA], T.FlatItems(items[1..]));
      V.ValidJoin(T.FlatItem(items[0]), [COMMA] + T.FlatItems(items[1..]));
    }
  }

  lemma {:induction false} EntriesValid(es: seq<T.Entry>)
    requires es != [] && T.EntriesFormed(es)
    ensures Valid(T.FlatEntries(es))
    decreases es
  {
    hide Valid, T.FlatItem, T.Inner, T.AllSpace, T.AllSpelled;
    var e := es[0];
    var q := [0x22] + T.Inner(e.key) + [0x22];
    SpaceValid(e.before);
    QuoteValid(e.key);
    SpaceValid(e.after);
    JoinThree(e.before, q, e.after);
    AsciiValid([COLON]);
    ItemValid(e.item);
    JoinThree(e.before + q + e.after, [COLON], T.FlatItem(e.item));
    AsciiValid([COMMA]);
    if |es| == 1 {
      V.NothingValid();
      V.ValidJoin(e.before + q + e.after + [COLON] + T.FlatItem(e.item), []);
    } else {
      EntriesValid(es[1..]);
      V.ValidJoin([COMMA], T.FlatEntries(es[1..]));
      V.ValidJoin(e.before + q + e.after + [COLON] + T.FlatItem(e.item), [COMMA] + T.FlatEntries(es[1..]));
    }
  }

  // The lexer gets at least the valid part at the front of its input.
  lemma PrefixDelivered(p: Bytes, rest: Bytes)
    requires Valid(p)
    ensures p <= Delivered(p + rest)
  {
    hide Encode, EncodeAll;
    var cps: seq<int> :| AllScalar(cps) && EncodeAll(cps) == p;
    NoCharacters();
    assert p[..0] == [];
    PrefixGood(p, rest, cps, []);
    var d := Delivered(p + rest);
    assert d[..|p|] == (p + rest)[..|p|] == p;
  }

  lemma {:induction false} PrefixGood(p: Bytes, rest: Bytes, cps: seq<int>, done: seq<int>)
    requires AllScalar(cps) && AllScalar(done) && EncodeAll(cps) == p && EncodeAll(done) <= p
    ensures |EncodeAll(done)| <= |p + rest| && Good(p + rest, |EncodeAll(done)|) >= |p|
    decreases |p| - |EncodeAll(done)|
  {
    hide EncodeAll, Encode;
    var s, i := p + rest, |EncodeAll(done)|;
    if i < |p| {
      OneMoreCharacter(p, cps, done);
      var c := cps[|done|];
      AtCharacter(p, i, c);
      EncodeAllMore(done, c);
      var n := CheckFirst(p[i]);
      assert p[..i + n] == p[..i] + p[i..i + n];
      CharacterStays(p, rest, i, c);
      GoodStep(s, i);
      PrefixGood(p, rest, cps, done + [c]);
    }
  }

  lemma CharacterStays(p: Bytes, rest: Bytes, i: nat, c: int)
    requires i < |p| && CharacterAt(p, i, c)
    ensures HasCharacter(p + rest, i) && CheckFirst((p + rest)[i]) == CheckFirst(p[i])
  {
    hide Encode;
    AtCharacter(p, i, c);
    var e := Encode(c).value;
    assert (p + rest)[i..] == p[i..] + rest;
    assert CharacterAt(p + rest, i, c);
  }

  // What stops it is no character of one byte.
  lemma {:induction false} GoodStops(s: Bytes, i: nat)
    requires i <= |s|
    ensures Good(s, i) < |s| ==> s[Good(s, i)] >= 0x80
    decreases |s| - i
  {
    hide Encode;
    if i < |s| {
      GoodStep(s, i);
      if HasCharacter(s, i) {
        GoodStops(s, i + CheckFirst(s[i]));
      } else if s[i] < 0x80 {
        OneByte(s[i]);
        OneStands(s, i);
      }
    }
  }

  lemma OneStands(s: Bytes, i: nat)
    requires i < |s| && s[i] < 0x80
    ensures HasCharacter(s, i)
  {
    OneByte(s[i]);
    assert s[i..][..1] == [s[i]];
    assert CharacterAt(s, i, s[i] as int);
  }

  lemma EndsAlike(x: T.Tree, a: Bytes, b: Bytes)
    requires a <= b && (a == [] && b != [] ==> b[0] >= 0x80)
    ensures T.Ends(x, a) <==> T.Ends(x, b)
  {
  }

  // A text is read as its value.
  lemma TextReads(input: Bytes, w: Bytes, x: T.Tree, rest: Bytes, flags: Flags)
    requires T.Splits(input, w, x, rest, flags)
    ensures var d := Delivered(input);
            var o := DocumentOf(d, d == input, flags);
            o.Parsed? && o.value == T.Meaning(x)
  {
    hide Valid, Delivered, T.Flat, T.Meaning, T.Ends, Next, ValueOf;
    var p := w + T.Flat(x);
    SpaceValid(w);
    FlatValid(x);
    V.ValidJoin(w, T.Flat(x));
    PrefixDelivered(p, rest);
    var d := Delivered(input);
    var clean := d == input;
    var r := d[|p|..];
    assert d == w + (T.Flat(x) + r);
    RestDelivered(input, p, rest);
    if !flags.disableEofCheck {
      SpaceValid(rest);
      V.ValidJoin(p, rest);
      ValidDelivered(input);
      assert r == rest;
      EndsSpace(x, rest);
      EofIs(rest, true);
    } else {
      EndsAlike(x, r, rest);
    }
    TreeReads(x, r, clean, flags, 0);
    SpaceRead(w, T.Flat(x) + r, clean);
    DocumentIs(d, clean, flags, T.Flat(x) + r, r, x);
  }

  lemma RestDelivered(input: Bytes, p: Bytes, rest: Bytes)
    requires input == p + rest && p <= Delivered(input)
    ensures var r := Delivered(input)[|p|..]; r <= rest && (r == [] && rest != [] ==> rest[0] >= 0x80)
  {
    hide Good;
    var d := Delivered(input);
    GoodStops(input, 0);
    assert d == input[..|d|];
    assert rest == input[|p|..] && d[|p|..] == input[|p|..|d|];
    assert input[|p|..|d|] == rest[..|d| - |p|];
  }

  lemma DocumentIs(d: Bytes, clean: bool, flags: Flags, t: Bytes, r: Bytes, x: T.Tree)
    requires T.Formed(x) && Next(d, clean) == Next(t, clean) && Reads(t, r, clean, flags, 0, T.Meaning(x))
    requires Next(t, clean).0 == TokenPunct(OPEN_ARRAY) <==> x.List?
    requires Next(t, clean).0 == TokenPunct(OPEN_OBJECT) <==> x.Table?
    requires flags.decodeAny || x.List? || x.Table?
    requires !flags.disableEofCheck ==> Next(r, clean).0.TokenEof?
    ensures DocumentOf(d, clean, flags) == Parsed(T.Meaning(x), r)
  {
    hide Next, ValueOf, T.Meaning;
  }

  // What is read was a text.
  lemma DocumentWas(input: Bytes, flags: Flags) returns (w: Bytes, x: T.Tree, rest: Bytes)
    requires var d := Delivered(input); DocumentOf(d, d == input, flags).Parsed?
    ensures T.Splits(input, w, x, rest, flags)
    ensures var d := Delivered(input); T.Meaning(x) == DocumentOf(d, d == input, flags).value
  {
    hide Valid, Delivered, T.Flat, T.Meaning, T.Ends, Next, ValueOf;
    var d := Delivered(input);
    var clean := d == input;
    V.DeliveredValid(input);
    w, x := ValueWas(d, clean, flags, 0);
    var r := DocumentOf(d, clean, flags).rest;
    EofIs(r, clean);
    rest := r + input[|d|..];
    assert input == w + T.Flat(x) + rest by {
      assert input == d + input[|d|..];
    }
    if flags.disableEofCheck {
      EndsBroken(input, x, r);
    } else {
      assert rest == r;
    }
  }

  lemma EndsBroken(input: Bytes, x: T.Tree, r: Bytes)
    requires T.Ends(x, r)
    ensures T.Ends(x, r + input[|Delivered(input)|..])
  {
    hide Good, T.Ends;
    GoodStops(input, 0);
    EndsAlike(x, r, r + input[|Delivered(input)|..]);
  }

  // The parser makes v of the input if and only if the input is a text of v.
  lemma ParsedIffText(input: Bytes, v: Json, flags: Flags)
    ensures var d := Delivered(input);
            var o := DocumentOf(d, d == input, flags);
            (o.Parsed? && o.value == v) <==> T.IsText(input, v, flags)
  {
    hide DocumentOf, Delivered, T.IsText, T.Meaning, T.Flat;
    var d := Delivered(input);
    var o := DocumentOf(d, d == input, flags);
    if o.Parsed? && o.value == v {
      var w, x, rest := DocumentWas(input, flags);
      FormedIn(input, w, x, rest, flags);
    }
    if T.IsText(input, v, flags) {
      var w, x, rest := TextSplits(input, v, flags);
      TextReads(input, w, x, rest, flags);
    }
  }

  lemma TextSplits(input: Bytes, v: Json, flags: Flags) returns (w: Bytes, x: T.Tree, rest: Bytes)
    requires T.IsText(input, v, flags)
    ensures T.Splits(input, w, x, rest, flags) && T.Meaning(x) == v
  {
    hide T.Meaning, T.Flat;
    w, x, rest :| T.Splits(input, w, x, rest, flags) && T.Meaning(x) == v;
  }

  lemma FormedIn(input: Bytes, w: Bytes, x: T.Tree, rest: Bytes, flags: Flags)
    requires T.Splits(input, w, x, rest, flags)
    ensures T.Formed(x) && T.IsText(input, T.Meaning(x), flags)
  {
    hide T.Meaning, T.Flat;
  }
}
