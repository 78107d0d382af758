/**
  Printing a JSON value and parsing the text (common/jansson/dump.c and common/jansson/load.c).
  */
module JsonRoundTrip {
  import opened Options
  import opened Pieces
  import opened Utf
  import opened JsonStrings
  import opened JsonTokens
  import opened JsonValues
  import opened JsonGrammar
  import JsonLexer
  import JsonPrinter

  // What holds of every value that is built with checked keys: an integer has 64 bits, and an object is a
  // hash table of valid keys without zero bytes.
  ghost predicate Sound(v: Json) {
    match v
    case JInteger(value) => INT_MIN <= value <= INT_MAX
    case JArray(elems) => forall i :: 0 <= i < |elems| ==> Sound(elems[i])
    case JObject(members) =>
      && (forall i :: 0 <= i < |members| ==> Valid(members[i].key) && 0 !in members[i].key && Sound(members[i].value))
      && (forall i, j :: 0 <= i < j < |members| ==> members[i].key != members[j].key)
    case _ => true
  }

  // What the parser asks for besides: no nesting beyond its limit, and no zero byte in a string
  // unless the flags allow it.
  ghost predicate Acceptable(v: Json, flags: Flags, depth: nat) {
    && depth < flags.maxDepth
    && match v
       case JString(text) => flags.allowNul || 0 !in text
       case JArray(elems) => forall i :: 0 <= i < |elems| ==> Acceptable(elems[i], flags, depth + 1)
       case JObject(members) => forall i :: 0 <= i < |members| ==> Acceptable(members[i].value, flags, depth + 1)
       case _ => true
  }

  // What may be behind a value.
  predicate Follows(u: Bytes) {
    u == [] || u[0] in {COMMA, CLOSE_ARRAY, CLOSE_OBJECT, 0x20, 0x0A}
  }

  lemma NextBare(x: Bytes, u: Bytes, clean: bool, tok: Token)
    requires x != [] && !IsSpace(x[0]) && Proper(tok) && BareToken(x + u) == (tok, |x|)
    ensures Next(x + u, clean) == (tok, u)
  {
    hide BareToken, IsSpace, Proper;
    assert (x + u)[0..] == x + u && (x + u)[|x|..] == u;
  }

  lemma NextAfterSpace(w: Bytes, t: Bytes, clean: bool)
    requires forall c <- w :: IsSpace(c)
    ensures Next(w + t, clean) == Next(t, clean)
  {
    hide TokenOf, IsSpace;
    SpaceBefore(w, t, clean);
    TokenInside(t, clean);
    var n := TokenOf(t, clean).1;
    if Proper(TokenOf(t, clean).0) {
      assert (w + t)[|w| + n..] == t[n..];
    }
  }

  lemma NextPunct(w: Bytes, c: byte, u: Bytes, clean: bool)
    requires IsPunct(c) && forall b <- w :: IsSpace(b)
    ensures Next(w + ([c] + u), clean) == (TokenPunct(c), u)
  {
    assert ([c] + u)[0] == c;
    NextBare([c], u, clean, TokenPunct(c));
    NextAfterSpace(w, [c] + u, clean);
  }

  lemma NextString(s: Bytes, style: Style, u: Bytes, clean: bool)
    requires Valid(s)
    ensures Next(StringText(s, style) + u, clean) == (TokenString(s), u)
  {
    var cps: seq<int> :| AllScalar(cps) && EncodeAll(cps) == s;
    StringTextIs(cps, style);
    QuotedToken(cps, style, u);
    NextBare(Quoted(cps, style), u, clean, TokenString(s)) by {
      hide BareToken, Body, AllScalar;
    }
  }

  lemma QuotedToken(cps: seq<int>, style: Style, u: Bytes)
    requires AllScalar(cps)
    ensures BareToken(Quoted(cps, style) + u) == (TokenString(EncodeAll(cps)), |Quoted(cps, style)|)
  {
    hide Body, AllScalar, EncodeAll, StringOf;
    var body := Body(cps, style);
    var t := Quoted(cps, style) + u;
    BodyScanned(cps, style, u);
    assert t[1..] == body + [QUOTE] + u;
  }

  lemma BodyScanned(cps: seq<int>, style: Style, u: Bytes)
    requires AllScalar(cps)
    ensures StringOf(Body(cps, style) + [QUOTE] + u) == (TokenString(EncodeAll(cps)), |Body(cps, style)| + 1)
  {
    hide FirstPass, SecondPass, Body, AllScalar, EncodeAll, Pieced;
    var body := Body(cps, style);
    PrintedIsScanned(cps, style, u);
    assert (body + [QUOTE] + u)[..|body|] == body;
  }

  lemma {:induction false} DecimalBack(n: nat)
    ensures Decimal(DecimalText(n)) == n
  {
    if n < 10 {
      assert DecimalText(n)[..0] == [];
    } else {
      DecimalBack(n / 10);
      var s := DecimalText(n);
      assert s[..|s| - 1] == DecimalText(n / 10);
    }
  }

  lemma IntegerTokenBack(i: int, u: Bytes)
    requires INT_MIN <= i <= INT_MAX && Follows(u)
    ensures BareToken(IntegerText(i) + u) == (TokenInteger(i), |IntegerText(i)|)
  {
    hide IntegerText, IntegerLen, IntegerValue, Follows;
    var x := IntegerText(i);
    IntegerLenBack(i, u);
    FollowNoDigit(u);
    assert (x + u)[..|x|] == x;
    assert |x| < |x + u| ==> (x + u)[|x|] == u[0];
  }

  lemma DigitsBack(n: nat, k: nat, x: Bytes, u: Bytes)
    requires Follows(u) && k <= |x| && x[k..] == DecimalText(n)
    ensures k < |x| && (x[k] == 0x30 ==> |x| == k + 1)
    ensures forall j :: k <= j < |x| ==> IsDigit(x[j])
    ensures Digits((x + u)[k..]) == |x| - k
  {
    hide DecimalText, Follows, Digits;
    var ds := DecimalText(n);
    assert forall j :: k <= j < |x| ==> x[j] == ds[j - k] && ds[j - k] in ds;
    assert (x + u)[k..] == ds + u;
    FollowNoDigit(u);
    JsonLexer.DigitsAre(ds + u, |ds|);
  }

  lemma IntegerLenBack(i: int, u: Bytes)
    requires Follows(u)
    ensures IntegerText(i)[0] == 0x2D || IsDigit(IntegerText(i)[0])
    ensures IntegerLen(IntegerText(i) + u) == |IntegerText(i)|
    ensures forall j :: (if IntegerText(i)[0] == 0x2D then 1 else 0) <= j < |IntegerText(i)| ==> IsDigit(IntegerText(i)[j])
    ensures IntegerValue(IntegerText(i)) == i
  {
    hide DecimalText, Decimal, Follows, IntegerLen, Digits;
    var n := if i < 0 then -i else i;
    var k := if i < 0 then 1 else 0;
    var x := IntegerText(i);
    DecimalBack(n);
    assert x[k..] == DecimalText(n);
    DigitsBack(n, k, x, u);
    FollowNoDigit(u);
    JsonLexer.IntegerLenIs(x + u, k);
  }

  lemma FollowNoDigit(u: Bytes)
    requires Follows(u)
    ensures u != [] ==> !IsDigit(u[0]) && !IsFraction(u[0]) && !IsAlpha(u[0])
  {
  }

  lemma WordBack(w: Bytes, u: Bytes)
    requires w in {TRUE, FALSE, NULL} && Follows(u)
    ensures BareToken(w + u) == (WordOf(w), |w|)
  {
    FollowNoDigit(u);
    assert forall i :: 0 <= i < |w| ==> (w + u)[i] == w[i] && IsAlpha(w[i]);
    JsonLexer.AlphasAre(w + u, |w|);
    assert (w + u)[..|w|] == w;
    hide Alphas;
  }

  // The token that a value begins with.
  function TokenFor(v: Json): Token {
    match v
    case JNull => TokenNull
    case JTrue => TokenTrue
    case JFalse => TokenFalse
    case JInteger(value) => TokenInteger(value)
    case JString(text) => TokenString(text)
    case JArray(_) => TokenPunct(OPEN_ARRAY)
    case JObject(_) => TokenPunct(OPEN_OBJECT)
  }

  // The parser reads v from a text and what is behind it.
  ghost predicate ReadsBack(text: Bytes, u: Bytes, clean: bool, flags: Flags, depth: nat, v: Json, ok: bool) {
    var (tok, t) := Next(text + u, clean);
    && tok == TokenFor(v)
    && ValueOf(tok, t, clean, flags, depth) == if ok then Parsed(v, u) else Refused
  }

  // A value that is one token.
  lemma LeafBack(v: Json, f: Format, depth: nat, u: Bytes, clean: bool)
    requires Printable(v) && Sound(v) && Follows(u) && !v.JArray? && !v.JObject?
    ensures Next(Text(v, f, depth) + u, clean) == (TokenFor(v), u)
  {
    hide Next, BareToken, Follows, IntegerText;
    match v
    case JNull => WordBack(NULL, u); NextBare(NULL, u, clean, TokenNull);
    case JTrue => WordBack(TRUE, u); NextBare(TRUE, u, clean, TokenTrue);
    case JFalse => WordBack(FALSE, u); NextBare(FALSE, u, clean, TokenFalse);
    case JInteger(i) =>
      IntegerTokenBack(i, u);
      IntegerLenBack(i, u);
      NextBare(IntegerText(i), u, clean, TokenInteger(i));
    case JString(text) => NextString(text, f.style, u, clean);
  }

  // Behind a value.
  lemma BehindFollows(f: Format, depth: nat, last: bool, close: byte, r: Bytes)
    requires close in {CLOSE_ARRAY, CLOSE_OBJECT}
    ensures Follows(Behind(f, depth, last, close) + r)
  {
  }

  lemma BehindBack(f: Format, depth: nat, last: bool, close: byte, r: Bytes, clean: bool)
    requires close in {CLOSE_ARRAY, CLOSE_OBJECT}
    ensures var (tok, t) := Next(Behind(f, depth, last, close) + r, clean);
            if last then tok == TokenPunct(close) && t == r
            else tok == TokenPunct(COMMA) && Next(t, clean) == Next(r, clean)
  {
    hide Next, Indent;
    if last {
      assert Indent(f, depth, false) + [close] + r == Indent(f, depth, false) + ([close] + r);
      NextPunct(Indent(f, depth, false), close, r, clean);
    } else {
      var w := Indent(f, depth + 1, true);
      assert [COMMA] + w + r == [] + ([COMMA] + (w + r));
      NextPunct([], COMMA, w + r, clean);
      NextAfterSpace(w, r, clean);
    }
  }

  // Reading an opening bracket, and the token behind it.
  lemma OpenBack(f: Format, depth: nat, open: byte, inner: Bytes, u: Bytes, clean: bool)
    requires IsPunct(open)
    ensures var (tok, t) := Next([open] + (Indent(f, depth, false) + inner) + u, clean);
            tok == TokenPunct(open) && Next(t, clean) == Next(inner + u, clean)
  {
    hide Next, Indent;
    var w := Indent(f, depth, false);
    assert [open] + (w + inner) + u == [] + ([open] + (w + (inner + u)));
    NextPunct([], open, w + (inner + u), clean);
    NextAfterSpace(w, inner + u, clean);
  }

  lemma EmptyBack(open: byte, close: byte, u: Bytes, clean: bool)
    requires IsPunct(open) && IsPunct(close)
    ensures var (tok, t) := Next([open] + [close] + u, clean);
            tok == TokenPunct(open) && Next(t, clean) == (TokenPunct(close), u)
  {
    hide Next;
    assert [open] + [close] + u == [] + ([open] + ([] + ([close] + u)));
    NextPunct([], open, [] + ([close] + u), clean);
    NextPunct([], close, u, clean);
  }

  // Parsing the text of a value gives the value exactly if the parser accepts such values at all.
  lemma {:induction false} ValueBack(v: Json, f: Format, depth: nat, clean: bool, flags: Flags, d: nat, u: Bytes)
    requires Printable(v) && Sound(v) && Follows(u)
    ensures ReadsBack(Text(v, f, depth), u, clean, flags, d, v, Acceptable(v, flags, d))
    decreases v, 1, 0
  {
    hide *;
    if v.JArray? {
      if v.elems != [] {
        ElementsBack(v, f, depth, clean, flags, d + 1, 0, u);
      }
      ArrayBack(v, f, depth, clean, flags, d, u);
    } else if v.JObject? {
      if v.members != [] {
        MembersBack(v, f, depth, clean, flags, d + 1, 0, u);
      }
      ObjectBack(v, f, depth, clean, flags, d, u);
    } else {
      LeafBack(v, f, depth, u, clean);
      LeafValue(v, f, depth, clean, flags, d, u);
    }
  }

  lemma LeafValue(v: Json, f: Format, depth: nat, clean: bool, flags: Flags, d: nat, u: Bytes)
    requires Printable(v) && !v.JArray? && !v.JObject? && Next(Text(v, f, depth) + u, clean) == (TokenFor(v), u)
    ensures ReadsBack(Text(v, f, depth), u, clean, flags, d, v, Acceptable(v, flags, d))
  {
    hide Next, Text;
  }

  // What ElementsBack says of an array from element i on.
  ghost predicate ElemsReadBack(v: Json, f: Format, depth: nat, clean: bool, flags: Flags, d: nat, i: nat, u: Bytes)
    requires v.JArray? && Printable(v) && i < |v.elems|
  {
    var (tok, t) := Next(ElemsText(v, f, depth, i) + u, clean);
    && tok != TokenPunct(CLOSE_ARRAY)
    && ElementsOf(tok, t, clean, flags, d, v.elems[..i]) ==
       if forall j :: i <= j < |v.elems| ==> Acceptable(v.elems[j], flags, d) then Parsed(v, u) else Refused
  }

  ghost predicate MembersReadBack(v: Json, f: Format, depth: nat, clean: bool, flags: Flags, d: nat, i: nat, u: Bytes)
    requires v.JObject? && Printable(v) && i < |v.members|
  {
    var (tok, t) := Next(MembersText(v, f, depth, i) + u, clean);
    && tok != TokenPunct(CLOSE_OBJECT)
    && MembersOf(tok, t, clean, flags, d, v.members[..i]) ==
       if forall j :: i <= j < |v.members| ==> Acceptable(v.members[j].value, flags, d) then Parsed(v, u) else Refused
  }

  lemma ArrayBack(v: Json, f: Format, depth: nat, clean: bool, flags: Flags, d: nat, u: Bytes)
    requires v.JArray? && Printable(v) && (v.elems != [] ==> ElemsReadBack(v, f, depth, clean, flags, d + 1, 0, u))
    ensures ReadsBack(Text(v, f, depth), u, clean, flags, d, v, Acceptable(v, flags, d))
  {
    hide Next, ElementsOf, MembersOf, ElemsText, Indent;
    if v.elems == [] {
      EmptyBack(OPEN_ARRAY, CLOSE_ARRAY, u, clean);
      var t := Next(Text(v, f, depth) + u, clean).1;
      assert ArrayOf(t, clean, flags, d + 1) == Parsed(v, u);
    } else {
      OpenBack(f, depth + 1, OPEN_ARRAY, ElemsText(v, f, depth, 0), u, clean);
      assert v.elems[..0] == [];
      var t := Next(Text(v, f, depth) + u, clean).1;
      var (tok1, t1) := Next(t, clean);
      assert ArrayOf(t, clean, flags, d + 1) == ElementsOf(tok1, t1, clean, flags, d + 1, []);
    }
  }

  lemma ObjectBack(v: Json, f: Format, depth: nat, clean: bool, flags: Flags, d: nat, u: Bytes)
    requires v.JObject? && Printable(v) && (v.members != [] ==> MembersReadBack(v, f, depth, clean, flags, d + 1, 0, u))
    ensures ReadsBack(Text(v, f, depth), u, clean, flags, d, v, Acceptable(v, flags, d))
  {
    hide Next, ElementsOf, MembersOf, MembersText, Indent;
    if v.members == [] {
      EmptyBack(OPEN_OBJECT, CLOSE_OBJECT, u, clean);
      var t := Next(Text(v, f, depth) + u, clean).1;
      assert ObjectOf(t, clean, flags, d + 1) == Parsed(v, u);
    } else {
      OpenBack(f, depth + 1, OPEN_OBJECT, MembersText(v, f, depth, 0), u, clean);
      assert v.members[..0] == [];
      var t := Next(Text(v, f, depth) + u, clean).1;
      var (tok1, t1) := Next(t, clean);
      assert ObjectOf(t, clean, flags, d + 1) == MembersOf(tok1, t1, clean, flags, d + 1, []);
    }
  }

  lemma {:induction false} ElementsBack(v: Json, f: Format, depth: nat, clean: bool, flags: Flags, d: nat, i: nat, u: Bytes)
    requires v.JArray? && Printable(v) && Sound(v) && i < |v.elems|
    ensures ElemsReadBack(v, f, depth, clean, flags, d, i, u)
    decreases v, 0, |v.elems| - i
  {
    hide Next, Follows, ValueOf, Text, Behind, Acceptable;
    var e := v.elems[i];
    var last := i + 1 == |v.elems|;
    var r := ElemsText(v, f, depth, i + 1);
    var behind := Behind(f, depth, last, CLOSE_ARRAY);
    var u1 := behind + (r + u);
    assert Text(e, f, depth + 1) + (behind + r) + u == Text(e, f, depth + 1) + u1;
    BehindFollows(f, depth, last, CLOSE_ARRAY, r + u);
    ValueBack(e, f, depth + 1, clean, flags, d, u1);
    BehindBack(f, depth, last, CLOSE_ARRAY, r + u, clean);
    assert v.elems[..i] + [e] == v.elems[..i + 1];
    if last {
      assert r + u == u && v.elems[..i + 1] == v.elems;
    } else {
      ElementsBack(v, f, depth, clean, flags, d, i + 1, u);
    }
  }

  // A new key comes last.
  lemma {:induction false} PutNew(ms: seq<Member>, key: Bytes, value: Json)
    requires !HasKey(ms, key)
    ensures Put(ms, key, value) == ms + [Member(key, value)]
  {
    if ms != [] {
      assert ms[0].key != key;
      forall i | 0 <= i < |ms[1..]|
        ensures ms[1..][i].key != key
      {
        assert ms[1..][i] == ms[i + 1];
      }
      PutNew(ms[1..], key, value);
      assert ms == [ms[0]] + ms[1..];
    }
  }

  // The token of a key, the colon, and what is behind it.
  lemma KeyBack(key: Bytes, f: Format, r: Bytes, clean: bool)
    requires Valid(key)
    ensures var (tok, t) := Next(StringText(key, f.style) + (Separator(f) + r), clean);
            && tok == TokenString(key) && Next(t, clean).0 == TokenPunct(COLON)
            && Next(Next(t, clean).1, clean) == Next(r, clean)
  {
    hide Next, StringText;
    NextString(key, f.style, Separator(f) + r, clean);
    if f.compact {
      assert Separator(f) + r == [] + ([COLON] + r);
      NextPunct([], COLON, r, clean);
    } else {
      assert Separator(f) + r == [] + ([COLON] + ([0x20] + r));
      NextPunct([], COLON, [0x20] + r, clean);
      NextAfterSpace([0x20], r, clean);
    }
  }

  lemma {:induction false} MembersBack(v: Json, f: Format, depth: nat, clean: bool, flags: Flags, d: nat, i: nat, u: Bytes)
    requires v.JObject? && Printable(v) && Sound(v) && i < |v.members|
    ensures MembersReadBack(v, f, depth, clean, flags, d, i, u)
    decreases v, 0, |v.members| - i
  {
    hide Next, Follows, ValueOf, Text, Behind, Acceptable, StringText, Separator, Put, Valid;
    var m := v.members[i];
    var last := i + 1 == |v.members|;
    var r := MembersText(v, f, depth, i + 1);
    var behind := Behind(f, depth, last, CLOSE_OBJECT);
    var u1 := behind + (r + u);
    var x := Text(m.value, f, depth + 1);
    assert StringText(m.key, f.style) + (Separator(f) + (x + (behind + r))) + u
        == StringText(m.key, f.style) + (Separator(f) + (x + u1));
    KeyBack(m.key, f, x + u1, clean);
    BehindFollows(f, depth, last, CLOSE_OBJECT, r + u);
    ValueBack(m.value, f, depth + 1, clean, flags, d, u1);
    BehindBack(f, depth, last, CLOSE_OBJECT, r + u, clean);
    assert !HasKey(v.members[..i], m.key);
    PutNew(v.members[..i], m.key, m.value);
    assert v.members[..i] + [m] == v.members[..i + 1];
    if last {
      assert r + u == u && v.members[..i + 1] == v.members;
    } else {
      MembersBack(v, f, depth, clean, flags, d, i + 1, u);
    }
  }

  // The round trip of a whole text, for all flags of the printer and of the parser.
  lemma DocumentBack(v: Json, f: Format, flags: Flags)
    requires Printable(v) && Sound(v)
    ensures DocumentOf(Text(v, f, 0), true, flags) ==
            if Acceptable(v, flags, 0) && (flags.decodeAny || v.JArray? || v.JObject?) then Parsed(v, []) else Refused
  {
    hide Next, ValueOf, Text;
    ValueBack(v, f, 0, true, flags, 0, []);
    assert Text(v, f, 0) + [] == Text(v, f, 0);
    EndToken();
  }

  lemma EndToken()
    ensures Next([], true) == (TokenEof, [])
  {
  }

  // What json_loads takes as a whole: valid UTF-8 without zero bytes.
  ghost predicate Loadable(s: Bytes) {
    Valid(s) && 0 !in s
  }

  lemma LoadableJoin(s: Bytes, t: Bytes)
    requires Loadable(s) && Loadable(t)
    ensures Loadable(s + t)
  {
    var a: seq<int> :| AllScalar(a) && EncodeAll(a) == s;
    var b: seq<int> :| AllScalar(b) && EncodeAll(b) == t;
    EncodeJoin(a, b);
  }

  lemma OneLoadable(c: int)
    requires Scalar(c) && c > 0
    ensures Loadable(Encode(c).value)
  {
    EncodeAllMore([], c);
    assert EncodeAll([]) == [] && [] + Encode(c).value == Encode(c).value && [] + [c] == [c];
    assert AllScalar([c]) && EncodeAll([c]) == Encode(c).value;
    NoZero(c);
  }

  lemma NoZero(c: int)
    requires Scalar(c) && c > 0
    ensures 0 !in Encode(c).value
  {
  }

  lemma {:induction false} AsciiLoadable(s: Bytes)
    requires forall b <- s :: 0 < b < 0x80
    ensures Loadable(s)
  {
    if s == [] {
      assert AllScalar([]) && EncodeAll([]) == [];
    } else {
      assert s[0] in s && forall b <- s[1..] :: b in s;
      AsciiLoadable(s[1..]);
      OneLoadable(s[0] as int);
      assert Encode(s[0] as int) == Some([s[0]]);
      LoadableJoin([s[0]], s[1..]);
      assert s == [s[0]] + s[1..];
    }
  }

  lemma CharLoadable(c: int, style: Style)
    requires Scalar(c)
    ensures Loadable(CharText(c, style))
  {
    hide Loadable;
    if MustEscape(c, style) {
      EscapeAscii(c);
      AsciiLoadable(Escape(c));
    } else {
      OneLoadable(c);
    }
  }

  lemma EscapeAscii(c: int)
    requires Scalar(c)
    ensures forall b <- Escape(c) :: 0 < b < 0x80
  {
    hide High, LowHalf;
  }

  lemma {:induction false} BodyLoadable(cps: seq<int>, style: Style)
    requires AllScalar(cps)
    ensures Loadable(Body(cps, style))
  {
    hide Loadable, CharText;
    if cps == [] {
      AsciiLoadable([]);
    } else {
      assert cps[0] in cps && forall x <- cps[1..] :: x in cps;
      CharLoadable(cps[0], style);
      BodyLoadable(cps[1..], style);
      LoadableJoin(CharText(cps[0], style), Body(cps[1..], style));
    }
  }

  lemma StringLoadable(s: Bytes, style: Style)
    ensures Loadable(StringText(s, style))
  {
    hide Loadable, Body, EncodeAll;
    AsciiLoadable([QUOTE]);
    if Valid(s) {
      var cps: seq<int> :| AllScalar(cps) && EncodeAll(cps) == s;
      StringTextIs(cps, style);
      BodyLoadable(cps, style);
      LoadableJoin([QUOTE], Body(cps, style));
      LoadableJoin([QUOTE] + Body(cps, style), [QUOTE]);
    } else {
      JsonPrinter.CutScalar(s, style);
      var cps := JsonPrinter.UpToEscape(JsonPrinter.Leading(s), style);
      BodyLoadable(cps, style);
      LoadableJoin([QUOTE], Body(cps, style));
    }
  }

  lemma PlainTextLoadable(v: Json, f: Format, depth: nat)
    requires Printable(v) && !v.JArray? && !v.JObject?
    ensures Loadable(Text(v, f, depth))
  {
    hide Loadable, IntegerText;
    match v
    case JString(text) => StringLoadable(text, f.style);
    case JInteger(value) => IntegerAscii(value); AsciiLoadable(IntegerText(value));
    case JNull => AsciiLoadable(NULL);
    case JTrue => AsciiLoadable(TRUE);
    case JFalse => AsciiLoadable(FALSE);
  }

  lemma IntegerAscii(i: int)
    ensures forall b <- IntegerText(i) :: 0 < b < 0x80
  {
    hide DecimalText;
    var ds := DecimalText(if i < 0 then -i else i);
    assert forall b <- ds :: IsDigit(b);
  }

  lemma IndentLoadable(f: Format, depth: nat, space: bool)
    ensures Loadable(Indent(f, depth, space))
  {
    hide Loadable;
    assert forall b <- Indent(f, depth, space) :: IsSpace(b);
    AsciiLoadable(Indent(f, depth, space));
  }

  lemma BehindLoadable(f: Format, depth: nat, last: bool, close: byte)
    requires close in {CLOSE_ARRAY, CLOSE_OBJECT}
    ensures Loadable(Behind(f, depth, last, close))
  {
    hide Loadable, Indent;
    if last {
      IndentLoadable(f, depth, false);
      AsciiLoadable([close]);
      LoadableJoin(Indent(f, depth, false), [close]);
    } else {
      IndentLoadable(f, depth + 1, true);
      AsciiLoadable([COMMA]);
      LoadableJoin([COMMA], Indent(f, depth + 1, true));
    }
  }

  // Every text is input that json_loads takes to its end.
  lemma {:induction false} TextLoadable(v: Json, f: Format, depth: nat)
    requires Printable(v)
    ensures Loadable(Text(v, f, depth))
    decreases v, 1, 0
  {
    hide Loadable, Indent, Text;
    if v.JArray? {
      ElemsLoadable(v, f, depth, 0);
      OpenLoadable(f, depth, OPEN_ARRAY, CLOSE_ARRAY, ElemsText(v, f, depth, 0));
      ArrayTextIs(v, f, depth);
    } else if v.JObject? {
      MembersLoadable(v, f, depth, 0);
      OpenLoadable(f, depth, OPEN_OBJECT, CLOSE_OBJECT, MembersText(v, f, depth, 0));
      ObjectTextIs(v, f, depth);
    } else {
      PlainTextLoadable(v, f, depth);
    }
  }

  lemma OpenLoadable(f: Format, depth: nat, open: byte, close: byte, inner: Bytes)
    requires open in {OPEN_ARRAY, OPEN_OBJECT} && close in {CLOSE_ARRAY, CLOSE_OBJECT} && Loadable(inner)
    ensures Loadable([open] + [close]) && Loadable([open] + (Indent(f, depth + 1, false) + inner))
  {
    hide Loadable, Indent;
    AsciiLoadable([open] + [close]);
    AsciiLoadable([open]);
    IndentLoadable(f, depth + 1, false);
    LoadableJoin(Indent(f, depth + 1, false), inner);
    LoadableJoin([open], Indent(f, depth + 1, false) + inner);
  }

  lemma ArrayTextIs(v: Json, f: Format, depth: nat)
    requires v.JArray? && Printable(v)
    ensures Text(v, f, depth) ==
            if v.elems == [] then [OPEN_ARRAY] + [CLOSE_ARRAY]
            else [OPEN_ARRAY] + (Indent(f, depth + 1, false) + ElemsText(v, f, depth, 0))
  {
    hide ElemsText, Indent;
  }

  lemma ObjectTextIs(v: Json, f: Format, depth: nat)
    requires v.JObject? && Printable(v)
    ensures Text(v, f, depth) ==
            if v.members == [] then [OPEN_OBJECT] + [CLOSE_OBJECT]
            else [OPEN_OBJECT] + (Indent(f, depth + 1, false) + MembersText(v, f, depth, 0))
  {
    hide MembersText, Indent;
  }

  lemma {:induction false} ElemsLoadable(v: Json, f: Format, depth: nat, i: nat)
    requires v.JArray? && Printable(v) && i <= |v.elems|
    ensures Loadable(ElemsText(v, f, depth, i))
    decreases v, 0, |v.elems| - i
  {
    hide Loadable, Text, Behind;
    if i == |v.elems| {
      AsciiLoadable([]);
    } else {
      var behind, r := Behind(f, depth, i + 1 == |v.elems|, CLOSE_ARRAY), ElemsText(v, f, depth, i + 1);
      TextLoadable(v.elems[i], f, depth + 1);
      BehindLoadable(f, depth, i + 1 == |v.elems|, CLOSE_ARRAY);
      ElemsLoadable(v, f, depth, i + 1);
      LoadableJoin(behind, r);
      LoadableJoin(Text(v.elems[i], f, depth + 1), behind + r);
    }
  }

  lemma {:induction false} MembersLoadable(v: Json, f: Format, depth: nat, i: nat)
    requires v.JObject? && Printable(v) && i <= |v.members|
    ensures Loadable(MembersText(v, f, depth, i))
    decreases v, 0, |v.members| - i
  {
    hide Loadable, Text, Behind, StringText;
    if i == |v.members| {
      AsciiLoadable([]);
    } else {
      var m := v.members[i];
      var behind, r := Behind(f, depth, i + 1 == |v.members|, CLOSE_OBJECT), MembersText(v, f, depth, i + 1);
      var x := Text(m.value, f, depth + 1);
      StringLoadable(m.key, f.style);
      AsciiLoadable(Separator(f));
      TextLoadable(m.value, f, depth + 1);
      BehindLoadable(f, depth, i + 1 == |v.members|, CLOSE_OBJECT);
      MembersLoadable(v, f, depth, i + 1);
      LoadableJoin(behind, r);
      LoadableJoin(x, behind + r);
      LoadableJoin(Separator(f), x + (behind + r));
      LoadableJoin(StringText(m.key, f.style), Separator(f) + (x + (behind + r)));
    }
  }
}
