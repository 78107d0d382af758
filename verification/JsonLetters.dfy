/**
  The tokens of the JSON parser are the smallest parts of JSON texts.
  */
module JsonLetters {
  import opened Options
  import opened Pieces
  import opened Utf
  import opened JsonStrings
  import opened JsonTokens
  import opened JsonValues
  import opened JsonGrammar
  import T = JsonTexts
  import R = JsonRoundTrip
  import V = JsonValidity
  import JsonLexer

  lemma SpaceIs(w: Bytes)
    ensures T.AllSpace(w) <==> forall c <- w :: IsSpace(c)
  {
  }

  lemma NibbleIs(c: byte)
    ensures T.Nibble(c) == if IsHex(c) then Some(HexValue(c)) else None
  {
  }

  lemma NamedIs(c: byte)
    ensures T.Named(c) == if ShortEscape(c) then Some(ShortValue(c) as int) else None
  {
  }

  // Four digits in front of something.
  lemma UnitIs(ds: Bytes, u: Bytes)
    requires |ds| == 4
    ensures FourHex(ds + u) == T.FourDigits(ds)
    ensures T.FourDigits(ds) ==> Decoded4(ds + u) == T.Unit(ds)
  {
    var t := ds + u;
    assert t[0] == ds[0] && t[1] == ds[1] && t[2] == ds[2] && t[3] == ds[3];
    NibbleIs(ds[0]);
    NibbleIs(ds[1]);
    NibbleIs(ds[2]);
    NibbleIs(ds[3]);
    hide T.Nibble, IsHex, HexValue;
    assert (forall i :: 0 <= i < 4 ==> IsHex(t[i])) <==> IsHex(t[0]) && IsHex(t[1]) && IsHex(t[2]) && IsHex(t[3]);
  }

  // An escape with a number.
  lemma HexIs(ds: Bytes, u: Bytes)
    requires T.FourDigits(ds)
    ensures var t := [BACKSLASH, 0x75] + ds + u;
            HexEscape(t) && Decoded4(t[2..]) == T.Unit(ds) && PieceLen(t) == 6 && t[6..] == u
  {
    var t := [BACKSLASH, 0x75] + ds + u;
    assert t[2..] == ds + u;
    UnitIs(ds, u);
    hide T.FourDigits, FourHex, Decoded4;
  }

  lemma HexOff(t: Bytes) returns (ds: Bytes)
    requires HexEscape(t)
    ensures T.FourDigits(ds) && t == [BACKSLASH, 0x75] + ds + t[6..] && Decoded4(t[2..]) == T.Unit(ds)
  {
    ds := t[2..6];
    assert t[2..] == ds + t[6..];
    UnitIs(ds, t[6..]);
  }

  // The second pass reads a character as it is spelled.
  lemma SpellingRead(p: T.Spelling, u: Bytes)
    requires T.Spelled(p) && Pieced(u)
    ensures Scalar(T.Meant(p)) && Pieced(T.Letters(p) + u)
    ensures SecondPass(T.Letters(p) + u) ==
            if SecondPass(u).Some? then Some(Encode(T.Meant(p)).value + SecondPass(u).value) else None
  {
    T.MeantScalar(p);
    match p
    case Raw(cp) =>
      hide SecondPass, Pieced, Encode;
      PlainCode(cp);
      PlainRead(Encode(cp).value, u);
    case Short(c) => ShortSpelled(c, u);
    case Hex(ds) => HexSpelled(ds, u);
    case Pair(h, l) => PairSpelled(h, l, u);
  }

  lemma ShortSpelled(c: byte, u: Bytes)
    requires T.Spelled(T.Short(c)) && Pieced(u)
    ensures var p := T.Short(c);
            && Scalar(T.Meant(p)) && Pieced(T.Letters(p) + u)
            && SecondPass(T.Letters(p) + u) ==
                 if SecondPass(u).Some? then Some(Encode(T.Meant(p)).value + SecondPass(u).value) else None
  {
    var p := T.Short(c);
    T.MeantScalar(p);
    var t := T.Letters(p) + u;
    NamedIs(c);
    ShortRead(c, ShortValue(c) as int, u);
    assert t[2..] == u;
    Taken(t, u, 2, Encode(T.Meant(p)).value);
  }

  lemma HexSpelled(ds: Bytes, u: Bytes)
    requires T.Spelled(T.Hex(ds)) && Pieced(u)
    ensures var p := T.Hex(ds);
            && Scalar(T.Meant(p)) && Pieced(T.Letters(p) + u)
            && SecondPass(T.Letters(p) + u) ==
                 if SecondPass(u).Some? then Some(Encode(T.Meant(p)).value + SecondPass(u).value) else None
  {
    var p := T.Hex(ds);
    T.MeantScalar(p);
    var t := T.Letters(p) + u;
    HexIs(ds, u);
    hide Encode, SecondPass, Pieced, Decoded4;
    UnitTaken(t, u, T.Unit(ds));
    Taken(t, u, 6, Encode(T.Meant(p)).value);
  }

  lemma PairSpelled(h: Bytes, l: Bytes, u: Bytes)
    requires T.Spelled(T.Pair(h, l)) && Pieced(u)
    ensures var p := T.Pair(h, l);
            && Scalar(T.Meant(p)) && Pieced(T.Letters(p) + u)
            && SecondPass(T.Letters(p) + u) ==
                 if SecondPass(u).Some? then Some(Encode(T.Meant(p)).value + SecondPass(u).value) else None
  {
    var p := T.Pair(h, l);
    T.MeantScalar(p);
    var t := T.Letters(p) + u;
    var v := [BACKSLASH, 0x75] + l + u;
    assert t == [BACKSLASH, 0x75] + h + v;
    HexIs(l, u);
    HexIs(h, v);
    PiecedPair(t, v);
    PairTaken(t, v, T.Unit(h), T.Unit(l));
    hide Encode, SecondPass, Pieced, Decoded4;
    assert t[12..] == v[6..];
    Taken(t, u, 12, Encode(T.Meant(p)).value);
  }

  lemma UnitTaken(t: Bytes, u: Bytes, n: nat)
    requires HexEscape(t) && PieceLen(t) == 6 && t[6..] == u && Pieced(u) && Decoded4(t[2..]) == n && !(0xD800 <= n <= 0xDFFF)
    ensures Pieced(t) && TakePiece(t) == Some((6, Encode(n).value))
  {
    hide Decoded4, Encode;
  }

  lemma Taken(t: Bytes, u: Bytes, n: nat, v: Bytes)
    requires t != [] && Pieced(t) && TakePiece(t) == Some((n, v)) && n <= |t| && t[n..] == u && Pieced(u)
    ensures SecondPass(t) == if SecondPass(u).Some? then Some(v + SecondPass(u).value) else None
  {
    hide TakePiece, Pieced;
  }

  lemma {:induction false} InnerRead(ps: seq<T.Spelling>)
    requires T.AllSpelled(ps)
    ensures Pieced(T.Inner(ps)) && SecondPass(T.Inner(ps)) == Some(T.Content(ps))
  {
    if ps != [] {
      assert ps[0] in ps && forall p <- ps[1..] :: p in ps;
      InnerRead(ps[1..]);
      SpellingRead(ps[0], T.Inner(ps[1..]));
      hide T.Letters, T.Meant, T.Spelled, SecondPass, Pieced;
    }
  }

  // A string that the parser reads was spelled.
  lemma {:induction false} InnerBack(t: Bytes) returns (ps: seq<T.Spelling>)
    requires Valid(t) && Pieced(t) && SecondPass(t).Some?
    ensures T.AllSpelled(ps) && T.Inner(ps) == t && T.Content(ps) == SecondPass(t).value
    decreases |t|
  {
    hide Valid;
    ps := [];
    if t != [] {
      var p, u := SpellingOff(t);
      SpellingRead(p, u);
      assert |u| < |t| by {
        LettersSome(p);
      }
      var rest := InnerBack(u);
      ps := [p] + rest;
      assert ps[0] == p && ps[1..] == rest;
    }
  }

  lemma LettersSome(p: T.Spelling)
    requires T.Spelled(p)
    ensures T.Letters(p) != []
  {
  }

  lemma SpellingOff(t: Bytes) returns (p: T.Spelling, u: Bytes)
    requires t != [] && Valid(t) && Pieced(t) && SecondPass(t).Some?
    ensures T.Spelled(p) && t == T.Letters(p) + u && Valid(u) && Pieced(u) && SecondPass(u).Some?
  {
    hide Valid, Encode, EncodeAll;
    if t[0] == BACKSLASH {
      var (n, v) := TakePiece(t).value;
      V.EscapeValid(t);
      PiecedAfter(t, n);
      V.AsciiOff(t, n);
      u := t[n..];
      p := EscapeOff(t, n);
    } else {
      var c := V.FirstOff(t);
      var e := Encode(c).value;
      V.PlainFirst(t, c);
      RawFine(c);
      u := t[|e|..];
      assert t == e + u;
      V.PiecedBehind(e, u);
      PlainRead(e, u);
      p := T.Raw(c);
    }
  }

  lemma RawFine(c: int)
    requires Scalar(c) && forall b <- Encode(c).value :: PlainByte(b)
    ensures c >= 0x20 && c != 0x22 && c != 0x5C
  {
    if c < 0x80 {
      assert Encode(c).value == [c as byte] && (c as byte) in Encode(c).value;
    }
  }

  lemma EscapeOff(t: Bytes, n: nat) returns (p: T.Spelling)
    requires t != [] && t[0] == BACKSLASH && PieceLen(t) > 0 && TakePiece(t).Some? && n == TakePiece(t).value.0 <= |t|
    ensures T.Spelled(p) && t == T.Letters(p) + t[n..]
  {
    hide Decoded4, Encode, T.Unit, FourHex, T.FourDigits;
    if t[1] != 0x75 {
      NamedIs(t[1]);
      p := T.Short(t[1]);
    } else if n == 6 {
      var ds := HexOff(t);
      p := T.Hex(ds);
    } else {
      var h := HexOff(t);
      var l := HexOff(t[6..]);
      assert t[6..][2..] == t[8..] && t[6..][6..] == t[12..];
      p := T.Pair(h, l);
      assert t == [BACKSLASH, 0x75] + h + ([BACKSLASH, 0x75] + l + t[12..]);
    }
  }

  // A string with its quotation marks.
  lemma QuoteRead(ps: seq<T.Spelling>, u: Bytes)
    requires T.AllSpelled(ps)
    ensures var x := [QUOTE] + T.Inner(ps) + [QUOTE]; BareToken(x + u) == (TokenString(T.Content(ps)), |x|)
  {
    hide FirstPass, SecondPass, Pieced, T.AllSpelled, T.Inner, T.Content;
    var body := T.Inner(ps);
    InnerRead(ps);
    PassOver(body, u);
    assert (body + [QUOTE] + u)[..|body|] == body;
    assert ([QUOTE] + body + [QUOTE] + u)[1..] == body + [QUOTE] + u;
  }

  lemma QuoteBack(t: Bytes) returns (ps: seq<T.Spelling>)
    requires Valid(t) && t != [] && t[0] == QUOTE && BareToken(t).0.TokenString?
    ensures T.AllSpelled(ps)
    ensures var (tok, n) := BareToken(t);
            n <= |t| && tok == TokenString(T.Content(ps)) && t == [QUOTE] + T.Inner(ps) + [QUOTE] + t[n..]
  {
    hide FirstPass, SecondPass, Pieced, T.AllSpelled, T.Inner, T.Content, Valid;
    V.AsciiOff(t, 1);
    var u := t[1..];
    var n := FirstPass(u).value;
    FirstPassPieces(u);
    V.CutBefore(u, n);
    ps := InnerBack(u[..n]);
    assert u == u[..n] + [QUOTE] + u[n + 1..];
    assert t == [QUOTE] + u && t[n + 2..] == u[n + 1..];
  }

  // The value of digits.
  lemma {:induction false} NumeralIs(ds: Bytes)
    requires T.AllDigits(ds)
    ensures (forall d <- ds :: IsDigit(d)) && Decimal(ds) == T.Numeral(ds)
  {
    if ds != [] {
      NumeralIs(ds[..|ds| - 1]);
    }
  }

  function NumberText(minus: bool, ds: Bytes): Bytes {
    (if minus then [0x2D] else []) + ds
  }

  lemma NumberRead(minus: bool, ds: Bytes, u: Bytes)
    requires T.Formed(T.Number(minus, ds)) && T.Ends(T.Number(minus, ds), u)
    ensures var x := NumberText(minus, ds); x != [] && BareToken(x + u) == (TokenInteger(T.Signed(minus, ds)), |x|)
  {
    hide T.Numeral, Decimal, Digits, IntegerLen;
    var x, k := NumberText(minus, ds), if minus then 1 else 0;
    var t := x + u;
    NumeralIs(ds);
    assert t[k..] == ds + u && x[k..] == ds;
    JsonLexer.DigitsAre(ds + u, |ds|);
    JsonLexer.IntegerLenIs(t, k);
    assert IntegerLen(t) == |x|;
    assert t[..|x|] == x;
    assert forall i :: k <= i < |x| ==> x[i] == ds[i - k];
    ValueOfText(minus, ds);
  }

  lemma ValueOfText(minus: bool, ds: Bytes)
    requires T.AllDigits(ds) && ds != []
    ensures var x, k := NumberText(minus, ds), if minus then 1 else 0;
            && (forall i :: k <= i < |x| ==> IsDigit(x[i])) && x != [] && (x[0] == 0x2D <==> minus)
            && IntegerValue(x) == T.Signed(minus, ds)
  {
    hide T.Numeral, Decimal;
    NumeralIs(ds);
    var x := NumberText(minus, ds);
    assert if minus then x[1..] == ds else x == ds;
  }

  lemma NumberBack(t: Bytes) returns (minus: bool, ds: Bytes)
    requires t != [] && (IsDigit(t[0]) || t[0] == 0x2D) && NumberOf(t).0.TokenInteger?
    ensures var (tok, n) := NumberOf(t);
            && 0 < n <= |t| && T.Formed(T.Number(minus, ds)) && tok == TokenInteger(T.Signed(minus, ds))
            && t == NumberText(minus, ds) + t[n..] && T.Ends(T.Number(minus, ds), t[n..])
  {
    hide T.Numeral, Decimal, IntegerValue, T.Signed;
    var n := IntegerLen(t);
    minus := t[0] == 0x2D;
    var k := if minus then 1 else 0;
    ds := t[k..n];
    NumberEnds(t, k);
    hide IntegerLen;
    assert t[..n] == NumberText(minus, ds);
    assert forall i :: 0 <= i < |ds| ==> ds[i] == t[k + i] && IsDigit(t[k + i]);
    ValueOfText(minus, ds);
  }

  lemma NumberEnds(t: Bytes, k: nat)
    requires t != [] && k == (if t[0] == 0x2D then 1 else 0) && IntegerLen(t) > 0
    ensures var n := IntegerLen(t);
            k < n && (t[k] == 0x30 ==> n == k + 1) && (n < |t| ==> !IsDigit(t[n]))
  {
    JsonLexer.IntegerLenIs(t, k);
    if t[k] != 0x30 {
      var d := Digits(t[k..]);
      assert d < |t[k..]| ==> t[k..][d] == t[k + d];
    }
  }

  function WordText(v: Json): Bytes {
    if v == JTrue then TRUE else if v == JFalse then FALSE else NULL
  }

  function WordToken(v: Json): Token {
    if v == JTrue then TokenTrue else if v == JFalse then TokenFalse else TokenNull
  }

  lemma WordRead(v: Json, u: Bytes)
    requires T.Formed(T.Word(v)) && T.Ends(T.Word(v), u)
    ensures BareToken(WordText(v) + u) == (WordToken(v), |WordText(v)|)
  {
    var w := WordText(v);
    assert forall i :: 0 <= i < |w| ==> (w + u)[i] == w[i] && IsAlpha(w[i]);
    JsonLexer.AlphasAre(w + u, |w|);
    assert (w + u)[..|w|] == w;
    hide Alphas;
  }

  lemma WordBack(t: Bytes) returns (v: Json)
    requires t != [] && IsAlpha(t[0]) && WordOf(t[..Alphas(t)]) != TokenInvalid
    ensures T.Formed(T.Word(v)) && WordOf(t[..Alphas(t)]) == WordToken(v) && t == WordText(v) + t[Alphas(t)..]
    ensures T.Ends(T.Word(v), t[Alphas(t)..])
  {
    var n := Alphas(t);
    v := if t[..n] == TRUE then JTrue else if t[..n] == FALSE then JFalse else JNull;
    assert t == t[..n] + t[n..];
  }

  // A value that is one token.
  predicate Leaf(t: T.Tree) {
    t.Word? || t.Number? || t.Quote?
  }

  function LeafToken(t: T.Tree): (tok: Token)
    requires Leaf(t) && T.Formed(t)
    ensures Proper(tok) && !tok.TokenPunct?
  {
    match t
    case Word(v) => WordToken(v)
    case Number(minus, ds) => TokenInteger(T.Signed(minus, ds))
    case Quote(ps) => TokenString(T.Content(ps))
  }

  lemma FlatLeaf(t: T.Tree)
    requires Leaf(t) && T.Formed(t)
    ensures T.Flat(t) == match t
                         case Word(v) => WordText(v)
                         case Number(minus, ds) => NumberText(minus, ds)
                         case Quote(ps) => [QUOTE] + T.Inner(ps) + [QUOTE]
  {
  }

  lemma LeafRead(t: T.Tree, u: Bytes, clean: bool)
    requires Leaf(t) && T.Formed(t) && T.Ends(t, u)
    ensures Next(T.Flat(t) + u, clean) == (LeafToken(t), u)
  {
    hide BareToken, Next, T.Inner, T.Content, T.Numeral;
    FlatLeaf(t);
    match t {
      case Word(v) => WordRead(v, u);
      case Number(minus, ds) => NumberRead(minus, ds, u);
      case Quote(ps) => QuoteRead(ps, u);
    }
    R.NextBare(T.Flat(t), u, clean, LeafToken(t));
  }

  // Space in front of a token.
  lemma SpaceOff(t: Bytes, clean: bool) returns (w: Bytes, u: Bytes)
    requires !Next(t, clean).0.TokenEof? && !Next(t, clean).0.TokenInvalid?
    ensures T.AllSpace(w) && t == w + u && u != [] && Next(t, clean).0 == BareToken(u).0
    ensures Proper(BareToken(u).0) ==> 0 < BareToken(u).1 <= |u| && Next(t, clean).1 == u[BareToken(u).1..]
    ensures Valid(t) ==> Valid(u)
  {
    hide BareToken, Valid;
    TokenInside(t, clean);
    var k := Spaces(t);
    w, u := t[..k], t[k..];
    assert forall c <- w :: IsSpace(c);
    if Valid(t) {
      V.AsciiOff(t, k);
    }
    var n := BareToken(u).1;
    assert Spaces(u) == 0 && u[0..] == u;
    TokenInside(u, clean);
    if Proper(BareToken(u).0) {
      assert t[k + n..] == u[n..];
    }
  }

  lemma LeafBack(t: Bytes, clean: bool) returns (w: Bytes, x: T.Tree)
    requires Valid(t) && Proper(Next(t, clean).0) && !Next(t, clean).0.TokenPunct?
    ensures var (tok, u) := Next(t, clean);
            && T.AllSpace(w) && Leaf(x) && T.Formed(x) && LeafToken(x) == tok && t == w + T.Flat(x) + u && T.Ends(x, u)
  {
    hide Next, T.Inner, T.Content, T.Numeral, StringOf, NumberOf, Valid;
    var t1;
    w, t1 := SpaceOff(t, clean);
    var u := Next(t, clean).1;
    V.NoString(t1[1..]);
    NumberKinds(t1);
    if t1[0] == QUOTE {
      var ps := QuoteBack(t1);
      x := T.Quote(ps);
    } else if IsDigit(t1[0]) || t1[0] == 0x2D {
      var minus, ds := NumberBack(t1);
      x := T.Number(minus, ds);
    } else {
      var v := WordBack(t1);
      x := T.Word(v);
    }
    FlatLeaf(x);
    assert t == w + (T.Flat(x) + u);
  }

  lemma NumberKinds(t: Bytes)
    ensures NumberOf(t).0.TokenInteger? || NumberOf(t).0 == TokenReal || NumberOf(t).0 == TokenInvalid
  {
  }

  lemma PunctRead(w: Bytes, c: byte, u: Bytes, clean: bool)
    requires T.AllSpace(w) && IsPunct(c)
    ensures Next(w + [c] + u, clean) == (TokenPunct(c), u)
  {
    hide Next;
    SpaceIs(w);
    R.NextPunct(w, c, u, clean);
    assert w + [c] + u == w + ([c] + u);
  }

  lemma PunctBack(t: Bytes, clean: bool) returns (w: Bytes)
    requires Next(t, clean).0.TokenPunct?
    ensures T.AllSpace(w) && IsPunct(Next(t, clean).0.c) && t == w + [Next(t, clean).0.c] + Next(t, clean).1
  {
    hide Next, StringOf, NumberOf;
    var u;
    w, u := SpaceOff(t, clean);
    OnlyPunct(u);
    assert u == [u[0]] + u[1..];
  }

  lemma OnlyPunct(u: Bytes)
    requires u != [] && BareToken(u).0.TokenPunct?
    ensures IsPunct(u[0]) && BareToken(u) == (TokenPunct(u[0]), 1)
  {
  }

  lemma SpaceRead(w: Bytes, t: Bytes, clean: bool)
    requires T.AllSpace(w)
    ensures Next(w + t, clean) == Next(t, clean)
  {
    SpaceIs(w);
    R.NextAfterSpace(w, t, clean);
  }

  // The end of the input.
  lemma EofIs(t: Bytes, clean: bool)
    ensures Next(t, clean).0.TokenEof? <==> clean && T.AllSpace(t)
  {
    hide BareToken;
    var k := Spaces(t);
    if k < |t| {
      NotEof(t[k..]);
      assert t[k] in t;
    } else {
      assert forall c <- t :: IsSpace(c);
    }
  }

  lemma NotEof(t: Bytes)
    requires t != []
    ensures !BareToken(t).0.TokenEof?
  {
  }
}
