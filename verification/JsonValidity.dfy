/**
  Every string and every key that the parser makes of valid UTF-8 is valid UTF-8 again
  (common/jansson/load.c; section 8.1 of RFC 8259).
  */
module JsonValidity {
  import opened Options
  import opened Pieces
  import opened Utf
  import opened JsonStrings
  import opened JsonTokens
  import opened JsonValues
  import opened JsonGrammar
  import JsonStream

  // The first character of a valid string, and the rest.
  lemma FirstOff(s: Bytes) returns (c: int)
    requires Valid(s) && s != []
    ensures Scalar(c) && Encode(c).Some?
    ensures var e := Encode(c).value; 0 < |e| <= |s| && e == s[..|e|] && Valid(s[|e|..]) && CheckFirst(s[0]) == |e|
  {
    hide Encode, CheckFirst;
    var cps: seq<int> :| AllScalar(cps) && EncodeAll(cps) == s;
    assert cps[0] in cps && forall d <- cps[1..] :: d in cps;
    FirstIs();
    c := cps[0];
    assert s[|Encode(c).value|..] == EncodeAll(cps[1..]);
  }

  lemma {:induction false} AsciiOff(s: Bytes, n: nat)
    requires Valid(s) && n <= |s| && forall i :: 0 <= i < n ==> s[i] < 0x80
    ensures Valid(s[n..])
  {
    if n == 0 {
      assert s[0..] == s;
    } else {
      var c := FirstOff(s);
      AsciiOff(s[1..], n - 1);
      assert s[1..][n - 1..] == s[n..];
    }
  }

  // A valid string may be cut before any byte that continues no character.
  lemma {:induction false} CutBefore(s: Bytes, n: nat)
    requires Valid(s) && n < |s| && !Continuation(s[n])
    ensures Valid(s[..n])
  {
    if n == 0 {
      NothingValid();
      assert s[..0] == [];
    } else {
      var c := FirstOff(s);
      var e := Encode(c).value;
      CodeContinues(c);
      assert forall i :: 0 <= i < |e| ==> e[i] == s[i];
      assert |e| <= n;
      assert s[|e|..][n - |e|] == s[n];
      CutBefore(s[|e|..], n - |e|);
      OneValid(c);
      ValidJoin(e, s[|e|..][..n - |e|]);
      assert e + s[|e|..][..n - |e|] == s[..n];
    }
  }

  lemma CodeContinues(c: int)
    requires Scalar(c)
    ensures forall i :: 1 <= i < |Encode(c).value| ==> Continuation(Encode(c).value[i])
  {
    LeadFits(c);
  }

  lemma NothingValid()
    ensures Valid([])
  {
    NoCharacters();
    assert AllScalar([]);
  }

  lemma OneValid(c: int)
    requires Scalar(c)
    ensures Valid(Encode(c).value)
  {
    hide Encode;
    NoCharacters();
    EncodeAllMore([], c);
    assert AllScalar([] + [c]) && EncodeAll([] + [c]) == [] + Encode(c).value == Encode(c).value;
  }

  lemma ValidJoin(s: Bytes, t: Bytes)
    requires Valid(s) && Valid(t)
    ensures Valid(s + t)
  {
    var a: seq<int> :| AllScalar(a) && EncodeAll(a) == s;
    var b: seq<int> :| AllScalar(b) && EncodeAll(b) == t;
    EncodeJoin(a, b);
  }

  // What an escape stands for is a character.
  lemma EscapeValid(t: Bytes)
    requires t != [] && t[0] == BACKSLASH && PieceLen(t) > 0 && TakePiece(t).Some?
    ensures var (n, v) := TakePiece(t).value; n <= |t| && Valid(v) && forall i :: 0 <= i < n ==> t[i] < 0x80
  {
    var (n, v) := TakePiece(t).value;
    if t[1] != 0x75 {
      OneByte(ShortValue(t[1]));
      OneValid(ShortValue(t[1]) as int);
    } else if n == 6 {
      HexAscii(t);
      OneValid(Decoded4(t[2..]));
    } else {
      HexAscii(t);
      HexAscii(t[6..]);
      assert t[6..][2..] == t[8..];
      OneValid((Decoded4(t[2..]) - 0xD800) * 0x400 + (Decoded4(t[8..]) - 0xDC00) + 0x10000);
      assert forall i :: 6 <= i < 12 ==> t[i] == t[6..][i - 6];
    }
  }

  lemma HexAscii(t: Bytes)
    requires HexEscape(t)
    ensures forall i :: 0 <= i < 6 ==> t[i] < 0x80
  {
    assert forall i :: 2 <= i < 6 ==> t[i] == t[2..][i - 2];
  }

  lemma {:induction false} PiecedBehind(t: Bytes, u: Bytes)
    requires (forall c <- t :: PlainByte(c)) && Pieced(t + u)
    ensures Pieced(u)
  {
    if t == [] {
      assert t + u == u;
    } else {
      assert t[0] in t && forall c <- t[1..] :: c in t;
      assert (t + u)[1..] == t[1..] + u;
      PiecedBehind(t[1..], u);
    }
  }

  // The value of a string whose text is valid.
  lemma {:induction false} SecondPassValid(t: Bytes)
    requires Valid(t) && Pieced(t) && SecondPass(t).Some?
    ensures Valid(SecondPass(t).value)
    decreases |t|
  {
    hide Encode, EncodeAll, TakePiece;
    if t == [] {
      NothingValid();
    } else if t[0] == BACKSLASH {
      var (n, v) := TakePiece(t).value;
      EscapeValid(t);
      PiecedAfter(t, n);
      AsciiOff(t, n);
      SecondPassValid(t[n..]);
      ValidJoin(v, SecondPass(t[n..]).value);
    } else {
      var c := FirstOff(t);
      var e := Encode(c).value;
      PlainFirst(t, c);
      assert t == e + t[|e|..];
      PiecedBehind(e, t[|e|..]);
      PlainRead(e, t[|e|..]);
      SecondPassValid(t[|e|..]);
      OneValid(c);
      ValidJoin(e, SecondPass(t[|e|..]).value);
    }
  }

  lemma PlainFirst(t: Bytes, c: int)
    requires t != [] && t[0] != BACKSLASH && PieceLen(t) > 0 && Scalar(c) && Encode(c).value <= t
    ensures forall b <- Encode(c).value :: PlainByte(b)
  {
    assert Encode(c).value[0] == t[0];
    PlainCode(c);
  }

  ghost predicate StringsValid(tok: Token) {
    tok.TokenString? ==> Valid(tok.val)
  }

  lemma StringOfValid(t: Bytes)
    requires Valid(t) && StringOf(t).0.TokenString?
    ensures var (tok, n) := StringOf(t); n <= |t| && Valid(tok.val) && Valid(t[n..])
  {
    hide FirstPass, SecondPass, Pieced;
    var n := FirstPass(t).value;
    FirstPassPieces(t);
    CutBefore(t, n);
    SecondPassValid(t[..n]);
    assert t == t[..n] + t[n..];
    BehindValid(t[..n], t[n..]);
    AsciiOff(t[n..], 1);
    assert t[n..][1..] == t[n + 1..];
  }

  // What is behind the beginning of a valid string that is valid.
  lemma {:induction false} BehindValid(s: Bytes, t: Bytes)
    requires Valid(s) && Valid(s + t)
    ensures Valid(t)
    decreases |s|
  {
    hide Encode;
    if s == [] {
      assert s + t == t;
    } else {
      var c := FirstOff(s);
      var d := FirstOff(s + t);
      var n := |Encode(c).value|;
      assert (s + t)[0] == s[0] && (s + t)[n..] == s[n..] + t;
      BehindValid(s[n..], t);
    }
  }

  // A token takes whole characters.
  lemma BareTokenValid(t: Bytes)
    requires t != [] && Valid(t)
    ensures var (tok, n) := BareToken(t); Proper(tok) ==> n <= |t| && Valid(t[n..]) && StringsValid(tok)
  {
    hide Valid, StringOf, IntegerLen, IntegerValue;
    var (tok, n) := BareToken(t);
    if !IsPunct(t[0]) && t[0] == QUOTE {
      AsciiOff(t, 1);
      if tok.TokenString? {
        StringOfValid(t[1..]);
        assert t[1..][n - 1..] == t[n..];
      } else {
        NoString(t[1..]);
      }
    } else if Proper(tok) {
      AsciiOff(t, n);
    }
  }

  lemma NoString(t: Bytes)
    ensures StringOf(t).0.TokenString? || StringOf(t).0 == TokenInvalid
  {
  }

  lemma NextValid(t: Bytes, clean: bool)
    requires Valid(t)
    ensures var (tok, u) := Next(t, clean); Valid(u) && StringsValid(tok)
  {
    hide Valid, BareToken;
    NothingValid();
    TokenInside(t, clean);
    var k := Spaces(t);
    if k < |t| {
      AsciiOff(t, k);
      BareTokenValid(t[k..]);
      NoOther(t[k..]);
      var n := BareToken(t[k..]).1;
      if Proper(BareToken(t[k..]).0) {
        assert t[k..][n..] == t[k + n..];
      }
    }
  }

  lemma NoOther(t: Bytes)
    requires t != []
    ensures !Proper(BareToken(t).0) ==> !BareToken(t).0.TokenString?
  {
  }

  // All strings and keys of what the parser makes are valid, and so is what is left.
  ghost predicate ParsedValid(o: Outcome) {
    o.Parsed? ==> Printable(o.value) && KeysValid(o.value) && Valid(o.rest)
  }

  lemma {:induction false} ValueOfValid(tok: Token, t: Bytes, clean: bool, flags: Flags, depth: nat)
    requires Valid(t) && StringsValid(tok)
    ensures ParsedValid(ValueOf(tok, t, clean, flags, depth))
    decreases Left(tok, t), 0
  {
    hide Valid, ArrayOf, ObjectOf;
    if depth + 1 <= flags.maxDepth && tok.TokenPunct? {
      if tok.c == OPEN_OBJECT {
        ObjectOfValid(t, clean, flags, depth + 1);
      } else if tok.c == OPEN_ARRAY {
        ArrayOfValid(t, clean, flags, depth + 1);
      }
    }
  }

  lemma {:induction false} ArrayOfValid(t: Bytes, clean: bool, flags: Flags, depth: nat)
    requires Valid(t)
    ensures ParsedValid(ArrayOf(t, clean, flags, depth))
    decreases |t|, 2
  {
    hide Valid, Next, ElementsOf;
    NextValid(t, clean);
    var (tok, u) := Next(t, clean);
    if tok != TokenPunct(CLOSE_ARRAY) {
      ElementsOfValid(tok, u, clean, flags, depth, []);
    }
  }

  lemma {:induction false} ObjectOfValid(t: Bytes, clean: bool, flags: Flags, depth: nat)
    requires Valid(t)
    ensures ParsedValid(ObjectOf(t, clean, flags, depth))
    decreases |t|, 2
  {
    hide Valid, Next, MembersOf;
    NextValid(t, clean);
    var (tok, u) := Next(t, clean);
    if tok != TokenPunct(CLOSE_OBJECT) {
      MembersOfValid(tok, u, clean, flags, depth, []);
    }
  }

  ghost predicate ElemsValid(elems: seq<Json>) {
    forall i :: 0 <= i < |elems| ==> Printable(elems[i]) && KeysValid(elems[i])
  }

  ghost predicate MembersValid(ms: seq<Member>) {
    forall i :: 0 <= i < |ms| ==> Valid(ms[i].key) && Printable(ms[i].value) && KeysValid(ms[i].value)
  }

  lemma {:induction false} ElementsOfValid(tok: Token, t: Bytes, clean: bool, flags: Flags, depth: nat, elems: seq<Json>)
    requires Valid(t) && StringsValid(tok) && ElemsValid(elems)
    ensures ParsedValid(ElementsOf(tok, t, clean, flags, depth, elems))
    decreases Left(tok, t), 1
  {
    hide Valid, Next, ValueOf;
    if !tok.TokenEof? {
      ValueOfValid(tok, t, clean, flags, depth);
      var o := ValueOf(tok, t, clean, flags, depth);
      if o.Parsed? {
        NextValid(o.rest, clean);
        var (tok1, t1) := Next(o.rest, clean);
        NextValid(t1, clean);
        var (tok2, t2) := Next(t1, clean);
        if tok1 == TokenPunct(COMMA) {
          ElementsOfValid(tok2, t2, clean, flags, depth, elems + [o.value]);
        }
      }
    }
  }

  lemma {:induction false} PutValid(ms: seq<Member>, key: Bytes, value: Json)
    requires MembersValid(ms) && Valid(key) && Printable(value) && KeysValid(value)
    ensures MembersValid(Put(ms, key, value))
  {
    hide Valid, Printable, KeysValid;
    if ms != [] && ms[0].key != key {
      PutValid(ms[1..], key, value);
    }
  }

  lemma {:induction false} MembersOfValid(tok: Token, t: Bytes, clean: bool, flags: Flags, depth: nat, ms: seq<Member>)
    requires Valid(t) && StringsValid(tok) && MembersValid(ms)
    ensures ParsedValid(MembersOf(tok, t, clean, flags, depth, ms))
    decreases Left(tok, t), 1
  {
    hide Valid, Next, ValueOf, Put;
    NextValid(t, clean);
    var (tok1, t1) := Next(t, clean);
    NextValid(t1, clean);
    var (tok2, t2) := Next(t1, clean);
    if tok.TokenString? && tok1 == TokenPunct(COLON) {
      ValueOfValid(tok2, t2, clean, flags, depth);
      var o := ValueOf(tok2, t2, clean, flags, depth);
      if o.Parsed? {
        NextValid(o.rest, clean);
        var (tok3, t3) := Next(o.rest, clean);
        NextValid(t3, clean);
        var (tok4, t4) := Next(t3, clean);
        PutValid(ms, tok.val, o.value);
        if tok3 == TokenPunct(COMMA) {
          MembersOfValid(tok4, t4, clean, flags, depth, Put(ms, tok.val, o.value));
        }
      }
    }
  }

  // Whatever valid text is parsed, with whatever flags: all strings and keys are valid.
  lemma DocumentValid(t: Bytes, clean: bool, flags: Flags)
    requires Valid(t)
    ensures ParsedValid(DocumentOf(t, clean, flags))
  {
    hide Valid, Next, ValueOf;
    NextValid(t, clean);
    var (tok, u) := Next(t, clean);
    ValueOfValid(tok, u, clean, flags, 0);
  }

  lemma {:induction false} GoodValid(s: Bytes, i: nat)
    requires i <= |s| && Valid(s[..i])
    ensures Valid(s[..JsonStream.Good(s, i)])
    decreases |s| - i
  {
    hide Encode, CheckFirst, Valid, CharacterAt;
    if i < |s| && 0 < CheckFirst(s[i]) <= |s| - i && JsonStream.HasCharacter(s, i) {
      var c :| CharacterAt(s, i, c);
      AtCharacter(s, i, c);
      IsScalar(s, i, c);
      OneValid(c);
      var n := i + CheckFirst(s[i]);
      ValidJoin(s[..i], s[i..n]);
      assert s[..i] + s[i..n] == s[..n];
      GoodValid(s, n);
    }
  }

  lemma IsScalar(s: Bytes, i: nat, c: int)
    requires i <= |s| && CharacterAt(s, i, c)
    ensures Scalar(c)
  {
  }

  // What the lexer gets of any input is valid.
  lemma DeliveredValid(s: Bytes)
    ensures Valid(JsonStream.Delivered(s))
  {
    NothingValid();
    assert s[..0] == [];
    GoodValid(s, 0);
  }
}
