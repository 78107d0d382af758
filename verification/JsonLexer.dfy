/**
  The lexer of the JSON parser (common/jansson/load.c).
  */
module JsonLexer {
  import opened Options
  import opened Pieces
  import opened Utf
  import opened JsonStream
  import opened JsonStrings
  import opened JsonTokens

  // FirstPass from place k on is FirstPass as a whole.
  predicate PassedTo(t: Bytes, k: nat)
    requires k <= |t|
  {
    FirstPass(t) == match FirstPass(t[k..])
                    case None => None
                    case Some(m) => Some(k + m)
  }

  lemma PassPiece(t: Bytes, k: nat, n: nat)
    requires k < |t| && PassedTo(t, k) && t[k] != QUOTE && n == PieceLen(t[k..])
    ensures n == 0 ==> FirstPass(t) == None
    ensures n > 0 ==> k + n <= |t| && PassedTo(t, k + n)
  {
    hide PieceLen;
    if n > 0 {
      assert t[k..][n..] == t[k + n..];
    }
  }

  // Some bytes, and what the second pass still has to read.
  predicate ReadTo(raw: Bytes, i: nat, w: Bytes)
    requires i <= |raw| && Pieced(raw) && Pieced(raw[i..])
  {
    SecondPass(raw) == match SecondPass(raw[i..])
                       case None => None
                       case Some(v) => Some(w + v)
  }

  lemma ReadStarts(raw: Bytes)
    requires Pieced(raw)
    ensures Pieced(raw[0..]) && ReadTo(raw, 0, [])
  {
    assert raw[0..] == raw;
    assert SecondPass(raw).Some? ==> [] + SecondPass(raw).value == SecondPass(raw).value;
  }

  lemma ReadPiece(raw: Bytes, i: nat, w: Bytes, n: nat, v: Bytes)
    requires i < |raw| && Pieced(raw) && Pieced(raw[i..]) && ReadTo(raw, i, w)
    requires TakePiece(raw[i..]) == Some((n, v))
    ensures 0 < n && i + n <= |raw| && Pieced(raw[i + n..]) && ReadTo(raw, i + n, w + v) && |v| <= n
  {
    PiecedAfter(raw[i..], n);
    PieceFits(raw[i..]);
    hide TakePiece, Pieced;
    assert raw[i..][n..] == raw[i + n..];
    var rest := SecondPass(raw[i + n..]);
    assert rest.Some? ==> w + (v + rest.value) == (w + v) + rest.value;
  }

  // decode_unicode_escape: str[at] is the u of an escape.
  method DecodeUnicodeEscape(str: Bytes, at: nat) returns (value: int)
    requires at + 5 <= |str|
    ensures if FourHex(str[at + 1..]) then value == Decoded4(str[at + 1..]) else value == -1
  {
    value := 0;
    ghost var d := str[at + 1..];
    for i := 0 to 4
      invariant forall j :: 0 <= j < i ==> IsHex(d[j])
      invariant value == if i == 0 then 0 else if i == 1 then HexValue(d[0])
                         else if i == 2 then HexValue(d[0]) * 0x10 + HexValue(d[1])
                         else if i == 3 then (HexValue(d[0]) * 0x10 + HexValue(d[1])) * 0x10 + HexValue(d[2])
                         else Decoded4(d)
    {
      var c := str[at + 1 + i];
      assert c == d[i];
      if !IsHex(c) {
        return -1;
      }
      value := value * 0x10 + HexValue(c);
    }
  }

  // One turn of the second pass of lex_scan_string at place p of the saved text. The first pass
  // makes sure that no escape is malformed: what is left to refuse is a surrogate without its other.
  method TakeOne(saved: Bytes, p: nat) returns (n: nat, v: Bytes)
    requires p < |saved| && saved[p] != QUOTE && saved[|saved| - 1] == QUOTE && Pieced(saved[p..|saved| - 1])
    ensures (n, v) == match TakePiece(saved[p..|saved| - 1])
                      case None => (0, [])
                      case Some(r) => r
    ensures n == 0 <==> TakePiece(saved[p..|saved| - 1]) == None
  {
    ghost var t := saved[p..|saved| - 1];
    if saved[p] != BACKSLASH {
      return 1, [saved[p]];
    }
    if saved[p + 1] != 0x75 {
      return 2, [ShortValue(saved[p + 1])];
    }
    EscapeThere(saved, p);
    var value := DecodeUnicodeEscape(saved, p + 1);
    if 0xD800 <= value <= 0xDBFF {
      if saved[p + 6] == BACKSLASH && saved[p + 7] == 0x75 {
        EscapeNext(saved, p);
        var value2 := DecodeUnicodeEscape(saved, p + 7);
        if 0xDC00 <= value2 <= 0xDFFF {
          return 12, Encode((value - 0xD800) * 0x400 + (value2 - 0xDC00) + 0x10000).value;
        }
      }
      return 0, [];
    } else if 0xDC00 <= value <= 0xDFFF {
      return 0, [];
    }
    return 6, Encode(value).value;
  }

  lemma EscapeThere(saved: Bytes, p: nat)
    requires p < |saved| && saved[|saved| - 1] == QUOTE && Pieced(saved[p..|saved| - 1])
    requires p + 1 < |saved| && saved[p] == BACKSLASH && saved[p + 1] == 0x75
    ensures p + 7 <= |saved|
    ensures var t := saved[p..|saved| - 1];
            && HexEscape(t) && FourHex(saved[p + 2..])
            && Decoded4(saved[p + 2..]) == Decoded4(t[2..])
    ensures saved[p + 6] == BACKSLASH ==> p + 7 < |saved|
  {
    var t := saved[p..|saved| - 1];
    assert t != [] && t[0] == saved[p];
    assert PieceLen(t) > 0;
    assert t[1] == saved[p + 1];
    assert HexEscape(t);
    var d, e := saved[p + 2..], t[2..];
    assert forall i :: 0 <= i < 4 ==> d[i] == e[i];
    hide IsHex, HexValue;
    assert e[0] == d[0] && e[1] == d[1] && e[2] == d[2] && e[3] == d[3];
  }

  lemma EscapeNext(saved: Bytes, p: nat)
    requires p + 7 < |saved| && saved[|saved| - 1] == QUOTE && Pieced(saved[p..|saved| - 1])
    requires HexEscape(saved[p..|saved| - 1]) && saved[p + 6] == BACKSLASH && saved[p + 7] == 0x75
    ensures p + 13 <= |saved|
    ensures var t := saved[p..|saved| - 1];
            && HexEscape(t[6..]) && FourHex(saved[p + 8..])
            && Decoded4(saved[p + 8..]) == Decoded4(t[8..])
  {
    var t := saved[p..|saved| - 1];
    assert t[6..] == saved[p + 6..|saved| - 1];
    EscapeThere(saved, p + 6);
    assert t[8..] == t[6..][2..];
  }

  // lex_t.
  class Lexer {
    const stream: Stream
    var saved: Bytes
    var token: Token
    // How many values the parser is in.
    var depth: nat

    ghost predicate Valid()
      reads this, stream
    {
      stream.Valid()
    }

    ghost function Ahead(): Bytes
      requires Valid()
      reads this, stream
    {
      stream.Ahead()
    }

    // Whether the input ends behind what is delivered, and is not broken off there.
    ghost function Clean(): bool
      reads stream
    {
      Delivered(stream.input) == stream.input
    }

    constructor (input: Bytes)
      requires 0 !in input
      ensures Valid() && fresh(stream) && stream.input == input && Ahead() == Delivered(input) && token == TokenInvalid
    {
      stream := new Stream(input);
      saved, token, depth := [], TokenInvalid, 0;
      new;
      hide Good, Delivered, Stream.Valid, Stream.Ahead;
    }

    // c is byte k of t, or what comes behind t, and was the last one to be got.
    ghost predicate Got(t: Bytes, k: nat, c: int)
      reads this, stream
    {
      && Valid() && k <= |t|
      && Ahead() == (if k < |t| then t[k + 1..] else [])
      && c == (if k < |t| then t[k] as int else if Clean() then EOF else ERROR)
      && (k < |t| ==> stream.bufferPos > 0 && stream.state == StateOk && stream.Position() > 0
                      && stream.input[stream.Position() - 1] as int == c)
    }

    // lex_get.
    method Get(ghost t: Bytes, ghost k: nat) returns (c: int)
      requires Valid() && k <= |t| && Ahead() == t[k..]
      modifies stream
      ensures Got(t, k, c)
    {
      c := stream.Get();
    }

    // lex_get_save.
    method GetSave(ghost t: Bytes, ghost k: nat) returns (c: int)
      requires Valid() && k <= |t| && Ahead() == t[k..]
      modifies this`saved, stream
      ensures Got(t, k, c) && saved == old(saved) + if k < |t| then [t[k]] else []
    {
      c := stream.Get();
      if c != EOF && c != ERROR {
        saved := saved + [c as byte];
      }
    }

    // lex_unget_unsave.
    method UngetUnsave(c: int, ghost t: Bytes, ghost k: nat)
      requires Got(t, k, c) && (k < |t| ==> saved != [] && saved[|saved| - 1] == t[k])
      modifies this`saved, stream
      ensures Valid() && Ahead() == t[k..] && saved == if k < |t| then old(saved)[..|old(saved)| - 1] else old(saved)
    {
      stream.Unget(c);
      if c != EOF && c != ERROR {
        saved := saved[..|saved| - 1];
      }
    }

    // The saved text when the bytes of t up to place k were got after pre.
    ghost predicate SavedTo(pre: Bytes, t: Bytes, k: nat)
      requires k <= |t|
      reads this
    {
      saved == pre + t[..if k < |t| then k + 1 else k]
    }

    lemma SavedMore(pre: Bytes, t: Bytes, k: nat)
      requires k < |t| && saved == pre + t[..k + 1] + if k + 1 < |t| then [t[k + 1]] else []
      ensures SavedTo(pre, t, k + 1)
    {
      if k + 1 < |t| {
        assert t[..k + 2] == t[..k + 1] + [t[k + 1]];
        assert pre + (t[..k + 1] + [t[k + 1]]) == pre + t[..k + 1] + [t[k + 1]];
      }
    }

    // The next byte of a string.
    method Next(ghost pre: Bytes, ghost t: Bytes, ghost k: nat, ghost c0: int) returns (c: int)
      requires k < |t| && Got(t, k, c0) && SavedTo(pre, t, k)
      modifies this`saved, stream
      ensures Got(t, k + 1, c) && SavedTo(pre, t, k + 1)
    {
      hide Stream.Valid, Stream.Ahead, Delivered;
      c := GetSave(t, k + 1);
      SavedMore(pre, t, k);
    }

    // The four digits of an escape: c is the first of them.
    method SkipHex(c0: int, ghost t: Bytes, ghost k: nat) returns (c: int, ok: bool)
      requires k <= |t| && Got(t, k, c0) && SavedTo([QUOTE], t, k)
      modifies this`saved, stream
      ensures Valid() && ok == FourHex(t[k..])
      ensures ok ==> k + 4 <= |t| && Got(t, k + 4, c) && SavedTo([QUOTE], t, k + 4)
    {
      hide Lexer.SavedTo, Stream.Valid, Stream.Ahead, Delivered, IsHex, Lexer.Valid, Lexer.Ahead, Lexer.Clean, Stream.Position;
      ghost var d := t[k..];
      c := c0;
      for i := 0 to 4
        invariant k + i <= |t| && Got(t, k + i, c) && SavedTo([QUOTE], t, k + i)
        invariant forall j :: 0 <= j < i ==> IsHex(d[j])
      {
        assert |d| > i ==> d[i] == t[k + i];
        if !(0 <= c < 256 && IsHex(c as byte)) {
          return c, false;
        }
        c := Next([QUOTE], t, k + i, c);
      }
      ok := true;
    }

    // One piece of a string in the first pass: c0 is its first byte.
    method SkipPiece(c0: int, ghost t: Bytes, ghost k: nat) returns (c: int, ok: bool, ghost n: nat)
      requires k < |t| && Got(t, k, c0) && SavedTo([QUOTE], t, k) && c0 > 0x1F && c0 != QUOTE as int
      modifies this`saved, stream
      ensures Valid() && n == PieceLen(t[k..]) && ok == (n > 0)
      ensures n > 0 ==> k + n <= |t| && Got(t, k + n, c) && SavedTo([QUOTE], t, k + n)
    {
      hide Lexer.SavedTo, Stream.Valid, Stream.Ahead, Delivered, FourHex, ShortEscape, PieceLen;
      PieceLenIs(t, k);
      n := PieceLen(t[k..]);
      c := Next([QUOTE], t, k, c0);
      ok := true;
      if c0 == BACKSLASH as int {
        if c == 0x75 {
          c := Next([QUOTE], t, k + 1, c);
          c, ok := SkipHex(c, t, k + 2);
        } else if 0 <= c < 256 && ShortEscape(c as byte) {
          c := Next([QUOTE], t, k + 1, c);
        } else {
          ok := false;
        }
      }
    }

    // The first pass of lex_scan_string: looks for the closing quote.
    method FirstScan() returns (ok: bool)
      requires Valid() && saved == [QUOTE]
      modifies this`saved, stream
      ensures Valid() && (ok <==> FirstPass(old(Ahead())).Some?)
      ensures ok ==>
                var t := old(Ahead()); var n := FirstPass(t).value;
                && n < |t| && saved == [QUOTE] + t[..n] + [QUOTE] && Ahead() == t[n + 1..]
    {
      hide FirstPass, PieceLen, Stream.Valid, Stream.Ahead, Delivered;
      ghost var t := Ahead();
      ghost var k := 0;
      assert t[0..] == t;
      PassStarts(t);
      var c := GetSave(t, 0);
      while c != QUOTE as int
        invariant Got(t, k, c) && PassedTo(t, k)
        invariant SavedTo([QUOTE], t, k)
        decreases |t| - k
      {
        PassStep(t, k);
        if c == ERROR || c == EOF {
          return false;
        }
        if c <= 0x1F {
          UngetUnsave(c, t, k);
          return false;
        }
        var more;
        ghost var n;
        c, more, n := SkipPiece(c, t, k);
        if !more {
          return false;
        }
        k := k + n;
      }
      PassStep(t, k);
      assert t[..k + 1] == t[..k] + [QUOTE];
      assert [QUOTE] + (t[..k] + [QUOTE]) == [QUOTE] + t[..k] + [QUOTE];
      ok := true;
    }

    // The second pass of lex_scan_string: the value of the saved text. It is never longer, so the
    // block that is allocated for it is large enough.
    method SecondScan(ghost raw: Bytes) returns (val: Option<Bytes>)
      requires saved == [QUOTE] + raw + [QUOTE] && Pieced(raw)
      ensures val == SecondPass(raw)
    {
      hide SecondPass, Pieced, TakePiece;
      var t := new byte[|saved| + 1];
      var ti, p := 0, 1;
      ghost var w: Bytes := [];
      ReadStarts(raw);
      EndsAt(saved, raw, 0);
      while saved[p] != QUOTE
        invariant 1 <= p <= |raw| + 1 && Pieced(raw[p - 1..]) && ReadTo(raw, p - 1, w)
        invariant ti == |w| <= p - 1 && forall k :: 0 <= k < ti ==> t[k] == w[k]
        invariant saved[p] == QUOTE <==> p - 1 == |raw|
        decreases |saved| - p
      {
        RestIs(saved, raw, p);
        var n, v := TakeOne(saved, p);
        if n == 0 {
          PieceNone(raw, p - 1, w);
          return None;
        }
        ReadPiece(raw, p - 1, w, n, v);
        PutValue(t, ti, v, w);
        w := w + v;
        ti, p := ti + |v|, p + n;
        EndsAt(saved, raw, p - 1);
      }
      ReadAll(raw, w);
      t[ti] := 0;
      assert t[..ti] == w;
      val := Some(t[..ti]);
    }

    // lex_scan_string, behind the opening quote.
    method ScanString()
      requires Valid() && saved == [QUOTE]
      modifies this`saved, this`token, stream
      ensures Valid() && token == StringOf(old(Ahead())).0
      ensures token.TokenString? ==> StringOf(old(Ahead())).1 <= |old(Ahead())| && Ahead() == old(Ahead())[StringOf(old(Ahead())).1..]
    {
      hide SecondPass, FirstPass, Pieced, Stream.Valid, Stream.Ahead, Delivered;
      ghost var t := Ahead();
      token := TokenInvalid;
      var ok := FirstScan();
      if ok {
        FirstPassPieces(t);
        label before:
        var val := SecondScan(t[..FirstPass(t).value]);
        Undisturbed@before();
        if val.Some? {
          token := TokenString(val.value);
        }
      }
    }

    // The digits from place k on: c is the first of them.
    method SkipDigits(c0: int, ghost t: Bytes, ghost k: nat) returns (c: int, ghost n: nat)
      requires k < |t| && Got(t, k, c0) && SavedTo([], t, k) && IsDigit(t[k])
      modifies this`saved, stream
      ensures n == Digits(t[k..]) && k + n <= |t| && Got(t, k + n, c) && SavedTo([], t, k + n)
    {
      hide Lexer.SavedTo, Stream.Valid, Stream.Ahead, Delivered, IsDigit, Digits, Lexer.Ahead;
      c, n := c0, 0;
      assert t[k..][0] == t[k];
      while 0 <= c < 256 && IsDigit(c as byte)
        invariant k + n <= |t| && Got(t, k + n, c) && SavedTo([], t, k + n)
        invariant forall i :: 0 <= i < n ==> IsDigit(t[k..][i])
        decreases |t| - k - n
      {
        assert t[k..][n] == t[k + n];
        c := Next([], t, k + n, c);
        n := n + 1;
      }
      assert k + n < |t| ==> t[k..][n] == t[k + n];
      DigitsAre(t[k..], n);
    }

    // lex_scan_number for integers: c is the first byte of t. (For a real it stops at the point or
    // the exponent.)
    method ScanNumber(c0: int, ghost t: Bytes)
      requires t != [] && Got(t, 0, c0) && saved == t[..1]
      modifies this`saved, this`token, stream
      ensures Valid() && token == NumberOf(t).0
      ensures token.TokenInteger? ==> NumberOf(t).1 <= |t| && Ahead() == t[NumberOf(t).1..]
    {
      hide Lexer.SavedTo, Stream.Valid, Stream.Ahead, Delivered, IntegerValue, IntegerLen;
      token := TokenInvalid;
      var c, found;
      ghost var k;
      c, found, k := ScanDigits(c0, t);
      if !found {
        return;
      }
      if c == 0x2E || c == 0x45 || c == 0x65 {
        token := TokenReal;
        return;
      }
      Unread(c, t, k);
      var value := IntegerValue(saved);
      if INT_MIN <= value <= INT_MAX {
        token := TokenInteger(value);
      }
    }

    // The part of lex_scan_number before the point and the exponent: an optional minus sign and digits
    // without a leading zero.
    method ScanDigits(c0: int, ghost t: Bytes) returns (c: int, found: bool, ghost k: nat)
      requires t != [] && Got(t, 0, c0) && saved == t[..1]
      modifies this`saved, stream
      ensures found == (IntegerLen(t) > 0)
      ensures if found then k == IntegerLen(t) && Got(t, k, c) && SavedTo([], t, k) else Valid()
    {
      hide Lexer.SavedTo, Stream.Valid, Stream.Ahead, Delivered;
      c, found, k := c0, true, 0;
      assert SavedTo([], t, 0) by { SavedFirst(t); }
      if c == 0x2D {
        c := Next([], t, 0, c);
        k := 1;
      }
      IntegerLenIs(t, k);
      if c == 0x30 {
        c := Next([], t, k, c);
        k := k + 1;
        if 0 <= c < 256 && IsDigit(c as byte) {
          Unread(c, t, k);
          found := false;
        }
      } else if 0 <= c < 256 && IsDigit(c as byte) {
        ghost var n;
        c, n := SkipDigits(c, t, k);
        k := k + n;
      } else {
        Unread(c, t, k);
        found := false;
      }
    }

    // lex_unget_unsave of what follows a token.
    method Unread(c: int, ghost t: Bytes, ghost k: nat)
      requires Got(t, k, c) && SavedTo([], t, k)
      modifies this`saved, stream
      ensures Valid() && Ahead() == t[k..] && saved == t[..k]
    {
      hide Stream.Valid, Stream.Ahead, Delivered;
      UngetUnsave(c, t, k);
    }

    lemma SavedFirst(t: Bytes)
      requires t != [] && saved == t[..1]
      ensures SavedTo([], t, 0)
    {
    }

    // A word: c is its first letter.
    method ScanWord(c0: int, ghost t: Bytes)
      requires t != [] && Got(t, 0, c0) && saved == t[..1] && IsAlpha(t[0])
      modifies this`saved, this`token, stream
      ensures Valid() && token == WordOf(t[..Alphas(t)]) && Ahead() == t[Alphas(t)..]
    {
      hide Lexer.SavedTo, Stream.Valid, Stream.Ahead, Delivered, IsAlpha;
      var c := c0;
      ghost var k := 0;
      SavedFirst(t);
      while 0 <= c < 256 && IsAlpha(c as byte)
        invariant k <= |t| && Got(t, k, c) && SavedTo([], t, k)
        invariant forall i :: 0 <= i < k ==> IsAlpha(t[i])
        decreases |t| - k
      {
        c := Next([], t, k, c);
        k := k + 1;
      }
      AlphasAre(t, k);
      Unread(c, t, k);
      token := WordOf(saved);
    }

    // The space before a token, and the byte after it.
    method SkipSpaces(ghost all: Bytes) returns (c: int)
      requires Valid() && Ahead() == all
      modifies stream
      ensures Got(all, Spaces(all), c)
    {
      hide Stream.Valid, Stream.Ahead, Delivered, IsSpace;
      ghost var k := 0;
      assert all[0..] == all;
      c := Get(all, 0);
      while 0 <= c < 256 && IsSpace(c as byte)
        invariant k <= |all| && Got(all, k, c)
        invariant forall i :: 0 <= i < k ==> IsSpace(all[i])
        decreases |all| - k
      {
        c := Get(all, k + 1);
        k := k + 1;
      }
      SpacesAre(all, k);
    }

    // lex_scan from the first byte of a token on.
    method ScanBare(c: int, ghost t: Bytes)
      requires t != [] && Got(t, 0, c) && saved == [c as byte]
      modifies this`saved, this`token, stream
      ensures Valid() && token == BareToken(t).0
      ensures Proper(token) ==> BareToken(t).1 <= |t| && Ahead() == t[BareToken(t).1..]
    {
      hide Lexer.SavedTo, Stream.Valid, Stream.Ahead, Delivered, StringOf, NumberOf, WordOf, Proper;
      assert t[..1] == [t[0]];
      NumberKind(t);
      StringKind(t[1..]);
      if IsPunct(c as byte) {
        token := TokenPunct(c as byte);
      } else if c == QUOTE as int {
        ScanString();
        StringRest(t);
      } else if IsDigit(c as byte) || c == 0x2D {
        ScanNumber(c, t);
      } else if IsAlpha(c as byte) {
        ScanWord(c, t);
      } else {
        token := TokenInvalid;
        Improper();
      }
    }

    // lex_scan.
    method Scan()
      requires Valid()
      modifies this`saved, this`token, stream
      ensures Valid() && token == TokenOf(old(Ahead()), Clean()).0
      ensures Proper(token) ==>
                var n := TokenOf(old(Ahead()), Clean()).1;
                n <= |old(Ahead())| && Ahead() == old(Ahead())[n..]
    {
      hide Lexer.SavedTo, Stream.Valid, Stream.Ahead, Delivered, BareToken, Proper, Spaces;
      saved := [];
      ghost var all := Ahead();
      ghost var k := Spaces(all);
      var c := SkipSpaces(all);
      Improper();
      if c == EOF {
        token := TokenEof;
        return;
      }
      if c == ERROR {
        token := TokenInvalid;
        return;
      }
      ghost var t := all[k..];
      assert t[0] == all[k] && t[1..] == all[k + 1..];
      saved := [c as byte];
      ScanBare(c, t);
      if Proper(token) {
        assert all[k..][BareToken(t).1..] == all[k + BareToken(t).1..];
      }
    }

    twostate lemma Undisturbed()
      requires old(Valid()) && unchanged(stream)
      ensures Valid() && Ahead() == old(Ahead())
    {
    }
  }

  lemma {:induction false} DigitsAre(t: Bytes, n: nat)
    requires n <= |t| && (forall i :: 0 <= i < n ==> IsDigit(t[i])) && (n < |t| ==> !IsDigit(t[n]))
    ensures Digits(t) == n
  {
    if n > 0 {
      DigitsAre(t[1..], n - 1);
    }
  }

  lemma {:induction false} SpacesAre(t: Bytes, n: nat)
    requires n <= |t| && (forall i :: 0 <= i < n ==> IsSpace(t[i])) && (n < |t| ==> !IsSpace(t[n]))
    ensures Spaces(t) == n
  {
    if n > 0 {
      SpacesAre(t[1..], n - 1);
    }
  }

  lemma Improper()
    ensures !Proper(TokenInvalid) && !Proper(TokenEof)
  {
  }

  lemma NumberKind(t: Bytes)
    ensures var (tok, n) := NumberOf(t); tok.TokenInteger? || !Proper(tok)
  {
  }

  lemma StringKind(t: Bytes)
    ensures var (tok, n) := StringOf(t); tok.TokenString? || !Proper(tok)
  {
  }

  lemma StringRest(t: Bytes)
    requires t != []
    ensures var n := StringOf(t[1..]).1; n <= |t| - 1 ==> t[1..][n..] == t[n + 1..]
  {
    hide StringOf;
  }

  lemma {:induction false} AlphasAre(t: Bytes, n: nat)
    requires n <= |t| && (forall i :: 0 <= i < n ==> IsAlpha(t[i])) && (n < |t| ==> !IsAlpha(t[n]))
    ensures Alphas(t) == n
  {
    if n > 0 {
      AlphasAre(t[1..], n - 1);
    }
  }

  // IntegerLen behind the sign.
  lemma IntegerLenIs(t: Bytes, k: nat)
    requires t != [] && k == if t[0] == 0x2D then 1 else 0
    ensures IntegerLen(t) ==
              if k == |t| || !IsDigit(t[k]) then 0
              else if t[k] == 0x30 then if k + 1 < |t| && IsDigit(t[k + 1]) then 0 else k + 1
              else k + Digits(t[k..])
  {
  }

  // Where the saved text of a string ends.
  lemma EndsAt(saved: Bytes, raw: Bytes, i: nat)
    requires saved == [QUOTE] + raw + [QUOTE] && i <= |raw| && Pieced(raw[i..])
    ensures saved[i + 1] == QUOTE <==> i == |raw|
  {
    if i < |raw| {
      assert raw[i..] != [] && raw[i..][0] == raw[i];
    }
  }

  lemma RestIs(saved: Bytes, raw: Bytes, p: nat)
    requires saved == [QUOTE] + raw + [QUOTE] && 1 <= p <= |raw| + 1
    ensures saved[p..|saved| - 1] == raw[p - 1..]
  {
  }

  lemma PieceNone(raw: Bytes, i: nat, w: Bytes)
    requires i < |raw| && Pieced(raw) && Pieced(raw[i..]) && ReadTo(raw, i, w) && TakePiece(raw[i..]) == None
    ensures SecondPass(raw) == None
  {
  }

  lemma ReadAll(raw: Bytes, w: Bytes)
    requires Pieced(raw) && Pieced(raw[|raw|..]) && ReadTo(raw, |raw|, w)
    ensures SecondPass(raw) == Some(w)
  {
    assert raw[|raw|..] == [];
    assert w + [] == w;
  }

  // The bytes of a value behind those already written.
  method PutValue(t: array<byte>, ti: nat, v: Bytes, ghost w: Bytes)
    requires ti == |w| && ti + |v| <= t.Length && forall k :: 0 <= k < ti ==> t[k] == w[k]
    modifies t
    ensures forall k :: 0 <= k < ti + |v| ==> t[k] == (w + v)[k]
  {
    forall k | 0 <= k < |v| {
      t[ti + k] := v[k];
    }
  }

  lemma PieceLenIs(t: Bytes, k: nat)
    requires k < |t| && t[k] >= 0x20 && t[k] != QUOTE
    ensures PieceLen(t[k..]) ==
              if t[k] != BACKSLASH then 1
              else if k + 1 == |t| then 0
              else if t[k + 1] == 0x75 then if FourHex(t[k + 2..]) then 6 else 0
              else if ShortEscape(t[k + 1]) then 2 else 0
  {
    assert k + 2 <= |t| ==> t[k..][2..] == t[k + 2..];
    hide FourHex;
  }

  // What FirstPass makes of the next piece.
  lemma PassStep(t: Bytes, k: nat)
    requires k <= |t| && PassedTo(t, k)
    ensures k == |t| ==> FirstPass(t) == None
    ensures k < |t| && t[k] == QUOTE ==> FirstPass(t) == Some(k)
    ensures k < |t| && t[k] < 0x20 ==> FirstPass(t) == None
    ensures k < |t| && t[k] != QUOTE ==>
              var n := PieceLen(t[k..]);
              if n == 0 then FirstPass(t) == None else k + n <= |t| && PassedTo(t, k + n)
  {
    if k < |t| && t[k] != QUOTE {
      if t[k] < 0x20 {
        ControlRefused(t[k..]);
      }
      hide PieceLen;
      PassPiece(t, k, PieceLen(t[k..]));
    }
  }

  lemma ControlRefused(t: Bytes)
    requires t != [] && t[0] < 0x20
    ensures PieceLen(t) == 0
  {
  }

  lemma PassStarts(t: Bytes)
    ensures PassedTo(t, 0)
  {
    assert t[0..] == t;
  }
}
