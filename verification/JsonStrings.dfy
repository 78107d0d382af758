/**
  JSON strings as they are printed and scanned (common/jansson/dump.c and common/jansson/load.c;
  section 7 of RFC 8259).
  */
module JsonStrings {
  import opened Options
  import opened Pieces
  import opened Utf

  const QUOTE: byte := 0x22
  const BACKSLASH: byte := 0x5C
  const SLASH: byte := 0x2F

  // The dump flags that matter for a string: JSON_ENSURE_ASCII and JSON_ESCAPE_SLASH.
  datatype Style = Style(ensureAscii: bool, escapeSlash: bool)

  // An upper-case hexadecimal digit.
  function Digit16(d: nat): (u: byte)
    requires d < 16
  {
    if d < 10 then (0x30 + d) as byte else (0x41 + d - 10) as byte
  }

  // snprintf with %04X.
  function Hex4(n: nat): (s: Bytes)
    requires n < 0x10000
    ensures |s| == 4
  {
    var a := n / 0x10;
    var b := a / 0x10;
    [Digit16(b / 0x10), Digit16(b % 0x10), Digit16(a % 0x10), Digit16(n % 0x10)]
  }

  function UnicodeEscape(n: nat): (s: Bytes)
    requires n < 0x10000
    ensures |s| == 6
  {
    [BACKSLASH, 0x75] + Hex4(n)
  }

  // The surrogates of a code point from 10000 hexadecimal on.
  function High(cp: int): (n: nat)
    requires 0x10000 <= cp <= 0x10FFFF
    ensures 0xD800 <= n <= 0xDBFF
  {
    0xD800 + (cp - 0x10000) / 0x400
  }

  function LowHalf(cp: int): (n: nat)
    requires 0x10000 <= cp <= 0x10FFFF
    ensures 0xDC00 <= n <= 0xDFFF
    ensures (High(cp) - 0xD800) * 0x400 + (n - 0xDC00) + 0x10000 == cp
  {
    0xDC00 + (cp - 0x10000) % 0x400
  }

  // What dump_string prints for a code point that it escapes.
  function Escape(cp: int): (s: Bytes)
    requires Scalar(cp)
    ensures |s| >= 2
  {
    if cp == 0x5C then [BACKSLASH, 0x5C]
    else if cp == 0x22 then [BACKSLASH, 0x22]
    else if cp == 0x08 then [BACKSLASH, 0x62]
    else if cp == 0x0C then [BACKSLASH, 0x66]
    else if cp == 0x0A then [BACKSLASH, 0x6E]
    else if cp == 0x0D then [BACKSLASH, 0x72]
    else if cp == 0x09 then [BACKSLASH, 0x74]
    else if cp == 0x2F then [BACKSLASH, 0x2F]
    else if cp < 0x10000 then UnicodeEscape(cp)
    else UnicodeEscape(High(cp)) + UnicodeEscape(LowHalf(cp))
  }

  predicate MustEscape(cp: int, style: Style) {
    || cp == 0x5C || cp == 0x22 || cp < 0x20
    || (style.escapeSlash && cp == 0x2F) || (style.ensureAscii && cp > 0x7F)
  }

  function CharText(cp: int, style: Style): (s: Bytes)
    requires Scalar(cp)
    ensures s != []
  {
    if MustEscape(cp, style) then Escape(cp) else Encode(cp).value
  }

  // A string without its quotes.
  function Body(cps: seq<int>, style: Style): Bytes
    requires AllScalar(cps)
  {
    if cps == [] then []
    else
      assert cps[0] in cps && Scalar(cps[0]);
      CharText(cps[0], style) + Body(cps[1..], style)
  }

  function Quoted(cps: seq<int>, style: Style): Bytes
    requires AllScalar(cps)
  {
    [QUOTE] + Body(cps, style) + [QUOTE]
  }

  // l_isxdigit and the value of a digit.
  predicate IsHex(c: byte) {
    0x30 <= c <= 0x39 || 0x41 <= c <= 0x46 || 0x61 <= c <= 0x66
  }

  function HexValue(c: byte): (d: nat)
    requires IsHex(c)
    ensures d < 16
  {
    if c <= 0x39 then c as nat - 0x30 else if c <= 0x46 then c as nat - 0x41 + 10 else c as nat - 0x61 + 10
  }

  predicate FourHex(s: Bytes) {
    |s| >= 4 && forall i :: 0 <= i < 4 ==> IsHex(s[i])
  }

  // decode_unicode_escape on four hexadecimal digits.
  function Decoded4(s: Bytes): (n: nat)
    requires FourHex(s)
    ensures n < 0x10000
  {
    ((HexValue(s[0]) * 0x10 + HexValue(s[1])) * 0x10 + HexValue(s[2])) * 0x10 + HexValue(s[3])
  }

  lemma Hex4Decoded(n: nat)
    requires n < 0x10000
    ensures FourHex(Hex4(n)) && Decoded4(Hex4(n)) == n
  {
    var a := n / 0x10;
    var b := a / 0x10;
    DigitRead(b / 0x10);
    DigitRead(b % 0x10);
    DigitRead(a % 0x10);
    DigitRead(n % 0x10);
    hide Digit16, IsHex;
    assert b / 0x10 * 0x10 + b % 0x10 == b && b * 0x10 + a % 0x10 == a && a * 0x10 + n % 0x10 == n;
  }

  lemma DigitRead(d: nat)
    requires d < 16
    ensures IsHex(Digit16(d)) && HexValue(Digit16(d)) == d
  {
  }

  // The bytes that may follow a backslash, besides u.
  predicate ShortEscape(c: byte) {
    c in {QUOTE, BACKSLASH, SLASH, 0x62, 0x66, 0x6E, 0x72, 0x74}
  }

  function ShortValue(c: byte): byte
    requires ShortEscape(c)
  {
    if c == 0x62 then 0x08
    else if c == 0x66 then 0x0C
    else if c == 0x6E then 0x0A
    else if c == 0x72 then 0x0D
    else if c == 0x74 then 0x09
    else c
  }

  predicate HexEscape(t: Bytes) {
    |t| >= 6 && t[0] == BACKSLASH && t[1] == 0x75 && FourHex(t[2..])
  }

  // The length of the piece of a string that the first pass of lex_scan_string takes at once, or 0
  // if it refuses it or the string ends.
  function PieceLen(t: Bytes): (n: nat)
    ensures n <= |t|
  {
    if t == [] || t[0] == QUOTE || t[0] < 0x20 then 0
    else if t[0] != BACKSLASH then 1
    else if |t| == 1 then 0
    else if HexEscape(t) then 6
    else if ShortEscape(t[1]) then 2
    else 0
  }

  // The first pass: the length of the string up to its closing quote, if it has one.
  function FirstPass(t: Bytes): Option<nat>
    decreases |t|
  {
    if t != [] && t[0] == QUOTE then Some(0)
    else
      var n := PieceLen(t);
      if n == 0 then None
      else
        match FirstPass(t[n..])
        case None => None
        case Some(m) => Some(n + m)
  }

  // What the first pass has accepted: pieces one after the other.
  predicate Pieced(t: Bytes)
    decreases |t|
  {
    t == [] || (PieceLen(t) > 0 && Pieced(t[PieceLen(t)..]))
  }

  // The second pass takes one piece, or two for a pair of surrogates: its length and its value.
  function TakePiece(t: Bytes): Option<(nat, Bytes)>
    requires t != [] && PieceLen(t) > 0
  {
    if t[0] != BACKSLASH then Some((1, [t[0]]))
    else if t[1] != 0x75 then Some((2, [ShortValue(t[1])]))
    else
      var value := Decoded4(t[2..]);
      if 0xD800 <= value <= 0xDBFF then
        if HexEscape(t[6..]) then
          var value2 := Decoded4(t[8..]);
          if 0xDC00 <= value2 <= 0xDFFF then
            Some((12, Encode((value - 0xD800) * 0x400 + (value2 - 0xDC00) + 0x10000).value))
          else None
        else None
      else if 0xDC00 <= value <= 0xDFFF then None
      else Some((6, Encode(value).value))
  }

  // The second pass on what the first pass has accepted.
  function SecondPass(t: Bytes): Option<Bytes>
    requires Pieced(t)
    decreases |t|
  {
    if t == [] then Some([])
    else
      match TakePiece(t)
      case None => None
      case Some((n, v)) =>
        PiecedAfter(t, n);
        match SecondPass(t[n..])
        case None => None
        case Some(w) => Some(v + w)
  }

  // After a piece, or the two pieces of a pair, the rest is pieces.
  lemma PiecedAfter(t: Bytes, n: nat)
    requires t != [] && Pieced(t) && TakePiece(t).Some? && n == TakePiece(t).value.0
    ensures 0 < n <= |t| && Pieced(t[n..])
  {
    if n == 12 {
      assert t[6..][6..] == t[12..];
    }
  }

  // No piece has a value longer than itself.
  lemma {:induction false} SecondPassFits(t: Bytes)
    requires Pieced(t) && SecondPass(t).Some?
    ensures |SecondPass(t).value| <= |t|
    decreases |t|
  {
    if t != [] {
      var n := TakePiece(t).value.0;
      PiecedAfter(t, n);
      SecondPassFits(t[n..]);
      PieceFits(t);
    }
  }

  lemma PieceFits(t: Bytes)
    requires t != [] && PieceLen(t) > 0 && TakePiece(t).Some?
    ensures |TakePiece(t).value.1| <= TakePiece(t).value.0
  {
  }

  lemma {:induction false} PassOver(t: Bytes, u: Bytes)
    requires Pieced(t)
    ensures FirstPass(t + [QUOTE] + u) == Some(|t|)
    decreases |t|
  {
    var all := t + [QUOTE] + u;
    if t != [] {
      var n := PieceLen(t);
      PieceLocal(t, all);
      assert all[n..] == t[n..] + [QUOTE] + u;
      PassOver(t[n..], u);
    }
  }

  // A piece is recognised by its own bytes.
  lemma PieceLocal(t: Bytes, all: Bytes)
    requires t != [] && PieceLen(t) > 0 && t <= all
    ensures PieceLen(all) == PieceLen(t) && all[0] != QUOTE
  {
  }

  lemma {:induction false} PiecedJoin(t: Bytes, u: Bytes)
    requires Pieced(t) && Pieced(u)
    ensures Pieced(t + u)
    decreases |t|
  {
    if t == [] {
      assert t + u == u;
    } else {
      var n := PieceLen(t);
      PieceLocal(t, t + u);
      assert (t + u)[n..] == t[n..] + u;
      PiecedJoin(t[n..], u);
    }
  }

  predicate PlainByte(c: byte) {
    c >= 0x20 && c != QUOTE && c != BACKSLASH
  }

  lemma PlainStep(c: byte, u: Bytes)
    requires PlainByte(c) && Pieced(u)
    ensures Pieced([c] + u)
    ensures SecondPass([c] + u) == if SecondPass(u).Some? then Some([c] + SecondPass(u).value) else None
  {
    assert ([c] + u)[1..] == u && PieceLen([c] + u) == 1;
  }

  // Bytes that are not special stand for themselves.
  lemma {:induction false} PlainRead(t: Bytes, u: Bytes)
    requires (forall c <- t :: PlainByte(c)) && Pieced(u)
    ensures Pieced(t + u)
    ensures SecondPass(t + u) == if SecondPass(u).Some? then Some(t + SecondPass(u).value) else None
  {
    hide SecondPass, Pieced, PlainByte;
    if t == [] {
      assert t + u == u;
      assert SecondPass(u).Some? ==> t + SecondPass(u).value == SecondPass(u).value;
    } else {
      assert t[0] in t && forall c <- t[1..] :: c in t;
      PlainRead(t[1..], u);
      PlainStep(t[0], t[1..] + u);
      assert t + u == [t[0]] + (t[1..] + u);
      assert SecondPass(u).Some? ==> [t[0]] + (t[1..] + SecondPass(u).value) == t + SecondPass(u).value;
    }
  }

  lemma PlainCode(cp: int)
    requires Scalar(cp) && !(cp == 0x5C || cp == 0x22 || cp < 0x20)
    ensures forall c <- Encode(cp).value :: PlainByte(c)
  {
    LeadFits(cp);
    LeadLarge(cp);
    assert forall i :: 1 <= i < |Encode(cp).value| ==> Continuation(Encode(cp).value[i]);
  }

  lemma UnicodeEscapeIs(n: nat, u: Bytes)
    requires n < 0x10000
    ensures HexEscape(UnicodeEscape(n) + u) && Decoded4((UnicodeEscape(n) + u)[2..]) == n
    ensures (UnicodeEscape(n) + u)[6..] == u && PieceLen(UnicodeEscape(n) + u) == 6
  {
    Hex4Decoded(n);
    var t := UnicodeEscape(n) + u;
    assert forall i :: 0 <= i < 4 ==> t[2 + i] == Hex4(n)[i] && t[2..][i] == Hex4(n)[i];
  }

  lemma ShortRead(c: byte, cp: int, u: Bytes)
    requires Pieced(u) && ShortEscape(c) && Scalar(cp) && cp < 0x80 && ShortValue(c) as int == cp
    ensures Pieced([BACKSLASH, c] + u) && TakePiece([BACKSLASH, c] + u) == Some((2, Encode(cp).value))
  {
    assert ([BACKSLASH, c] + u)[2..] == u;
  }

  lemma UnicodeRead(cp: int, u: Bytes)
    requires Pieced(u) && Scalar(cp) && cp < 0x10000
    ensures Pieced(UnicodeEscape(cp) + u) && TakePiece(UnicodeEscape(cp) + u) == Some((6, Encode(cp).value))
  {
    UnicodeEscapeIs(cp, u);
    hide UnicodeEscape, Encode, Decoded4, HexEscape;
  }

  lemma PairRead(cp: int, u: Bytes)
    requires Pieced(u) && Scalar(cp) && cp >= 0x10000
    ensures var t := Escape(cp) + u; Pieced(t) && TakePiece(t) == Some((12, Encode(cp).value))
  {
    hide UnicodeEscape, Encode, Decoded4, HexEscape, Pieced, TakePiece, High, LowHalf;
    var v := UnicodeEscape(LowHalf(cp)) + u;
    EscapePair(cp, u);
    UnicodeEscapeIs(LowHalf(cp), u);
    UnicodeEscapeIs(High(cp), v);
    PiecedPair(UnicodeEscape(High(cp)) + v, v);
    PairTaken(UnicodeEscape(High(cp)) + v, v, High(cp), LowHalf(cp));
  }

  lemma EscapePair(cp: int, u: Bytes)
    requires Scalar(cp) && cp >= 0x10000
    ensures Escape(cp) + u == UnicodeEscape(High(cp)) + (UnicodeEscape(LowHalf(cp)) + u)
  {
    hide UnicodeEscape;
  }

  lemma PiecedPair(t: Bytes, v: Bytes)
    requires PieceLen(t) == 6 && t[6..] == v && PieceLen(v) == 6 && Pieced(v[6..])
    ensures Pieced(t)
  {
    hide PieceLen;
  }

  lemma PairTaken(t: Bytes, v: Bytes, high: nat, low: nat)
    requires HexEscape(t) && PieceLen(t) == 6 && t[6..] == v && HexEscape(v)
    requires Decoded4(t[2..]) == high && Decoded4(v[2..]) == low
    requires 0xD800 <= high <= 0xDBFF && 0xDC00 <= low <= 0xDFFF
    ensures TakePiece(t) == Some((12, Encode((high - 0xD800) * 0x400 + (low - 0xDC00) + 0x10000).value))
  {
    hide Decoded4, Encode;
    assert t[8..] == t[6..][2..];
  }

  lemma EscapeRead(cp: int, u: Bytes)
    requires Scalar(cp) && Pieced(u)
    ensures Pieced(Escape(cp) + u) && TakePiece(Escape(cp) + u) == Some((|Escape(cp)|, Encode(cp).value))
    ensures (Escape(cp) + u)[|Escape(cp)|..] == u
  {
    assert (Escape(cp) + u)[|Escape(cp)|..] == u;
    hide TakePiece, Pieced;
    if |Escape(cp)| == 2 {
      ShortRead(Escape(cp)[1], cp, u);
    } else if cp < 0x10000 {
      UnicodeRead(cp, u);
    } else {
      PairRead(cp, u);
    }
  }

  // What is printed for a code point is read as that code point.
  lemma CharRead(cp: int, style: Style, u: Bytes)
    requires Scalar(cp) && Pieced(u) && SecondPass(u).Some?
    ensures Pieced(CharText(cp, style) + u)
    ensures SecondPass(CharText(cp, style) + u) == Some(Encode(cp).value + SecondPass(u).value)
  {
    if MustEscape(cp, style) {
      EscapeRead(cp, u);
    } else {
      PlainCode(cp);
      PlainRead(Encode(cp).value, u);
    }
  }

  lemma {:induction false} BodyRead(cps: seq<int>, style: Style)
    requires AllScalar(cps)
    ensures Pieced(Body(cps, style)) && SecondPass(Body(cps, style)) == Some(EncodeAll(cps))
  {
    if cps != [] {
      assert cps[0] in cps && Scalar(cps[0]);
      BodyRead(cps[1..], style);
      hide CharText, Encode, SecondPass, Pieced;
      CharRead(cps[0], style, Body(cps[1..], style));
    }
  }

  // The two passes of lex_scan_string over a printed string, behind its opening quote: the first
  // finds its closing quote, and the second its value, for all flags of the printer.
  lemma PrintedIsScanned(cps: seq<int>, style: Style, rest: Bytes)
    requires AllScalar(cps)
    ensures FirstPass(Body(cps, style) + [QUOTE] + rest) == Some(|Body(cps, style)|)
    ensures Pieced(Body(cps, style)) && SecondPass(Body(cps, style)) == Some(EncodeAll(cps))
  {
    BodyRead(cps, style);
    PassOver(Body(cps, style), rest);
  }

  // The first pass only accepts pieces up to a quote, so the second one can rely on them.
  lemma {:induction false} FirstPassPieces(t: Bytes)
    requires FirstPass(t).Some?
    ensures var n := FirstPass(t).value; n < |t| && t[n] == QUOTE && Pieced(t[..n])
    decreases |t|
  {
    if t[0] != QUOTE {
      var k := PieceLen(t);
      FirstPassPieces(t[k..]);
      var n := FirstPass(t).value;
      assert t[..n][k..] == t[k..][..n - k];
      PieceWithin(t, n);
    }
  }

  lemma PieceWithin(t: Bytes, n: nat)
    requires t != [] && PieceLen(t) <= n <= |t|
    ensures PieceLen(t) > 0 ==> PieceLen(t[..n]) == PieceLen(t)
  {
  }
}
