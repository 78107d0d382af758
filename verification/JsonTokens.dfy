/**
  The tokens of JSON text (common/jansson/load.c; section 2 of RFC 8259).
  */
module JsonTokens {
  import opened Options
  import opened Pieces
  import opened Utf
  import opened JsonStrings

  datatype Token =
    | TokenInvalid
    | TokenEof
    | TokenPunct(c: byte)
    | TokenString(val: Bytes)
    | TokenInteger(integer: int)
    | TokenReal
    | TokenTrue
    | TokenFalse
    | TokenNull

  // json_int_t.
  const INT_MIN: int := -0x8000_0000_0000_0000
  const INT_MAX: int := 0x7fff_ffff_ffff_ffff

  predicate IsSpace(c: byte) {
    c == 0x20 || c == 0x09 || c == 0x0A || c == 0x0D
  }

  predicate IsDigit(c: byte) {
    0x30 <= c <= 0x39
  }

  predicate IsAlpha(c: byte) {
    0x41 <= c <= 0x5A || 0x61 <= c <= 0x7A
  }

  predicate IsPunct(c: byte) {
    c in {0x7B, 0x7D, 0x5B, 0x5D, 0x3A, 0x2C}
  }

  // Where a real goes on: a point or an exponent.
  predicate IsFraction(c: byte) {
    c == 0x2E || c == 0x45 || c == 0x65
  }

  // The number of bytes at the beginning for which a predicate holds.
  function Spaces(t: Bytes): (n: nat)
    ensures n <= |t|
    ensures forall i :: 0 <= i < n ==> IsSpace(t[i])
    ensures n < |t| ==> !IsSpace(t[n])
  {
    if t == [] || !IsSpace(t[0]) then 0 else 1 + Spaces(t[1..])
  }

  function Digits(t: Bytes): (n: nat)
    ensures n <= |t|
    ensures forall i :: 0 <= i < n ==> IsDigit(t[i])
    ensures n < |t| ==> !IsDigit(t[n])
  {
    if t == [] || !IsDigit(t[0]) then 0 else 1 + Digits(t[1..])
  }

  function Alphas(t: Bytes): (n: nat)
    ensures n <= |t|
    ensures forall i :: 0 <= i < n ==> IsAlpha(t[i])
    ensures n < |t| ==> !IsAlpha(t[n])
  {
    if t == [] || !IsAlpha(t[0]) then 0 else 1 + Alphas(t[1..])
  }

  // The number that decimal digits stand for.
  function Decimal(ds: Bytes): (n: nat)
    requires forall c <- ds :: IsDigit(c)
  {
    if ds == [] then 0
    else
      assert ds[|ds| - 1] in ds && IsDigit(ds[|ds| - 1]);
      Decimal(ds[..|ds| - 1]) * 10 + (ds[|ds| - 1] as nat - 0x30)
  }

  // The text of a number up to a point or an exponent: a minus sign and digits, without a zero
  // before other digits. 0 if it is none.
  function IntegerLen(t: Bytes): (n: nat)
    ensures n <= |t|
    ensures n > 0 ==> t[0] == 0x2D || IsDigit(t[0])
    ensures n > 0 ==> var m := if t[0] == 0x2D then 1 else 0; m < n && forall i :: m <= i < n ==> IsDigit(t[i])
  {
    if t == [] then 0
    else
      var m := if t[0] == 0x2D then 1 else 0;
      if m == |t| || !IsDigit(t[m]) then 0
      else if t[m] == 0x30 then if m + 1 < |t| && IsDigit(t[m + 1]) then 0 else m + 1
      else m + Digits(t[m..])
  }

  // strtoll on such a text.
  function IntegerValue(s: Bytes): int
    requires s != [] && forall i :: (if s[0] == 0x2D then 1 else 0) <= i < |s| ==> IsDigit(s[i])
  {
    if s[0] == 0x2D then -(Decimal(s[1..]) as int) else Decimal(s)
  }

  function NumberOf(t: Bytes): (Token, nat) {
    var n := IntegerLen(t);
    if n == 0 then (TokenInvalid, 0)
    else if n < |t| && IsFraction(t[n]) then (TokenReal, 0)
    else
      var value := IntegerValue(t[..n]);
      if INT_MIN <= value <= INT_MAX then (TokenInteger(value), n) else (TokenInvalid, 0)
  }

  const TRUE: Bytes := [0x74, 0x72, 0x75, 0x65]
  const FALSE: Bytes := [0x66, 0x61, 0x6C, 0x73, 0x65]
  const NULL: Bytes := [0x6E, 0x75, 0x6C, 0x6C]

  function WordOf(w: Bytes): Token {
    if w == TRUE then TokenTrue else if w == FALSE then TokenFalse else if w == NULL then TokenNull else TokenInvalid
  }

  function StringOf(t: Bytes): (Token, nat) {
    match FirstPass(t)
    case None => (TokenInvalid, 0)
    case Some(n) =>
      FirstPassPieces(t);
      match SecondPass(t[..n])
      case None => (TokenInvalid, 0)
      case Some(v) => (TokenString(v), n + 1)
  }

  // The token at the beginning of t and the number of its bytes, where t does not begin with space.
  function BareToken(t: Bytes): (Token, nat)
    requires t != []
  {
    if IsPunct(t[0]) then (TokenPunct(t[0]), 1)
    else if t[0] == QUOTE then
      var (tok, n) := StringOf(t[1..]);
      (tok, n + 1)
    else if IsDigit(t[0]) || t[0] == 0x2D then NumberOf(t)
    else if IsAlpha(t[0]) then (WordOf(t[..Alphas(t)]), Alphas(t))
    else (TokenInvalid, 0)
  }

  // lex_scan: the next token of t and the number of bytes up to its end. After t comes the end of
  // the input if clean, and else something that is no UTF-8.
  function TokenOf(t: Bytes, clean: bool): (Token, nat) {
    var k := Spaces(t);
    if k == |t| then (if clean then TokenEof else TokenInvalid, k)
    else
      var (tok, n) := BareToken(t[k..]);
      (tok, k + n)
  }

  // The tokens after which parsing can go on, and how many bytes they take.
  predicate Proper(tok: Token) {
    !tok.TokenInvalid? && !tok.TokenEof? && !tok.TokenReal?
  }

  lemma TokenInside(t: Bytes, clean: bool)
    ensures var (tok, n) := TokenOf(t, clean); Proper(tok) ==> 0 < n <= |t|
  {
    var k := Spaces(t);
    if k < |t| {
      var u := t[k..];
      if !IsPunct(u[0]) && u[0] == QUOTE && FirstPass(u[1..]).Some? {
        FirstPassPieces(u[1..]);
      }
    }
  }

  // Space before a token.
  lemma SpaceBefore(w: Bytes, t: Bytes, clean: bool)
    requires forall c <- w :: IsSpace(c)
    ensures var (tok, n) := TokenOf(t, clean); TokenOf(w + t, clean) == (tok, |w| + n)
  {
    hide BareToken, Spaces;
    SpacesBefore(w, t);
    var k := Spaces(t);
    assert (w + t)[|w| + k..] == t[k..];
  }

  lemma {:induction false} SpacesBefore(w: Bytes, t: Bytes)
    requires forall c <- w :: IsSpace(c)
    ensures Spaces(w + t) == |w| + Spaces(t)
  {
    if w == [] {
      assert w + t == t;
    } else {
      assert w[0] in w && forall c <- w[1..] :: c in w;
      assert (w + t)[1..] == w[1..] + t;
      SpacesBefore(w[1..], t);
    }
  }
}
