/**
  UTF-8 (common/jansson/utf.c; RFC 3629).
  */
module Utf {
  import opened Options
  import opened Pieces

  // A code point that is not a UTF-16 surrogate half.
  predicate Scalar(cp: int) {
    0 <= cp <= 0x10FFFF && !(0xD800 <= cp <= 0xDFFF)
  }

  predicate Continuation(u: byte) {
    0x80 <= u <= 0xBF
  }

  // The bits of a code point from bit 6 * n on.
  function Shifted(cp: nat, n: nat): nat {
    if n == 0 then cp else Shifted(cp, n - 1) / 0x40
  }

  // A continuation byte with six bits from bit 6 * n on.
  function Low(cp: nat, n: nat): (u: byte)
    ensures Continuation(u)
  {
    (0x80 + Shifted(cp, n) % 0x40) as byte
  }

  // The first bytes of longer codes.
  lemma LeadFits(cp: nat)
    requires cp <= 0x10FFFF
    ensures cp < 0x800 ==> Shifted(cp, 1) < 0x20
    ensures cp < 0x10000 ==> Shifted(cp, 2) < 0x10
    ensures Shifted(cp, 3) <= 4
  {
    assert Shifted(cp, 1) == cp / 0x40;
    assert Shifted(cp, 2) == cp / 0x40 / 0x40;
    assert Shifted(cp, 3) == cp / 0x40 / 0x40 / 0x40;
  }

  // utf8_encode.
  function Encode(cp: int): (r: Option<Bytes>)
    ensures r.Some? <==> 0 <= cp <= 0x10FFFF
    ensures r.Some? ==> 1 <= |r.value| <= 4
  {
    if cp < 0 then None
    else if cp < 0x80 then Some([cp as byte])
    else if cp <= 0x10FFFF then
      LeadFits(cp);
      if cp < 0x800 then Some([(0xC0 + Shifted(cp, 1)) as byte, Low(cp, 0)])
      else if cp < 0x10000 then Some([(0xE0 + Shifted(cp, 2)) as byte, Low(cp, 1), Low(cp, 0)])
      else Some([(0xF0 + Shifted(cp, 3)) as byte, Low(cp, 2), Low(cp, 1), Low(cp, 0)])
    else None
  }

  // utf8_check_first: the length of the sequence that a byte begins, 0 if it begins none.
  function CheckFirst(u: byte): (n: nat)
    ensures n <= 4
  {
    if u < 0x80 then 1
    else if u <= 0xC1 then 0
    else if u <= 0xDF then 2
    else if u <= 0xEF then 3
    else if u <= 0xF4 then 4
    else 0
  }

  // What utf8_check_full computes from the first i bytes of a sequence.
  function Gathered(s: Bytes, i: nat): nat
    requires 1 <= i <= |s| && 2 <= |s| <= 4
  {
    if i == 1 then s[0] as int % (if |s| == 2 then 0x20 else if |s| == 3 then 0x10 else 0x8)
    else Gathered(s, i - 1) * 0x40 + s[i - 1] as int % 0x40
  }

  // utf8_check_full on a whole sequence: the code point, or -1.
  method CheckFull(s: Bytes) returns (cp: int)
    requires s != [] && |s| == CheckFirst(s[0]) && |s| > 1
    ensures cp == -1 || (Scalar(cp) && Encode(cp) == Some(s))
    ensures forall c :: Scalar(c) && Encode(c) == Some(s) ==> cp == c
  {
    var value := s[0] as int % (if |s| == 2 then 0x20 else if |s| == 3 then 0x10 else 0x8);
    for i := 1 to |s|
      invariant value == Gathered(s, i)
      invariant forall j :: 1 <= j < i ==> Continuation(s[j])
    {
      if !Continuation(s[i]) {
        NotEncoded(s, i);
        return -1;
      }
      value := value * 0x40 + s[i] as int % 0x40;
    }
    GatheredDecodes(s);
    if value > 0x10FFFF {
      return -1;
    }
    if 0xD800 <= value <= 0xDFFF {
      return -1;
    }
    if (|s| == 2 && value < 0x80) || (|s| == 3 && value < 0x800) || (|s| == 4 && value < 0x10000) {
      return -1;
    }
    cp := value;
  }

  lemma NotEncoded(s: Bytes, i: nat)
    requires 1 <= i < |s| && !Continuation(s[i])
    ensures forall c :: Encode(c) != Some(s)
  {
  }

  lemma Digit(q: nat, u: byte)
    requires Continuation(u)
    ensures var v := q * 0x40 + u as int % 0x40; v / 0x40 == q && 0x80 + v % 0x40 == u as int
  {
  }

  // Two numbers with the same digits are the same.
  lemma SameDigits(c: nat, v: nat)
    requires c / 0x40 == v / 0x40 && c % 0x40 == v % 0x40
    ensures c == v
  {
  }

  predicate Sequence(s: Bytes) {
    s != [] && |s| == CheckFirst(s[0]) && |s| > 1 && forall j :: 1 <= j < |s| ==> Continuation(s[j])
  }

  // The digits of what is gathered are those in the bytes.
  lemma {:induction false} DigitsGathered(s: Bytes, k: nat)
    requires Sequence(s) && k < |s|
    ensures Shifted(Gathered(s, |s|), k) == Gathered(s, |s| - k)
    ensures k < |s| - 1 ==> Low(Gathered(s, |s|), k) == s[|s| - 1 - k]
  {
    if k > 0 {
      DigitsGathered(s, k - 1);
      Digit(Gathered(s, |s| - k), s[|s| - k]);
    }
    if k < |s| - 1 {
      Digit(Gathered(s, |s| - k - 1), s[|s| - 1 - k]);
    }
  }

  // A code point with these digits is what is gathered.
  lemma {:induction false} SameGathered(s: Bytes, c: nat, k: nat)
    requires Sequence(s) && k < |s| && Shifted(c, |s| - 1) == Gathered(s, 1)
    requires forall j :: 0 <= j < |s| - 1 ==> Low(c, j) == s[|s| - 1 - j]
    ensures Shifted(c, k) == Gathered(s, |s| - k)
    decreases |s| - k
  {
    if k < |s| - 1 {
      SameGathered(s, c, k + 1);
      assert Low(c, k) == s[|s| - 1 - k];
      Digit(Gathered(s, |s| - k - 1), s[|s| - 1 - k]);
      SameDigits(Shifted(c, k), Gathered(s, |s| - k));
    }
  }

  // The least code point that needs n bytes, and the first byte without its digits.
  function Least(n: nat): nat {
    if n <= 1 then 0 else if n == 2 then 0x80 else if n == 3 then 0x800 else 0x10000
  }

  function Mark(n: nat): nat {
    if n <= 1 then 0 else if n == 2 then 0xC0 else if n == 3 then 0xE0 else 0xF0
  }

  lemma GatheredBounds(s: Bytes)
    requires Sequence(s)
    ensures Gathered(s, 1) == s[0] as int - Mark(|s|)
    ensures |s| < 4 ==> Gathered(s, |s|) < Least(|s| + 1)
  {
    assert |s| > 2 ==> Gathered(s, 2) < (Gathered(s, 1) + 1) * 0x40;
  }

  // What a code of n bytes looks like.
  lemma EncodeIs(c: int, s: Bytes)
    requires 2 <= |s| <= 4
    ensures Encode(c) == Some(s) <==>
              && Least(|s|) <= c <= 0x10FFFF && (|s| < 4 ==> c < Least(|s| + 1))
              && Mark(|s|) + Shifted(c, |s| - 1) == s[0] as int
              && forall j :: 0 <= j < |s| - 1 ==> Low(c, j) == s[|s| - 1 - j]
  {
    if 0x80 <= c <= 0x10FFFF {
      LeadFits(c);
      hide Shifted, Low;
      match |s|
      case 2 =>
        assert s == [s[0], s[1]];
        assert (forall j :: 0 <= j < 1 ==> Low(c, j) == s[1 - j]) <==> Low(c, 0) == s[1];
      case 3 =>
        assert s == [s[0], s[1], s[2]];
        assert (forall j :: 0 <= j < 2 ==> Low(c, j) == s[2 - j]) <==> Low(c, 0) == s[2] && Low(c, 1) == s[1];
      case _ =>
        assert s == [s[0], s[1], s[2], s[3]];
        assert (forall j :: 0 <= j < 3 ==> Low(c, j) == s[3 - j])
          <==> Low(c, 0) == s[3] && Low(c, 1) == s[2] && Low(c, 2) == s[1];
    }
  }

  // A code of each length: a slash, a letter with an accent, the sign of the euro and a clef.
  lemma KnownCodes()
    ensures Encode(0x2F) == Some([0x2F]) && Encode(0xE9) == Some([0xC3, 0xA9]) && Encode(0x20AC) == Some([0xE2, 0x82, 0xAC])
    ensures Encode(0x1D11E) == Some([0xF0, 0x9D, 0x84, 0x9E])
  {
    assert Shifted(0x20AC, 1) == 0x82 && Shifted(0x20AC, 2) == 2;
    assert Shifted(0x1D11E, 1) == 0x744 && Shifted(0x1D11E, 2) == 0x1D && Shifted(0x1D11E, 3) == 0;
  }

  // The bytes of a sequence are the code of what is gathered from them, unless that is too large
  // or too small for its length; and of nothing else.
  lemma GatheredDecodes(s: Bytes)
    requires Sequence(s)
    ensures var value := Gathered(s, |s|);
            && (forall c :: Encode(c) == Some(s) ==> c == value)
            && (Encode(value) == Some(s) <==> Least(|s|) <= value <= 0x10FFFF)
  {
    hide Encode;
    var value := Gathered(s, |s|);
    GatheredBounds(s);
    EncodeIs(value, s);
    forall j | 0 <= j < |s|
      ensures Shifted(value, j) == Gathered(s, |s| - j) && (j < |s| - 1 ==> Low(value, j) == s[|s| - 1 - j])
    {
      DigitsGathered(s, j);
    }
    hide Gathered, Shifted, Low;
    forall c | Encode(c) == Some(s)
      ensures c == value
    {
      EncodeIs(c, s);
      SameGathered(s, c, 0);
      NotShifted(c);
    }
  }

  lemma NotShifted(c: nat)
    ensures Shifted(c, 0) == c
  {
  }

  // The character of a code point stands at pos.
  predicate CharacterAt(s: Bytes, pos: nat, c: int)
    requires pos <= |s|
  {
    Scalar(c) && Encode(c).value <= s[pos..]
  }

  // The first byte says how many bytes the character at pos has.
  lemma AtCharacter(s: Bytes, pos: nat, c: int)
    requires pos <= |s| && CharacterAt(s, pos, c)
    ensures pos < |s| && var n := CheckFirst(s[pos]); 0 < n <= |s| - pos && Encode(c) == Some(s[pos..pos + n])
  {
    hide Encode, CheckFirst;
    FirstIs();
    var e := Encode(c).value;
    assert e[0] == s[pos..][0] == s[pos];
    assert e == s[pos..][..|e|] == s[pos..pos + |e|];
  }

  // Why there is no character at pos.
  lemma NoCharacter(s: Bytes, pos: nat)
    requires pos < |s|
    requires var n := CheckFirst(s[pos]);
             n == 0 || n > |s| - pos || forall c :: Scalar(c) ==> Encode(c) != Some(s[pos..pos + n])
    ensures forall c :: !CharacterAt(s, pos, c)
  {
    hide Encode, CheckFirst;
    forall c
      ensures !CharacterAt(s, pos, c)
    {
      if CharacterAt(s, pos, c) {
        AtCharacter(s, pos, c);
      }
    }
  }

  // utf8_iterate: the place after the character at pos and its code point, or -1 if there is none.
  method Iterate(s: Bytes, pos: nat) returns (next: int, cp: int)
    requires pos < |s|
    ensures next == -1 || (pos < next <= |s| && Scalar(cp) && Encode(cp) == Some(s[pos..next]))
    ensures next == -1 ==> forall c :: !CharacterAt(s, pos, c)
  {
    hide Encode;
    var count := CheckFirst(s[pos]);
    if count == 0 {
      NoCharacter(s, pos);
      return -1, 0;
    }
    if count == 1 {
      assert s[pos..pos + 1] == [s[pos]];
      OneByte(s[pos]);
      cp := s[pos] as int;
    } else {
      if count > |s| - pos {
        NoCharacter(s, pos);
        return -1, 0;
      }
      cp := CheckFull(s[pos..pos + count]);
      if cp == -1 {
        NoCharacter(s, pos);
        return -1, 0;
      }
    }
    next := pos + count;
  }

  // The first byte of a code says how long it is.
  lemma FirstIs()
    ensures forall c :: Scalar(c) ==> Encode(c).Some? && Encode(c).value != []
                                      && CheckFirst(Encode(c).value[0]) == |Encode(c).value|
  {
    forall c | Scalar(c)
      ensures CheckFirst(Encode(c).value[0]) == |Encode(c).value|
    {
      LeadFits(c);
      LeadLarge(c);
    }
  }

  // No code of two bytes begins with C0 or C1, and none of four with more than F4.
  lemma LeadLarge(c: nat)
    requires c <= 0x10FFFF
    ensures c >= 0x80 ==> Shifted(c, 1) >= 2
  {
    assert Shifted(c, 1) == c / 0x40;
  }

  lemma OneByte(u: byte)
    requires u < 0x80
    ensures Encode(u as int) == Some([u]) && Scalar(u as int)
  {
  }

  predicate AllScalar(cps: seq<int>) {
    forall c <- cps :: Scalar(c)
  }

  // A string of code points.
  function EncodeAll(cps: seq<int>): Bytes
    requires AllScalar(cps)
  {
    if cps == [] then []
    else
      assert cps[0] in cps && Scalar(cps[0]);
      Encode(cps[0]).value + EncodeAll(cps[1..])
  }

  // Valid UTF-8: the codes of code points, none of them a surrogate half, one after the other.
  ghost predicate Valid(s: Bytes) {
    exists cps: seq<int> :: AllScalar(cps) && EncodeAll(cps) == s
  }

  lemma {:induction false} EncodeAllMore(cps: seq<int>, c: int)
    requires AllScalar(cps) && Scalar(c)
    ensures EncodeAll(cps + [c]) == EncodeAll(cps) + Encode(c).value
  {
    if cps == [] {
      assert [c][1..] == [];
    } else {
      assert (cps + [c])[1..] == cps[1..] + [c];
      EncodeAllMore(cps[1..], c);
    }
  }

  lemma {:induction false} EncodeJoin(a: seq<int>, b: seq<int>)
    requires AllScalar(a) && AllScalar(b)
    ensures AllScalar(a + b) && EncodeAll(a + b) == EncodeAll(a) + EncodeAll(b)
  {
    hide Encode;
    if b == [] {
      assert a + b == a;
    } else {
      var c, front := b[|b| - 1], b[..|b| - 1];
      assert c in b && forall x <- front :: x in b;
      EncodeJoin(a, front);
      assert b == front + [c] && a + b == (a + front) + [c];
      EncodeAllMore(front, c);
      EncodeAllMore(a + front, c);
    }
  }

  // A code is no beginning of another one, so what follows valid characters is a character.
  lemma {:induction false} NextCharacter(cps: seq<int>, done: seq<int>, s: Bytes)
    requires AllScalar(cps) && AllScalar(done)
    requires EncodeAll(cps) == s && EncodeAll(done) <= s
    ensures done <= cps
  {
    hide Encode;
    if done != [] {
      FirstIs();
      var a, b := Encode(done[0]).value, EncodeAll(done[1..]);
      assert cps != [];
      var x, y := Encode(cps[0]).value, EncodeAll(cps[1..]);
      assert a[0] == s[0] == x[0];
      assert a == s[..|a|] == x;
      EncodeInjective(done[0], cps[0]);
      assert b <= y by {
        assert s[|a|..] == y && EncodeAll(done)[|a|..] == b;
      }
      NextCharacter(cps[1..], done[1..], y);
      assert cps == [cps[0]] + cps[1..] && done == [done[0]] + done[1..];
    }
  }

  lemma EncodeInjective(c: int, d: int)
    requires Scalar(c) && Scalar(d) && Encode(c) == Encode(d)
    ensures c == d
  {
    var s := Encode(c).value;
    if |s| > 1 {
      LeadFits(c);
      LeadLarge(c);
      assert forall j :: 1 <= j < |s| ==> Continuation(s[j]);
      GatheredDecodes(s);
    }
  }

  // utf8_check_string: accepts the strings of valid UTF-8 and no others.
  method CheckString(s: Bytes) returns (ok: bool)
    ensures ok <==> Valid(s)
  {
    hide Encode, EncodeAll;
    ghost var cps: seq<int> := [];
    var i := 0;
    NoCharacters();
    while i < |s|
      invariant i <= |s| && AllScalar(cps) && EncodeAll(cps) == s[..i]
    {
      var count := CheckFirst(s[i]);
      var cp: int := s[i] as int;
      if count == 0 {
        NoCharacter(s, i);
        NotValid(s, cps, i);
        return false;
      } else if count > 1 {
        if count > |s| - i {
          NoCharacter(s, i);
          NotValid(s, cps, i);
          return false;
        }
        cp := CheckFull(s[i..i + count]);
        if cp == -1 {
          NoCharacter(s, i);
          NotValid(s, cps, i);
          return false;
        }
      } else {
        OneByte(s[i]);
        assert s[i..i + 1] == [s[i]];
      }
      EncodeAllMore(cps, cp);
      assert s[..i + count] == s[..i] + s[i..i + count];
      cps := cps + [cp];
      i := i + count;
    }
    assert s[..i] == s;
    ok := true;
  }

  lemma NoCharacters()
    ensures EncodeAll([]) == []
  {
  }

  // Behind the first characters of a valid string stands another one.
  lemma OneMoreCharacter(s: Bytes, cps: seq<int>, done: seq<int>)
    requires AllScalar(cps) && AllScalar(done)
    requires EncodeAll(cps) == s && EncodeAll(done) <= s && |EncodeAll(done)| < |s|
    ensures |done| < |cps| && CharacterAt(s, |EncodeAll(done)|, cps[|done|])
  {
    hide Encode, EncodeAll;
    NextCharacter(cps, done, s);
    var k := |done|;
    assert k == |cps| ==> done == cps;
    assert cps[k] in cps;
    EncodeAllMore(done, cps[k]);
    assert done + [cps[k]] <= cps;
    EncodeAllPrefix(cps, done + [cps[k]]);
  }

  lemma NotValid(s: Bytes, done: seq<int>, i: nat)
    requires i < |s| && AllScalar(done) && EncodeAll(done) == s[..i]
    requires forall c :: !CharacterAt(s, i, c)
    ensures !Valid(s)
  {
    hide Encode, EncodeAll, CharacterAt;
    if Valid(s) {
      var cps: seq<int> :| AllScalar(cps) && EncodeAll(cps) == s;
      OneMoreCharacter(s, cps, done);
    }
  }

  lemma {:induction false} EncodeAllPrefix(cps: seq<int>, front: seq<int>)
    requires AllScalar(cps) && front <= cps
    ensures AllScalar(front) && EncodeAll(front) <= EncodeAll(cps)
  {
    assert forall c <- front :: c in cps;
    if front != [] {
      EncodeAllPrefix(cps[1..], front[1..]);
    }
  }
}
