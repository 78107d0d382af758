/**
  Printing JSON strings (common/jansson/dump.c).
  */
module JsonPrinter {
  import opened Options
  import opened Pieces
  import opened Utf
  import opened JsonStrings

  lemma {:induction false} BodyMore(cps: seq<int>, cp: int, style: Style)
    requires AllScalar(cps) && Scalar(cp)
    ensures Body(cps + [cp], style) == Body(cps, style) + CharText(cp, style)
  {
    hide CharText;
    if cps == [] {
      assert [cp][1..] == [];
    } else {
      assert cps[0] in cps && forall c <- cps[1..] :: c in cps;
      assert (cps + [cp])[1..] == cps[1..] + [cp];
      BodyMore(cps[1..], cp, style);
    }
  }

  // What dump_string has done: the characters before pos are printed, except the run from start to
  // pos, which stands for itself.
  ghost predicate Printed(str: Bytes, style: Style, out: Bytes, cps: seq<int>, start: nat, pos: nat) {
    && start <= pos <= |str| && AllScalar(cps)
    && EncodeAll(cps) == str[..pos] && out + str[start..pos] == [QUOTE] + Body(cps, style)
  }

  lemma PrintedPlain(str: Bytes, style: Style, out: Bytes, cps: seq<int>, start: nat, pos: nat, next: nat, cp: int)
    requires Printed(str, style, out, cps, start, pos) && pos < next <= |str|
    requires Scalar(cp) && Encode(cp) == Some(str[pos..next]) && !MustEscape(cp, style)
    ensures Printed(str, style, out, cps + [cp], start, next)
  {
    hide Encode, EncodeAll, Body;
    EncodeAllMore(cps, cp);
    BodyMore(cps, cp, style);
    assert str[..next] == str[..pos] + str[pos..next];
    assert str[start..next] == str[start..pos] + str[pos..next];
    assert out + (str[start..pos] + str[pos..next]) == (out + str[start..pos]) + str[pos..next];
    assert ([QUOTE] + Body(cps, style)) + str[pos..next] == [QUOTE] + (Body(cps, style) + str[pos..next]);
  }

  lemma PrintedEscape(str: Bytes, style: Style, out: Bytes, cps: seq<int>, start: nat, pos: nat, next: nat, cp: int)
    requires Printed(str, style, out, cps, start, pos) && pos < next <= |str|
    requires Scalar(cp) && Encode(cp) == Some(str[pos..next]) && MustEscape(cp, style)
    ensures Printed(str, style, out + str[start..pos] + Escape(cp), cps + [cp], next, next)
  {
    hide Encode, EncodeAll, Body, Escape;
    EncodeAllMore(cps, cp);
    BodyMore(cps, cp, style);
    assert str[..next] == str[..pos] + str[pos..next];
    assert ([QUOTE] + Body(cps, style)) + Escape(cp) == [QUOTE] + (Body(cps, style) + Escape(cp));
    assert str[next..next] == [];
  }

  // A string has one way to be read as characters.
  lemma OneReading(cps: seq<int>, cps': seq<int>)
    requires AllScalar(cps) && AllScalar(cps') && EncodeAll(cps) == EncodeAll(cps')
    ensures cps == cps'
  {
    NextCharacter(cps, cps', EncodeAll(cps));
    NextCharacter(cps', cps, EncodeAll(cps));
  }

  // The characters before the first place of a string where none stands.
  ghost function Leading(str: Bytes): (cps: seq<int>)
    ensures AllScalar(cps) && EncodeAll(cps) <= str && forall c :: !CharacterAt(str, |EncodeAll(cps)|, c)
    decreases |str|
  {
    if exists c :: CharacterAt(str, 0, c) then
      var c :| CharacterAt(str, 0, c);
      var n := |Encode(c).value|;
      var rest := Leading(str[n..]);
      LeadingMore(str, c, rest);
      [c] + rest
    else []
  }

  lemma LeadingMore(str: Bytes, c: int, rest: seq<int>)
    requires CharacterAt(str, 0, c) && AllScalar(rest)
    requires |Encode(c).value| <= |str| && EncodeAll(rest) <= str[|Encode(c).value|..]
    requires forall d :: !CharacterAt(str[|Encode(c).value|..], |EncodeAll(rest)|, d)
    ensures AllScalar([c] + rest) && EncodeAll([c] + rest) <= str
    ensures forall d :: !CharacterAt(str, |EncodeAll([c] + rest)|, d)
  {
    hide Encode;
    var e := Encode(c).value;
    assert ([c] + rest)[1..] == rest && str[0..] == str;
    assert str == e + str[|e|..];
    assert EncodeAll([c] + rest) == e + EncodeAll(rest);
    LaterNone(str, |e|, |EncodeAll(rest)|, |EncodeAll([c] + rest)|);
  }

  lemma LaterNone(str: Bytes, n: nat, k: nat, m: nat)
    requires n + k == m <= |str| && forall d :: !CharacterAt(str[n..], k, d)
    ensures forall d :: !CharacterAt(str, m, d)
  {
    hide CharacterAt;
    forall d
      ensures !CharacterAt(str, m, d)
    {
      Later(str, n, k, d);
    }
  }

  lemma Later(str: Bytes, n: nat, k: nat, c: int)
    requires n + k <= |str|
    ensures CharacterAt(str[n..], k, c) <==> CharacterAt(str, n + k, c)
  {
    hide Encode;
    assert str[n..][k..] == str[n + k..];
  }

  // Characters of a string in order are those.
  lemma {:induction false} LeadingIs(str: Bytes, cps: seq<int>)
    requires AllScalar(cps) && EncodeAll(cps) <= str && forall c :: !CharacterAt(str, |EncodeAll(cps)|, c)
    ensures Leading(str) == cps
    decreases |str|
  {
    hide Encode, EncodeAll, CharacterAt, Leading;
    if cps == [] {
      NoCharacters();
      LeadingNone(str);
    } else {
      FirstStands(str, cps);
      var n := |Encode(cps[0]).value|;
      LeadingStep(str, cps[0]);
      NoneLater(str, n, |EncodeAll(cps[1..])|, |EncodeAll(cps)|);
      LeadingIs(str[n..], cps[1..]);
      assert cps == [cps[0]] + cps[1..];
    }
  }

  lemma LeadingNone(str: Bytes)
    requires forall c :: !CharacterAt(str, 0, c)
    ensures Leading(str) == []
  {
    hide CharacterAt;
  }

  lemma LeadingStep(str: Bytes, d: int)
    requires CharacterAt(str, 0, d)
    ensures Encode(d).Some? && |Encode(d).value| <= |str| && Leading(str) == [d] + Leading(str[|Encode(d).value|..])
  {
    hide Encode, EncodeAll;
    AtCharacter(str, 0, d);
    forall c | CharacterAt(str, 0, c)
      ensures c == d
    {
      OneCharacter(str, c, d);
    }
  }

  lemma NoneLater(str: Bytes, n: nat, k: nat, m: nat)
    requires n + k == m <= |str| && forall d :: !CharacterAt(str, m, d)
    ensures forall d :: !CharacterAt(str[n..], k, d)
  {
    hide CharacterAt;
    forall d
      ensures !CharacterAt(str[n..], k, d)
    {
      Later(str, n, k, d);
    }
  }

  lemma FirstStands(str: Bytes, cps: seq<int>)
    requires AllScalar(cps) && cps != [] && EncodeAll(cps) <= str
    ensures CharacterAt(str, 0, cps[0]) && AllScalar(cps[1..]) && Encode(cps[0]).Some?
    ensures var n := |Encode(cps[0]).value|;
            0 < n <= |str| && EncodeAll(cps[1..]) <= str[n..] && |EncodeAll(cps)| == n + |EncodeAll(cps[1..])|
  {
    hide Encode;
    FirstIs();
    assert cps[0] in cps && forall c <- cps[1..] :: c in cps;
    var e, rest := Encode(cps[0]).value, EncodeAll(cps[1..]);
    assert EncodeAll(cps) == e + rest;
    hide EncodeAll;
    StartsInTwo(str, e, rest);
    assert str[0..] == str;
  }

  lemma StartsInTwo(str: Bytes, e: Bytes, rest: Bytes)
    requires e + rest <= str
    ensures e <= str && rest <= str[|e|..] && |e + rest| == |e| + |rest|
  {
    assert str[..|e + rest|] == e + rest;
    assert str[..|e + rest|][|e|..] == str[|e|..][..|rest|];
  }

  lemma OneCharacter(str: Bytes, c: int, d: int)
    requires CharacterAt(str, 0, c) && CharacterAt(str, 0, d)
    ensures c == d
  {
    hide Encode;
    AtCharacter(str, 0, c);
    AtCharacter(str, 0, d);
    EncodeInjective(c, d);
  }

  // What is printed before the printing of a string fails: the characters up to the last one that is escaped.
  function UpToEscape(cps: seq<int>, style: Style): (r: seq<int>)
    ensures r <= cps
  {
    if cps == [] then []
    else if MustEscape(cps[|cps| - 1], style) then cps
    else UpToEscape(cps[..|cps| - 1], style)
  }

  ghost function CutText(str: Bytes, style: Style): Bytes {
    CutScalar(str, style);
    [QUOTE] + Body(UpToEscape(Leading(str), style), style)
  }

  lemma CutScalar(str: Bytes, style: Style)
    ensures AllScalar(UpToEscape(Leading(str), style))
  {
    var cps := Leading(str);
    assert forall c <- UpToEscape(cps, style) :: c in cps;
  }

  lemma UpToEscapeMore(cps: seq<int>, c: int, style: Style)
    ensures UpToEscape(cps + [c], style) == if MustEscape(c, style) then cps + [c] else UpToEscape(cps, style)
  {
    assert (cps + [c])[..|cps|] == cps;
  }

  // What stands in out before the run from start on.
  ghost predicate Cut(out: Bytes, cps: seq<int>, style: Style) {
    && AllScalar(cps) && AllScalar(UpToEscape(cps, style))
    && out == [QUOTE] + Body(UpToEscape(cps, style), style)
  }

  lemma CutPlain(out: Bytes, cps: seq<int>, style: Style, c: int)
    requires Cut(out, cps, style) && Scalar(c) && !MustEscape(c, style)
    ensures Cut(out, cps + [c], style)
  {
    hide Body;
    UpToEscapeMore(cps, c, style);
  }

  lemma CutEscape(out: Bytes, cps: seq<int>, style: Style, c: int)
    requires AllScalar(cps) && Scalar(c) && MustEscape(c, style) && out == [QUOTE] + Body(cps + [c], style)
    ensures Cut(out, cps + [c], style)
  {
    hide Body;
    UpToEscapeMore(cps, c, style);
  }

  // dump_string: fails exactly for a string that is not valid UTF-8, and has printed some of it then.
  method DumpString(str: Bytes, style: Style) returns (ok: bool, text: Bytes)
    ensures ok <==> Valid(str)
    ensures forall cps: seq<int> :: AllScalar(cps) && EncodeAll(cps) == str ==> text == Quoted(cps, style)
    ensures !ok ==> text == CutText(str, style)
  {
    hide Encode, EncodeAll, Body, Escape, UpToEscape, Cut, CharacterAt;
    var out := [QUOTE];
    var start: nat, pos: nat, end: int := 0, 0, 0;
    ghost var cps: seq<int> := [];
    NothingPrinted(str, style);
    while true
      invariant start == pos == end && Printed(str, style, out, cps, start, pos) && Cut(out, cps, style)
      decreases |str| - pos
    {
      var cp := 0;
      while end < |str|
        invariant pos == end && start <= pos && Printed(str, style, out, cps, start, pos) && Cut(out, cps, style)
        decreases |str| - pos
      {
        end, cp := Iterate(str, pos);
        if end == -1 {
          NotValid(str, cps, pos);
          CutHere(str, style, out, cps, pos);
          return false, out;
        }
        if MustEscape(cp, style) {
          break;
        }
        PrintedPlain(str, style, out, cps, start, pos, end, cp);
        CutPlain(out, cps, style, cp);
        cps := cps + [cp];
        pos := end;
      }
      if end != pos {
        PrintedEscape(str, style, out, cps, start, pos, end, cp);
        EscapedCut(str, style, out + str[start..pos] + Escape(cp), cps, end, cp);
        cps := cps + [cp];
      }
      assert start == pos ==> str[start..pos] == [] && out + [] == out;
      if pos != start {
        out := out + str[start..pos];
      }
      if end == pos {
        break;
      }
      out := out + Escape(cp);
      start, pos := end, end;
    }
    assert str[..pos] == str;
    ok, text := true, out + [QUOTE];
    forall cps': seq<int> | AllScalar(cps') && EncodeAll(cps') == str
      ensures cps' == cps
    {
      OneReading(cps, cps');
    }
  }

  lemma EscapedCut(str: Bytes, style: Style, out: Bytes, cps: seq<int>, next: nat, cp: int)
    requires Printed(str, style, out, cps + [cp], next, next) && Scalar(cp) && MustEscape(cp, style) && AllScalar(cps)
    ensures Cut(out, cps + [cp], style)
  {
    hide Body, UpToEscape, EncodeAll;
    assert out + str[next..next] == out;
    CutEscape(out, cps, style, cp);
  }

  lemma CutHere(str: Bytes, style: Style, out: Bytes, cps: seq<int>, pos: nat)
    requires Cut(out, cps, style) && pos <= |str| && EncodeAll(cps) == str[..pos]
    requires forall c :: !CharacterAt(str, pos, c)
    ensures out == CutText(str, style)
  {
    hide Body, UpToEscape, EncodeAll, CharacterAt;
    LeadingIs(str, cps);
  }

  lemma NothingPrinted(str: Bytes, style: Style)
    ensures Printed(str, style, [QUOTE], [], 0, 0) && Cut([QUOTE], [], style)
  {
    assert str[..0] == [];
    assert [QUOTE] + str[0..0] == [QUOTE] + [];
  }
}
