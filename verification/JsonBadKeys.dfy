/**
  What becomes of objects with keys that are not valid UTF-8, which json_object_set_new_nocheck lets in: do_dump
  goes on after dump_string has failed for a key (common/jansson/dump.c).
  */
module JsonBadKeys {
  import opened Options
  import opened Pieces
  import opened Utf
  import opened JsonStrings
  import opened JsonTokens
  import opened JsonValues
  import opened JsonGrammar
  import JsonPrinter
  import R = JsonRoundTrip

  // What is printed of a key that is a byte which begins no character.
  lemma LoneByteText(b: byte, style: Style)
    requires CheckFirst(b) == 0
    ensures !Valid([b]) && StringText([b], style) == [QUOTE]
  {
    NoCharacter([b], 0);
    NoCharacters();
    assert [b][..0] == [];
    NotValid([b], [], 0);
    JsonPrinter.LeadingIs([b], []);
    assert [QUOTE] + [] == [QUOTE];
  }

  // Printable characters of ASCII that no style escapes.
  predicate Plain(s: Bytes) {
    forall c <- s :: 0x20 <= c < 0x80 && c != QUOTE && c != BACKSLASH && c != SLASH
  }

  lemma PlainText(s: Bytes, style: Style)
    requires Plain(s)
    ensures Valid(s) && StringText(s, style) == [QUOTE] + s + [QUOTE]
  {
    hide Body, EncodeAll, StringText;
    var cps := seq(|s|, i requires 0 <= i < |s| => s[i] as int);
    PlainBody(s, cps, style);
    StringTextIs(cps, style);
  }

  lemma {:induction false} PlainBody(s: Bytes, cps: seq<int>, style: Style)
    requires Plain(s) && |cps| == |s| && forall i :: 0 <= i < |s| ==> cps[i] == s[i] as int
    ensures AllScalar(cps) && EncodeAll(cps) == s && Body(cps, style) == s
  {
    if s != [] {
      assert s[0] in s && forall c <- s[1..] :: c in s;
      PlainBody(s[1..], cps[1..], style);
      OneByte(s[0]);
      assert s == [s[0]] + s[1..];
    }
  }

  // A string without its closing quote.
  lemma {:induction false} Unclosed(t: Bytes)
    requires Plain(t)
    ensures FirstPass(t) == None
  {
    if t != [] {
      assert t[0] in t && forall c <- t[1..] :: c in t;
      Unclosed(t[1..]);
    }
  }

  lemma NextUnclosed(t: Bytes, clean: bool)
    requires Plain(t)
    ensures Next([QUOTE] + t, clean) == (TokenInvalid, [])
  {
    Unclosed(t);
    hide FirstPass, Plain;
    var u := [QUOTE] + t;
    assert u[1..] == t && u[0..] == u;
    assert Spaces(u) == 0;
  }

  lemma UnclosedKey(t: Bytes, clean: bool, flags: Flags)
    requires Plain(t)
    ensures DocumentOf([OPEN_OBJECT] + ([QUOTE] + t), clean, flags) == Refused
  {
    hide Next, Plain, ArrayOf, ElementsOf;
    var u := [QUOTE] + t;
    NextUnclosed(t, clean);
    R.NextPunct([], OPEN_OBJECT, u, clean);
    assert [] + ([OPEN_OBJECT] + u) == [OPEN_OBJECT] + u;
    assert MembersOf(TokenInvalid, [], clean, flags, 1, []) == Refused;
    assert ObjectOf(u, clean, flags, 1) == Refused;
  }

  // On one line without blanks.
  predicate Dense(f: Format) {
    f.compact && f.indent == 0
  }

  lemma LastMember(v: Json, f: Format, i: nat)
    requires v.JObject? && Printable(v) && Dense(f) && i + 1 == |v.members| && v.members[i].value == JNull
    ensures MembersText(v, f, 0, i) == StringText(v.members[i].key, f.style) + [COLON] + NULL + [CLOSE_OBJECT]
  {
    hide StringText;
    var k := StringText(v.members[i].key, f.style);
    assert MembersText(v, f, 0, i + 1) == [];
    assert Behind(f, 0, true, CLOSE_OBJECT) == [CLOSE_OBJECT];
    assert k + ([COLON] + (NULL + ([CLOSE_OBJECT] + []))) == k + [COLON] + NULL + [CLOSE_OBJECT];
  }

  lemma MemberBefore(v: Json, f: Format, i: nat)
    requires v.JObject? && Printable(v) && Dense(f) && i + 1 < |v.members| && v.members[i].value == JNull
    ensures MembersText(v, f, 0, i) ==
            StringText(v.members[i].key, f.style) + [COLON] + NULL + [COMMA] + MembersText(v, f, 0, i + 1)
  {
    hide StringText;
    var k, r := StringText(v.members[i].key, f.style), MembersText(v, f, 0, i + 1);
    assert Behind(f, 0, false, CLOSE_OBJECT) == [COMMA];
    assert k + ([COLON] + (NULL + ([COMMA] + r))) == k + [COLON] + NULL + [COMMA] + r;
  }

  lemma ObjectText(v: Json, f: Format)
    requires v.JObject? && Printable(v) && Dense(f) && v.members != []
    ensures Text(v, f, 0) == [OPEN_OBJECT] + MembersText(v, f, 0, 0)
  {
    hide MembersText;
    assert [] + MembersText(v, f, 0, 0) == MembersText(v, f, 0, 0);
  }

  lemma OneKeyText(key: Bytes, f: Format)
    requires Dense(f)
    ensures var v := JObject([Member(key, JNull)]);
            Printable(v) && Text(v, f, 0) == [OPEN_OBJECT] + StringText(key, f.style) + [COLON] + NULL + [CLOSE_OBJECT]
  {
    hide StringText, Text, MembersText;
    var v := JObject([Member(key, JNull)]);
    LastMember(v, f, 0);
    ObjectText(v, f);
  }

  lemma TwoKeysText(key: Bytes, key': Bytes, f: Format)
    requires Dense(f)
    ensures var v := JObject([Member(key, JNull), Member(key', JNull)]);
            && Printable(v)
            && Text(v, f, 0) == [OPEN_OBJECT] + (StringText(key, f.style) + [COLON] + NULL + [COMMA]
                                                 + (StringText(key', f.style) + [COLON] + NULL + [CLOSE_OBJECT]))
  {
    hide StringText, Text, MembersText;
    var v := JObject([Member(key, JNull), Member(key', JNull)]);
    LastMember(v, f, 1);
    MemberBefore(v, f, 0);
    ObjectText(v, f);
  }

  // The text of an object whose one key is a byte that is no UTF-8: the parser refuses it, whatever the flags.
  lemma BadKeyText(f: Format, clean: bool, flags: Flags)
    requires f.compact && f.indent == 0
    ensures var v := JObject([Member([0xFF], JNull)]);
            && Text(v, f, 0) == [OPEN_OBJECT, QUOTE, COLON] + NULL + [CLOSE_OBJECT]
            && DocumentOf(Text(v, f, 0), clean, flags) == Refused
  {
    hide Text, StringText, DocumentOf;
    LoneByteText(0xFF, f.style);
    OneKeyText([0xFF], f);
    var t := [COLON] + NULL + [CLOSE_OBJECT];
    UnclosedKey(t, clean, flags);
    assert [OPEN_OBJECT] + ([QUOTE] + t) == [OPEN_OBJECT, QUOTE, COLON] + NULL + [CLOSE_OBJECT];
  }

  // The text of an object with two such keys is that of an object with one key, which the parser makes of it.
  lemma BadKeysText(f: Format, flags: Flags)
    requires f.compact && f.indent == 0
    ensures var v, w := JObject([Member([0xFF], JNull), Member([0xFE], JNull)]),
                        JObject([Member([COLON] + NULL + [COMMA], JNull)]);
            && v != w && Text(v, f, 0) == Text(w, f, 0)
            && DocumentOf(Text(v, f, 0), true, flags) == if flags.maxDepth > 1 then Parsed(w, []) else Refused
  {
    hide Text, StringText, DocumentOf, Valid;
    var key := [COLON] + NULL + [COMMA];
    LoneByteText(0xFF, f.style);
    LoneByteText(0xFE, f.style);
    PlainText(key, f.style);
    TwoKeysText([0xFF], [0xFE], f);
    OneKeyText(key, f);
    var q, n := [QUOTE], [COLON] + NULL;
    assert [OPEN_OBJECT] + (q + [COLON] + NULL + [COMMA] + (q + [COLON] + NULL + [CLOSE_OBJECT]))
        == [OPEN_OBJECT] + (q + key + q) + [COLON] + NULL + [CLOSE_OBJECT];
    OneKeyAccepted(key, flags);
    R.DocumentBack(JObject([Member(key, JNull)]), f, flags);
  }

  lemma OneKeyAccepted(key: Bytes, flags: Flags)
    ensures R.Acceptable(JObject([Member(key, JNull)]), flags, 0) <==> flags.maxDepth > 1
  {
    assert JObject([Member(key, JNull)]).members[0].value == JNull;
  }
}
