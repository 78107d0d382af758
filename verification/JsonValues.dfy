/**
  JSON values and their text (common/jansson/dump.c; sections 2 to 6 of RFC 8259). Reals are left
  out. An object lists its members in the order in which they are printed.
  */
module JsonValues {
  import opened Pieces
  import opened Utf
  import opened JsonStrings
  import opened JsonTokens
  import JsonPrinter

  datatype Json =
    | JNull
    | JTrue
    | JFalse
    | JInteger(value: int)
    | JString(text: Bytes)
    | JArray(elems: seq<Json>)
    | JObject(members: seq<Member>)

  datatype Member = Member(key: Bytes, value: Json)

  // The dump flags for the layout of a text; an indent of 0 puts everything on one line.
  datatype Format = Format(indent: nat, compact: bool, style: Style)

  const OPEN_ARRAY: byte := 0x5B
  const CLOSE_ARRAY: byte := 0x5D
  const OPEN_OBJECT: byte := 0x7B
  const CLOSE_OBJECT: byte := 0x7D
  const COLON: byte := 0x3A
  const COMMA: byte := 0x2C

  function Blanks(n: nat): (s: Bytes)
    ensures |s| == n
  {
    seq(n, _ => 0x20)
  }

  // What dump_indent prints.
  function Indent(f: Format, depth: nat, space: bool): (s: Bytes)
    ensures forall c <- s :: IsSpace(c)
  {
    if f.indent > 0 then [0x0A] + Blanks(depth * f.indent)
    else if space && !f.compact then [0x20]
    else []
  }

  function Separator(f: Format): (s: Bytes) {
    if f.compact then [COLON] else [COLON, 0x20]
  }

  // snprintf with %lld.
  function DecimalText(n: nat): (s: Bytes)
    ensures s != [] && forall c <- s :: IsDigit(c)
    ensures s[0] == 0x30 ==> n == 0 && |s| == 1
  {
    if n < 10 then [(0x30 + n) as byte] else DecimalText(n / 10) + [(0x30 + n % 10) as byte]
  }

  function IntegerText(i: int): (s: Bytes)
    ensures s != []
  {
    if i < 0 then [0x2D] + DecimalText(-i) else DecimalText(i)
  }

  // All strings are valid UTF-8. The keys of objects need not be.
  ghost predicate Printable(v: Json) {
    match v
    case JString(text) => Valid(text)
    case JArray(elems) => forall i :: 0 <= i < |elems| ==> Printable(elems[i])
    case JObject(members) => forall i :: 0 <= i < |members| ==> Printable(members[i].value)
    case _ => true
  }

  // All keys are valid UTF-8.
  ghost predicate KeysValid(v: Json) {
    match v
    case JArray(elems) => forall i :: 0 <= i < |elems| ==> KeysValid(elems[i])
    case JObject(members) => forall i :: 0 <= i < |members| ==> Valid(members[i].key) && KeysValid(members[i].value)
    case _ => true
  }

  // What is printed of a string: all of it with its quotes if it is valid, else its beginning.
  ghost function StringText(s: Bytes, style: Style): Bytes {
    if Valid(s) then
      var cps: seq<int> :| AllScalar(cps) && EncodeAll(cps) == s;
      Quoted(cps, style)
    else
      JsonPrinter.CutText(s, style)
  }

  // The text of a value at some depth.
  ghost function Text(v: Json, f: Format, depth: nat): Bytes
    requires Printable(v)
    decreases v, 1, 0
  {
    match v
    case JNull => NULL
    case JTrue => TRUE
    case JFalse => FALSE
    case JInteger(value) => IntegerText(value)
    case JString(text) => StringText(text, f.style)
    case JArray(elems) =>
      [OPEN_ARRAY] + if elems == [] then [CLOSE_ARRAY] else Indent(f, depth + 1, false) + ElemsText(v, f, depth, 0)
    case JObject(members) =>
      [OPEN_OBJECT] + if members == [] then [CLOSE_OBJECT] else Indent(f, depth + 1, false) + MembersText(v, f, depth, 0)
  }

  // What is behind an element or a member: a comma, or the end.
  function Behind(f: Format, depth: nat, last: bool, close: byte): (s: Bytes)
    ensures s != []
  {
    if last then Indent(f, depth, false) + [close] else [COMMA] + Indent(f, depth + 1, true)
  }

  // The text of an array from element i on.
  ghost function ElemsText(v: Json, f: Format, depth: nat, i: nat): Bytes
    requires v.JArray? && Printable(v) && i <= |v.elems|
    decreases v, 0, |v.elems| - i
  {
    if i == |v.elems| then []
    else
      Text(v.elems[i], f, depth + 1) + (Behind(f, depth, i + 1 == |v.elems|, CLOSE_ARRAY) + ElemsText(v, f, depth, i + 1))
  }

  ghost function MembersText(v: Json, f: Format, depth: nat, i: nat): Bytes
    requires v.JObject? && Printable(v) && i <= |v.members|
    decreases v, 0, |v.members| - i
  {
    if i == |v.members| then []
    else
      var m := v.members[i];
      StringText(m.key, f.style) + (Separator(f) + (Text(m.value, f, depth + 1)
        + (Behind(f, depth, i + 1 == |v.members|, CLOSE_OBJECT) + MembersText(v, f, depth, i + 1))))
  }

  // There is one way to read a string, so one way to print it.
  lemma StringTextIs(cps: seq<int>, style: Style)
    requires AllScalar(cps)
    ensures Valid(EncodeAll(cps)) && StringText(EncodeAll(cps), style) == Quoted(cps, style)
  {
    var cps': seq<int> :| AllScalar(cps') && EncodeAll(cps') == EncodeAll(cps)
      && StringText(EncodeAll(cps), style) == Quoted(cps', style);
    JsonPrinter.OneReading(cps, cps');
  }
}
