/**
  JSON texts and what they mean, by the rules of RFC 8259 (sections 2 to 7): a text is what a tree of its parts
  spells, with space wherever the rules allow it. Numbers are integers.
  */
module JsonTexts {
  import opened Options
  import opened Pieces
  import opened Utf
  import opened JsonValues
  import G = JsonGrammar

  // One character of a string: as itself, after a backslash, or by the number of a character or of two
  // surrogates.
  datatype Spelling = Raw(cp: int) | Short(c: byte) | Hex(digits: Bytes) | Pair(high: Bytes, low: Bytes)

  // A text in its parts. An item is a value between two spaces, and an entry is a key between two spaces, and an
  // item.
  datatype Tree =
    | Word(value: Json)
    | Number(minus: bool, digits: Bytes)
    | Quote(chars: seq<Spelling>)
    | List(space: Bytes, items: seq<Item>)
    | Table(space: Bytes, entries: seq<Entry>)

  datatype Item = Item(before: Bytes, tree: Tree, after: Bytes)

  datatype Entry = Entry(before: Bytes, key: seq<Spelling>, after: Bytes, item: Item)

  // Space, horizontal tab, line feed and carriage return.
  predicate AllSpace(w: Bytes) {
    forall c <- w :: c == 0x20 || c == 0x09 || c == 0x0A || c == 0x0D
  }

  predicate AllDigits(ds: Bytes) {
    forall i :: 0 <= i < |ds| ==> 0x30 <= ds[i] <= 0x39
  }

  // What the letters after a backslash stand for: " \ / and b f n r t.
  function Named(c: byte): Option<int> {
    if c == 0x22 then Some(0x22)
    else if c == 0x5C then Some(0x5C)
    else if c == 0x2F then Some(0x2F)
    else if c == 0x62 then Some(0x08)
    else if c == 0x66 then Some(0x0C)
    else if c == 0x6E then Some(0x0A)
    else if c == 0x72 then Some(0x0D)
    else if c == 0x74 then Some(0x09)
    else None
  }

  // A hexadecimal digit of either case.
  function Nibble(c: byte): Option<nat> {
    if 0x30 <= c <= 0x39 then Some(c as nat - 0x30)
    else if 0x41 <= c <= 0x46 then Some(c as nat - 0x37)
    else if 0x61 <= c <= 0x66 then Some(c as nat - 0x57)
    else None
  }

  predicate FourDigits(s: Bytes) {
    |s| == 4 && Nibble(s[0]).Some? && Nibble(s[1]).Some? && Nibble(s[2]).Some? && Nibble(s[3]).Some?
  }

  function Unit(s: Bytes): nat
    requires FourDigits(s)
  {
    Nibble(s[0]).value * 0x1000 + Nibble(s[1]).value * 0x100 + Nibble(s[2]).value * 0x10 + Nibble(s[3]).value
  }

  // A raw character is no control character, quotation mark or backslash, and a surrogate comes with its other one.
  predicate Spelled(p: Spelling) {
    match p
    case Raw(cp) => Scalar(cp) && cp >= 0x20 && cp != 0x22 && cp != 0x5C
    case Short(c) => Named(c).Some?
    case Hex(ds) => FourDigits(ds) && !(0xD800 <= Unit(ds) <= 0xDFFF)
    case Pair(h, l) => FourDigits(h) && FourDigits(l) && 0xD800 <= Unit(h) <= 0xDBFF && 0xDC00 <= Unit(l) <= 0xDFFF
  }

  function Meant(p: Spelling): int
    requires Spelled(p)
  {
    match p
    case Raw(cp) => cp
    case Short(c) => Named(c).value
    case Hex(ds) => Unit(ds)
    case Pair(h, l) => 0x10000 + (Unit(h) - 0xD800) * 0x400 + (Unit(l) - 0xDC00)
  }

  function Letters(p: Spelling): Bytes
    requires Spelled(p)
  {
    match p
    case Raw(cp) => Encode(cp).value
    case Short(c) => [0x5C, c]
    case Hex(ds) => [0x5C, 0x75] + ds
    case Pair(h, l) => [0x5C, 0x75] + h + [0x5C, 0x75] + l
  }

  predicate AllSpelled(ps: seq<Spelling>) {
    forall p <- ps :: Spelled(p)
  }

  // The bytes between the quotation marks, and the string that they stand for.
  function Inner(ps: seq<Spelling>): Bytes
    requires AllSpelled(ps)
  {
    if ps == [] then []
    else
      assert ps[0] in ps;
      Letters(ps[0]) + Inner(ps[1..])
  }

  function Content(ps: seq<Spelling>): Bytes
    requires AllSpelled(ps)
  {
    if ps == [] then []
    else
      assert ps[0] in ps;
      MeantScalar(ps[0]);
      Encode(Meant(ps[0])).value + Content(ps[1..])
  }

  lemma MeantScalar(p: Spelling)
    requires Spelled(p)
    ensures Scalar(Meant(p))
  {
  }

  function Numeral(ds: Bytes): nat
    requires AllDigits(ds)
  {
    if ds == [] then 0
    else
      Numeral(ds[..|ds| - 1]) * 10 + (ds[|ds| - 1] as nat - 0x30)
  }

  function Signed(minus: bool, ds: Bytes): int
    requires AllDigits(ds)
  {
    if minus then 0 - Numeral(ds) else Numeral(ds)
  }

  // The tree follows the rules: a number has no needless zero and fits into 64 bits.
  predicate Formed(t: Tree)
    decreases t
  {
    match t
    case Word(v) => v == JTrue || v == JFalse || v == JNull
    case Number(minus, ds) =>
      && ds != [] && AllDigits(ds) && (ds[0] == 0x30 ==> |ds| == 1)
      && -0x8000_0000_0000_0000 <= Signed(minus, ds) < 0x8000_0000_0000_0000
    case Quote(ps) => AllSpelled(ps)
    case List(space, items) => AllSpace(space) && forall i :: 0 <= i < |items| ==> ItemFormed(items[i])
    case Table(space, entries) =>
      && AllSpace(space)
      && forall i :: 0 <= i < |entries| ==>
           AllSpace(entries[i].before) && AllSpelled(entries[i].key) && AllSpace(entries[i].after) && ItemFormed(entries[i].item)
  }

  predicate ItemFormed(i: Item)
    decreases i
  {
    AllSpace(i.before) && Formed(i.tree) && AllSpace(i.after)
  }

  predicate ItemsFormed(items: seq<Item>) {
    forall i :: 0 <= i < |items| ==> ItemFormed(items[i])
  }

  predicate EntriesFormed(es: seq<Entry>) {
    forall i :: 0 <= i < |es| ==>
      AllSpace(es[i].before) && AllSpelled(es[i].key) && AllSpace(es[i].after) && ItemFormed(es[i].item)
  }

  // What a tree spells.
  function Flat(t: Tree): Bytes
    requires Formed(t)
    decreases t
  {
    match t
    case Word(v) =>
      if v == JTrue then [0x74, 0x72, 0x75, 0x65]
      else if v == JFalse then [0x66, 0x61, 0x6C, 0x73, 0x65]
      else [0x6E, 0x75, 0x6C, 0x6C]
    case Number(minus, ds) => (if minus then [0x2D] else []) + ds
    case Quote(ps) => [0x22] + Inner(ps) + [0x22]
    case List(space, items) => [0x5B] + (if items == [] then space else FlatItems(items)) + [0x5D]
    case Table(space, entries) => [0x7B] + (if entries == [] then space else FlatEntries(entries)) + [0x7D]
  }

  function FlatItem(i: Item): Bytes
    requires ItemFormed(i)
    decreases i
  {
    i.before + Flat(i.tree) + i.after
  }

  // Items with commas between them.
  function FlatItems(items: seq<Item>): Bytes
    requires items != [] && ItemsFormed(items)
    decreases items
  {
    FlatItem(items[0]) + if |items| == 1 then [] else [0x2C] + FlatItems(items[1..])
  }

  function FlatEntries(es: seq<Entry>): Bytes
    requires es != [] && EntriesFormed(es)
    decreases es
  {
    var e := es[0];
    e.before + ([0x22] + Inner(e.key) + [0x22]) + e.after + [0x3A] + FlatItem(e.item)
      + if |es| == 1 then [] else [0x2C] + FlatEntries(es[1..])
  }

  // What a tree means. Of members with the same key the last one counts, in the place of the first one.
  function Meaning(t: Tree): Json
    requires Formed(t)
    decreases t
  {
    match t
    case Word(v) => v
    case Number(minus, ds) => JInteger(Signed(minus, ds))
    case Quote(ps) => JString(Content(ps))
    case List(_, items) => JArray(Meanings(items))
    case Table(_, entries) => JObject(Merged([], entries))
  }

  function Meanings(items: seq<Item>): (r: seq<Json>)
    requires ItemsFormed(items)
    ensures |r| == |items|
    decreases items
  {
    if items == [] then [] else [Meaning(items[0].tree)] + Meanings(items[1..])
  }

  function Merged(ms: seq<Member>, es: seq<Entry>): seq<Member>
    requires EntriesFormed(es)
    decreases es
  {
    if es == [] then ms else Merged(With(ms, Content(es[0].key), Meaning(es[0].item.tree)), es[1..])
  }

  // The place of a key, or the number of members if it is new.
  function Place(ms: seq<Member>, key: Bytes): (i: nat)
    ensures i <= |ms| && (i < |ms| ==> ms[i].key == key) && forall j :: 0 <= j < i ==> ms[j].key != key
  {
    if ms == [] || ms[0].key == key then 0 else 1 + Place(ms[1..], key)
  }

  function With(ms: seq<Member>, key: Bytes, value: Json): seq<Member> {
    var i := Place(ms, key);
    if i < |ms| then ms[i := Member(key, value)] else ms + [Member(key, value)]
  }

  // What the flags ask for besides: a limited depth, no zero byte in a key, nor in a string unless that is allowed, and
  // no key twice if that is refused.
  predicate Permitted(t: Tree, flags: G.Flags, levels: nat)
    requires Formed(t)
    decreases t
  {
    && levels > 0
    && match t
       case Quote(ps) => flags.allowNul || 0 !in Content(ps)
       case List(_, items) => forall i :: 0 <= i < |items| ==> ItemFormed(items[i]) && Permitted(items[i].tree, flags, levels - 1)
       case Table(_, entries) =>
         && (forall i :: 0 <= i < |entries| ==>
               && AllSpelled(entries[i].key) && 0 !in Content(entries[i].key)
               && ItemFormed(entries[i].item) && Permitted(entries[i].item.tree, flags, levels - 1))
         && (flags.rejectDuplicates ==>
               forall i, j :: 0 <= i < j < |entries| ==> Content(entries[i].key) != Content(entries[j].key))
       case _ => true
  }

  // A number or a word goes on as far as it can.
  predicate Ends(t: Tree, rest: Bytes) {
    rest == [] || match t
                  case Word(_) => !(0x41 <= rest[0] <= 0x5A || 0x61 <= rest[0] <= 0x7A)
                  case Number(_, _) => !(0x30 <= rest[0] <= 0x39 || rest[0] in {0x2E, 0x45, 0x65})
                  case _ => true
  }

  // The input is a text of v: nothing but space is around it, unless the end is not looked at, and it is an
  // array or an object, unless any value will do.
  ghost predicate IsText(input: Bytes, v: Json, flags: G.Flags) {
    exists w: Bytes, t: Tree, rest: Bytes :: Splits(input, w, t, rest, flags) && Meaning(t) == v
  }

  predicate Splits(input: Bytes, w: Bytes, t: Tree, rest: Bytes, flags: G.Flags) {
    && AllSpace(w) && Formed(t) && Permitted(t, flags, flags.maxDepth) && input == w + Flat(t) + rest
    && (flags.decodeAny || t.List? || t.Table?)
    && if flags.disableEofCheck then Ends(t, rest) else AllSpace(rest)
  }
}
