/**
  Writing names into DNS messages, with compression, and reading them (common/libevent/evdns.c).
  */
module EvDns {
  import opened Options
  import opened Pieces
  import opened DnsNames

  const MAX_LABELS: nat := 128

  datatype LabelEntry = LabelEntry(v: Bytes, pos: nat)

  // Where names, or ends of names, already stand in the message.
  class LabelTable {
    var labels: seq<LabelEntry>
    // Whether an allocation may fail.
    const scarce: bool

    // dnslabel_table_init.
    constructor (scarce: bool)
      ensures labels == [] && this.scarce == scarce
    {
      labels, this.scarce := [], scarce;
    }

    // dnslabel_table_get_pos.
    method GetPos(label_: Bytes) returns (pos: int)
      ensures pos == -1 ==> forall e <- labels :: e.v != label_
      ensures pos != -1 ==> pos >= 0 && LabelEntry(label_, pos) in labels
    {
      for i := 0 to |labels|
        invariant forall j :: 0 <= j < i ==> labels[j].v != label_
      {
        if labels[i].v == label_ {
          return labels[i].pos;
        }
      }
      pos := -1;
    }

    // dnslabel_table_add.
    method Add(label_: Bytes, pos: nat) returns (r: int)
      modifies this
      ensures r == 0 || r == -1
      ensures labels == if r == 0 then old(labels) + [LabelEntry(label_, pos)] else old(labels)
      ensures |old(labels)| >= MAX_LABELS ==> r == -1
      ensures |old(labels)| < MAX_LABELS && !scarce ==> r == 0
    {
      if |labels| >= MAX_LABELS {
        return -1;
      }
      if scarce {
        if * {
          return -1;
        }
      }
      labels := labels + [LabelEntry(label_, pos)];
      r := 0;
    }
  }

  // An entry says where its name can be read.
  ghost predicate Usable(p: Bytes, e: LabelEntry) {
    exists end: nat :: Denotes(p, e.pos, e.pos, Labels(e.v), end)
  }

  ghost predicate TableOk(p: Bytes, labels: seq<LabelEntry>) {
    forall e <- labels :: e.pos < |p| && Usable(p, e)
  }

  lemma TableExtended(p: Bytes, q: Bytes, labels: seq<LabelEntry>)
    requires TableOk(p, labels) && p <= q
    ensures TableOk(q, labels)
  {
    forall e | e in labels
      ensures e.pos < |q| && Usable(q, e)
    {
      var end: nat :| Denotes(p, e.pos, e.pos, Labels(e.v), end);
      DenotesExtended(p, q, e.pos, e.pos, Labels(e.v), end);
    }
  }

  // An entry made for a name that is being written: its labels up to place j, and rest to come.
  ghost predicate Pending(p: Bytes, e: LabelEntry, j: nat, rest: Bytes) {
    exists ls :: Laid(p, e.pos, ls, j) && Labels(e.v) == ls + Labels(rest)
  }

  // What dnsname_to_labels has written of name: the labels ls from j0 on, with rest to come.
  ghost predicate Writing(p: Bytes, j0: nat, name: Bytes, ls: seq<Bytes>, rest: Bytes) {
    && Laid(p, j0, ls, |p|) && Labels(name) == ls + Labels(rest) && forall l <- ls :: l != []
  }

  // The entries made for the name that is being written.
  ghost predicate Added(p: Bytes, j0: nat, rest: Bytes, added: seq<LabelEntry>) {
    forall e <- added :: j0 <= e.pos < |p| && |e.v| > |rest| && Pending(p, e, |p|, rest)
  }

  // The next label of a name.
  lemma LabelsStep(rest: Bytes)
    requires rest != []
    ensures var i := DotAt(rest);
            Labels(rest) == [rest[..i]] + Labels(if i < |rest| then rest[i + 1..] else [])
  {
    assert rest[..|rest|] == rest;
  }

  lemma LaidOne(p: Bytes, q: Bytes, l: Bytes)
    requires 0 < |l| <= MAX_LABEL && q == p + [|l| as byte] + l
    ensures Laid(q, |p|, [l], |q|)
  {
    BehindLength(p, q, l);
    NothingLaid(q);
    assert [l][1..] == [];
  }

  lemma BehindLength(p: Bytes, q: Bytes, l: Bytes)
    requires |l| <= MAX_LABEL && q == p + [|l| as byte] + l
    ensures q[|p| + 1..|p| + 1 + |l|] == l && q[|p|] == |l| as byte && |q| == |p| + 1 + |l|
  {
  }

  // The rest of a name after its next label.
  function After(rest: Bytes): Bytes
    requires rest != []
  {
    if DotAt(rest) < |rest| then rest[DotAt(rest) + 1..] else []
  }

  // q is p with the next label of a name behind it.
  predicate OneMore(p: Bytes, q: Bytes, rest: Bytes) {
    && rest != [] && 0 < DotAt(rest) <= MAX_LABEL
    && q == p + [DotAt(rest) as byte] + rest[..DotAt(rest)]
  }

  lemma OneMoreIs(p: Bytes, q: Bytes, rest: Bytes)
    requires OneMore(p, q, rest)
    ensures rest != []
    ensures var l := rest[..DotAt(rest)]; 0 < |l| <= MAX_LABEL && q == p + [|l| as byte] + l && p <= q
  {
    hide DotAt;
  }

  lemma RegroupLabels(a: seq<Bytes>, b: seq<Bytes>, c: seq<Bytes>)
    ensures a + (b + c) == (a + b) + c
  {
  }

  lemma LaidStep(p: Bytes, q: Bytes, pos: nat, ls: seq<Bytes>, rest: Bytes, all: seq<Bytes>)
    requires Laid(p, pos, ls, |p|) && all == ls + Labels(rest) && OneMore(p, q, rest)
    ensures Laid(q, pos, ls + [rest[..DotAt(rest)]], |q|) && all == ls + [rest[..DotAt(rest)]] + Labels(After(rest))
  {
    hide Laid, Labels, DotAt, OneMore;
    OneMoreIs(p, q, rest);
    LabelsStep(rest);
    var l := rest[..DotAt(rest)];
    LaidExtended(p, q, pos, ls, |p|);
    LaidOne(p, q, l);
    LaidMore(q, pos, ls, |p|, [l], |q|);
    RegroupLabels(ls, [l], Labels(After(rest)));
  }

  // One more label.
  lemma WriteLabel(p: Bytes, q: Bytes, j0: nat, name: Bytes, ls: seq<Bytes>, rest: Bytes)
    requires Writing(p, j0, name, ls, rest) && OneMore(p, q, rest)
    ensures Writing(q, j0, name, ls + [rest[..DotAt(rest)]], After(rest))
  {
    LaidStep(p, q, j0, ls, rest, Labels(name));
    hide Laid, Labels, DotAt;
  }

  lemma AddStep(p: Bytes, q: Bytes, e: LabelEntry, rest: Bytes)
    requires Pending(p, e, |p|, rest) && OneMore(p, q, rest)
    ensures Pending(q, e, |q|, After(rest))
  {
    hide Laid, Labels, DotAt, OneMore;
    var ls :| Laid(p, e.pos, ls, |p|) && Labels(e.v) == ls + Labels(rest);
    LaidStep(p, q, e.pos, ls, rest, Labels(e.v));
  }

  // The entries for a name when one more label is written.
  lemma AddLabel(p: Bytes, q: Bytes, j0: nat, rest: Bytes, added: seq<LabelEntry>)
    requires Added(p, j0, rest, added) && OneMore(p, q, rest) && j0 <= |p|
    ensures Added(q, j0, After(rest), added) && Added(q, j0, After(rest), added + [LabelEntry(rest, |p|)])
  {
    forall e | e in added
      ensures Pending(q, e, |q|, After(rest))
    {
      AddStep(p, q, e, rest);
    }
    hide Laid, DotAt, Labels;
    var e := LabelEntry(rest, |p|);
    assert Pending(p, e, |p|, rest) by {
      NothingLaid(p);
      assert Labels(rest) == [] + Labels(rest);
    }
    AddStep(p, q, e, rest);
  }

  lemma NothingLaid(p: Bytes)
    ensures Laid(p, |p|, [], |p|)
  {
  }

  // When the rest of the name can be read behind what was written, all entries are usable.
  lemma AddedUsable(p: Bytes, q: Bytes, j0: nat, rest: Bytes, added: seq<LabelEntry>, end: nat)
    requires Added(p, j0, rest, added) && p <= q && Denotes(q, |p|, j0, Labels(rest), end)
    ensures TableOk(q, added)
  {
    forall e | e in added
      ensures e.pos < |q| && Usable(q, e)
    {
      var ls :| Laid(p, e.pos, ls, |p|) && Labels(e.v) == ls + Labels(rest);
      LaidExtended(p, q, e.pos, ls, |p|);
      LaidDenotes(q, e.pos, ls, |p|, j0, Labels(rest), end);
      DenotesHigher(q, e.pos, j0, e.pos, Labels(e.v), end);
    }
  }

  // The name can be read where it begins.
  lemma WrittenDenotes(p: Bytes, q: Bytes, j0: nat, name: Bytes, ls: seq<Bytes>, rest: Bytes, end: nat)
    requires Writing(p, j0, name, ls, rest) && p <= q && Denotes(q, |p|, j0, Labels(rest), end)
    ensures Denotes(q, j0, j0, Labels(name), end)
  {
    LaidExtended(p, q, j0, ls, |p|);
    LaidDenotes(q, j0, ls, |p|, j0, Labels(rest), end);
  }

  // What is read at j0 is the name up to its first empty label.
  ghost predicate Readable(p: Bytes, j0: nat, name: Bytes) {
    exists end: nat :: end <= |p| && Denotes(p, j0, j0, UpToEmpty(Labels(name)), end)
  }

  lemma ReadableExtended(p: Bytes, q: Bytes, j0: nat, name: Bytes)
    requires Readable(p, j0, name) && p <= q
    ensures Readable(q, j0, name)
  {
    var end: nat :| end <= |p| && Denotes(p, j0, j0, UpToEmpty(Labels(name)), end);
    DenotesExtended(p, q, j0, j0, UpToEmpty(Labels(name)), end);
  }

  // While a name is written: either no label was empty so far, or what is read will end there.
  ghost predicate Progress(p: Bytes, j0: nat, name: Bytes, rest: Bytes, added: seq<LabelEntry>) {
    || ((exists ls :: Writing(p, j0, name, ls, rest)) && Added(p, j0, rest, added))
    || (!Good(name) && Readable(p, j0, name))
  }

  // After it is written.
  ghost predicate Finished(q: Bytes, j0: nat, name: Bytes, added: seq<LabelEntry>) {
    && Readable(q, j0, name)
    && (Good(name) ==> Denotes(q, j0, j0, Labels(name), |q|) && TableOk(q, added))
  }

  lemma ProgressStarts(p: Bytes, name: Bytes)
    ensures Progress(p, |p|, name, name, [])
  {
    assert Writing(p, |p|, name, [], name) by {
      NothingLaid(p);
      assert Labels(name) == [] + Labels(name);
    }
  }

  // A zero behind labels ends a name.
  lemma ZeroEnds(p: Bytes, q: Bytes, j0: nat)
    requires q == p + [0]
    ensures Denotes(q, |p|, j0, [], |q|)
  {
  }

  lemma FirstLabelEmpty(rest: Bytes)
    requires rest != [] && DotAt(rest) == 0
    ensures Labels(rest) != [] && Labels(rest)[0] == []
  {
    assert rest[..0] == [];
  }

  lemma EmptyInside(ls: seq<Bytes>, ms: seq<Bytes>)
    requires (forall l <- ls :: l != []) && ms != [] && ms[0] == []
    ensures UpToEmpty(ls + ms) == ls && [] in ls + ms
  {
    UpToEmptyMore(ls, ms);
    assert (ls + ms)[|ls|] == [];
  }

  // An empty label in the middle: what is read ends there.
  lemma EmptyLabel(p: Bytes, q: Bytes, j0: nat, name: Bytes, ls: seq<Bytes>, rest: Bytes)
    requires Writing(p, j0, name, ls, rest) && rest != [] && DotAt(rest) == 0 && q == p + [0]
    ensures !Good(name) && Readable(q, j0, name)
  {
    FirstLabelEmpty(rest);
    hide Labels, DotAt, Laid, Denotes, UpToEmpty;
    EmptyInside(ls, Labels(rest));
    ZeroEnds(p, q, j0);
    LaidExtended(p, q, j0, ls, |p|);
    LaidDenotes(q, j0, ls, |p|, j0, [], |q|);
    assert ls + [] == ls;
  }

  lemma ProgressStep(p: Bytes, q: Bytes, j0: nat, name: Bytes, rest: Bytes, added: seq<LabelEntry>)
    requires Progress(p, j0, name, rest, added) && rest != [] && DotAt(rest) <= MAX_LABEL && j0 <= |p|
    requires q == p + [DotAt(rest) as byte] + rest[..DotAt(rest)]
    ensures Progress(q, j0, name, After(rest), added)
    ensures Progress(q, j0, name, After(rest), added + [LabelEntry(rest, |p|)])
  {
    hide Writing, Added, Readable, Labels, DotAt, Good;
    if !Good(name) && Readable(p, j0, name) {
      ReadableExtended(p, q, j0, name);
    } else {
      var ls :| Writing(p, j0, name, ls, rest);
      if DotAt(rest) == 0 {
        assert q == p + [0];
        EmptyLabel(p, q, j0, name, ls, rest);
      } else {
        WriteLabel(p, q, j0, name, ls, rest);
        AddLabel(p, q, j0, rest, added);
      }
    }
  }

  lemma UpToEmptyGood(name: Bytes)
    ensures Good(name) ==> UpToEmpty(Labels(name)) == Labels(name)
  {
    UpToEmptyAll(Labels(name));
  }

  // What is behind the labels of a name that has none left or can be read elsewhere.
  lemma ProgressEnds(p: Bytes, q: Bytes, j0: nat, name: Bytes, rest: Bytes, added: seq<LabelEntry>)
    requires Progress(p, j0, name, rest, added) && p <= q && j0 <= |p|
    requires Denotes(q, |p|, j0, Labels(rest), |q|) && forall l <- Labels(rest) :: l != []
    ensures Finished(q, j0, name, added)
  {
    hide Labels;
    UpToEmptyGood(name);
    if !Good(name) && Readable(p, j0, name) {
      ReadableExtended(p, q, j0, name);
    } else {
      var ls :| Writing(p, j0, name, ls, rest);
      WrittenDenotes(p, q, j0, name, ls, rest, |q|);
      AddedUsable(p, q, j0, rest, added, |q|);
    }
  }

  // The zero behind the last label, or as an empty label at the end.
  lemma ProgressZero(p: Bytes, q: Bytes, j0: nat, name: Bytes, added: seq<LabelEntry>)
    requires Progress(p, j0, name, [], added) && q == p + [0] && j0 <= |p|
    ensures Finished(q, j0, name, added) && Finished(q, j0, name, added + [LabelEntry([], |p|)])
  {
    ZeroEnds(p, q, j0);
    ZeroEnds(p, q, |p|);
    assert Labels([]) == [];
    ProgressEnds(p, q, j0, name, [], added);
    assert Usable(q, LabelEntry([], |p|));
  }

  // A pointer to an entry with the rest of the name.
  lemma PointerDenotes(p: Bytes, q: Bytes, j0: nat, e: LabelEntry)
    requires e.pos < j0 <= |p| && e.pos < 0x4000 && Usable(p, e)
    requires q == p + [(0xc0 + e.pos / 256) as byte, (e.pos % 256) as byte]
    ensures Denotes(q, |p|, j0, Labels(e.v), |q|)
  {
    hide Labels;
    var end: nat :| Denotes(p, e.pos, e.pos, Labels(e.v), end);
    DenotesExtended(p, q, e.pos, e.pos, Labels(e.v), end);
    assert Target(q, |p|) == e.pos;
  }

  lemma {:induction false} DenotesGood(p: Bytes, pos: nat, bound: nat, ls: seq<Bytes>, end: nat)
    requires Denotes(p, pos, bound, ls, end)
    ensures forall l <- ls :: l != []
    decreases bound, |ls|
  {
    if p[pos] == 0 {
    } else if p[pos] >= 64 {
      var e :| Denotes(p, Target(p, pos), Target(p, pos), ls, e);
      DenotesGood(p, Target(p, pos), Target(p, pos), ls, e);
    } else {
      DenotesGood(p, pos + 1 + p[pos] as nat, bound, ls[1..], end);
      assert forall l <- ls :: l == ls[0] || l in ls[1..];
    }
  }

  lemma ProgressPointer(p: Bytes, q: Bytes, j0: nat, name: Bytes, rest: Bytes, added: seq<LabelEntry>, e: LabelEntry)
    requires Progress(p, j0, name, rest, added) && j0 <= |p| && e.pos < 0x4000 && e.v == rest
    requires q == p + [(0xc0 + e.pos / 256) as byte, (e.pos % 256) as byte]
    requires e in added || (e.pos < j0 && Usable(p, e))
    ensures Finished(q, j0, name, added)
  {
    if e.pos < j0 && Usable(p, e) {
      PointerDenotes(p, q, j0, e);
      DenotesGood(q, |p|, j0, Labels(rest), |q|);
      ProgressEnds(p, q, j0, name, rest, added);
    } else {
      ReadableExtended(p, q, j0, name);
    }
  }

  // The bytes of an array from its beginning.
  ghost predicate BeginsWith(buf: array<byte>, p: Bytes)
    reads buf
  {
    |p| <= buf.Length && forall k :: 0 <= k < |p| ==> buf[k] == p[k]
  }

  // Copies bytes into the message.
  method PutBytes(buf: array<byte>, j: nat, bytes: Bytes, ghost p: Bytes)
    requires BeginsWith(buf, p) && j == |p| && j + |bytes| <= buf.Length
    modifies buf
    ensures BeginsWith(buf, p + bytes)
  {
    forall k | 0 <= k < |bytes| {
      buf[j + k] := bytes[k];
    }
  }

  // No entry lies beyond the reach of a pointer.
  ghost predicate Near(labels: seq<LabelEntry>) {
    forall e <- labels :: e.pos < 0x4000
  }

  predicate Short(name: Bytes) {
    forall l <- Labels(name) :: |l| <= MAX_LABEL
  }

  // The table while a name is written: the entries it had, and those for this name.
  ghost predicate TableIs(table: LabelTable?, t0: seq<LabelEntry>, added: seq<LabelEntry>)
    reads table
  {
    table != null ==> table.labels == t0 + added && Near(added)
  }

  // One turn of the loop of dnsname_to_labels for a name that is not in the table.
  method OneLabel(buf: array<byte>, bufLen: nat, j: nat, name: Bytes, table: LabelTable?,
                  ghost p: Bytes, ghost j0: nat, ghost name0: Bytes, ghost t0: seq<LabelEntry>,
                  ghost added0: seq<LabelEntry>)
    returns (r: int, ghost q: Bytes, ghost added: seq<LabelEntry>)
    requires BeginsWith(buf, p) && j0 <= j == |p| <= bufLen < buf.Length && bufLen <= 0x4000
    requires Progress(p, j0, name0, name, added0) && TableIs(table, t0, added0) && Near(added0)
    modifies buf, table
    ensures r == if DotAt(name) > MAX_LABEL then -1 else if j + DotAt(name) + 1 > bufLen then -2 else j + 1 + DotAt(name)
    ensures TableIs(table, t0, added) && Near(added) && (added == added0 || added == added0 + [LabelEntry(name, j)])
    ensures r < 0 || (table != null && |t0 + added0| >= MAX_LABELS) ==> added == added0
    ensures r >= 0 && table != null && !table.scarce && |t0 + added0| < MAX_LABELS ==> added == added0 + [LabelEntry(name, j)]
    ensures r >= 0 ==>
              && BeginsWith(buf, q) && |q| == r && q == p + [DotAt(name) as byte] + name[..DotAt(name)]
              && if name == [] then Finished(q, j0, name0, added) else Progress(q, j0, name0, After(name), added)
  {
    hide Progress, Finished, DotAt;
    q, added := p, added0;
    var i := DotAt(name);
    if i > MAX_LABEL {
      return -1, q, added;
    }
    if j + i + 1 > bufLen {
      return -2, q, added;
    }
    if table != null {
      var s := table.Add(name, j);
      if s == 0 {
        added := added + [LabelEntry(name, j)];
        assert t0 + added == t0 + added0 + [LabelEntry(name, j)];
      }
    }
    q := p + [i as byte] + name[..i];
    assert q == p + ([i as byte] + name[..i]);
    PutBytes(buf, j, [i as byte] + name[..i], p);
    if name == [] {
      assert q == p + [0];
      ProgressZero(p, q, j0, name0, added0);
    } else {
      ProgressStep(p, q, j0, name0, name, added0);
    }
    r := j + 1 + i;
  }

  // A name, or the rest of one, that is in the table.
  method Refer(buf: array<byte>, bufLen: nat, j: nat, ref: nat, ghost name: Bytes, ghost p: Bytes, ghost j0: nat,
               ghost name0: Bytes, ghost was: Bytes, ghost t0: seq<LabelEntry>, ghost added: seq<LabelEntry>)
    returns (r: int, ghost q: Bytes)
    requires BeginsWith(buf, p) && j0 <= j == |p| <= bufLen < buf.Length
    requires Progress(p, j0, name0, name, added) && LabelEntry(name, ref) in t0 + added
    requires Near(t0) && Near(added) && TableOk(was, t0) && was <= p && |was| == j0
    modifies buf
    ensures r == if j + 2 > bufLen then -2 else j + 2
    ensures r >= 0 ==> BeginsWith(buf, q) && |q| == r && p <= q && Finished(q, j0, name0, added)
  {
    hide Progress, Finished, Usable;
    var e := LabelEntry(name, ref);
    if e in t0 {
      TableExtended(was, p, t0);
      assert e in t0;
    }
    r, q := PutPointer(buf, bufLen, j, ref, p);
    if r >= 0 {
      ProgressPointer(p, q, j0, name0, name, added, e);
    }
  }

  predicate Known(labels: seq<LabelEntry>, name: Bytes) {
    exists e <- labels :: e.v == name
  }

  // The entries for a name that is written from place j on: its ends, up to the first one that is known.
  function Entries(t0: seq<LabelEntry>, name: Bytes, j: nat): seq<LabelEntry>
    decreases |name|, 1
  {
    if Known(t0, name) then [] else [LabelEntry(name, j)] + MoreEntries(t0, name, j)
  }

  // The entries behind the first one.
  function MoreEntries(t0: seq<LabelEntry>, name: Bytes, j: nat): seq<LabelEntry>
    decreases |name|, 0
  {
    if DotAt(name) < |name| then Entries(t0, name[DotAt(name) + 1..], j + DotAt(name) + 1) else []
  }

  // The table with as many of the entries as it has room for.
  function Stored(t0: seq<LabelEntry>, es: seq<LabelEntry>): seq<LabelEntry> {
    t0 + es[..if |t0| >= MAX_LABELS then 0 else if |t0| + |es| <= MAX_LABELS then |es| else MAX_LABELS - |t0|]
  }

  // A label of the name begins at i.
  predicate Begins(name: Bytes, i: nat) {
    i <= |name| && (i == 0 || name[i - 1] == DOT)
  }

  lemma BeginsLater(name: Bytes, i: nat)
    requires DotAt(name) < |name| && i <= |name|
    ensures Begins(name, i) <==> i == 0 || (i > DotAt(name) && Begins(name[DotAt(name) + 1..], i - DotAt(name) - 1))
  {
    hide DotAt;
    var d := DotAt(name);
    if 0 < i <= d {
      assert name[..d][i - 1] == name[i - 1];
    } else if i > d + 1 {
      assert name[d + 1..][i - d - 2] == name[i - 1];
    }
  }

  lemma NoDot(name: Bytes, i: nat)
    requires DotAt(name) == |name| && Begins(name, i)
    ensures i == 0
  {
    assert name[..|name|] == name;
  }

  // None of the ends of the name up to the one at i is known.
  predicate NewUpTo(t0: seq<LabelEntry>, name: Bytes, i: nat) {
    forall k :: 0 <= k <= i && Begins(name, k) ==> !Known(t0, name[k..])
  }

  lemma NewLater(t0: seq<LabelEntry>, name: Bytes, i: nat)
    requires DotAt(name) < i <= |name| && !Known(t0, name)
    ensures NewUpTo(t0, name, i) <==> NewUpTo(t0, name[DotAt(name) + 1..], i - DotAt(name) - 1)
  {
    hide Known, DotAt;
    var d := DotAt(name) + 1;
    var rest := name[d..];
    assert name[0..] == name;
    if NewUpTo(t0, rest, i - d) {
      forall k | 0 <= k <= i && Begins(name, k)
        ensures !Known(t0, name[k..])
      {
        BeginsLater(name, k);
        if k > 0 {
          assert rest[k - d..] == name[k..];
        }
      }
    }
    if NewUpTo(t0, name, i) {
      forall k | 0 <= k <= i - d && Begins(rest, k)
        ensures !Known(t0, rest[k..])
      {
        BeginsLater(name, k + d);
        assert rest[k..] == name[k + d..];
      }
    }
  }

  // The end of the name at a label before which none is known, with the place where it stands in the message.
  predicate EntryOf(t0: seq<LabelEntry>, name: Bytes, j: nat, e: LabelEntry) {
    && j <= e.pos <= j + |name| && e.v == name[e.pos - j..]
    && Begins(name, e.pos - j) && NewUpTo(t0, name, e.pos - j)
  }

  lemma BeginsAtStart(name: Bytes)
    ensures Begins(name, 0)
  {
  }

  lemma EntryStep(t0: seq<LabelEntry>, name: Bytes, j: nat, e: LabelEntry)
    requires !Known(t0, name)
    ensures var d := DotAt(name);
            EntryOf(t0, name, j, e) <==>
              e == LabelEntry(name, j) || (d < |name| && EntryOf(t0, name[d + 1..], j + d + 1, e))
  {
    hide Known, NewUpTo, DotAt, Begins;
    var d := DotAt(name);
    KnownFirst(t0, name);
    assert name[0..] == name;
    BeginsAtStart(name);
    if j <= e.pos <= j + |name| {
      var i := e.pos - j;
      if d < |name| {
        BeginsLater(name, i);
        if i > d {
          NewLater(t0, name, i);
          assert name[d + 1..][i - d - 1..] == name[i..];
        }
      } else if Begins(name, i) {
        NoDot(name, i);
      }
    }
  }

  // These are the entries.
  lemma {:induction false} EntriesAre(t0: seq<LabelEntry>, name: Bytes, j: nat, e: LabelEntry)
    ensures e in Entries(t0, name, j) <==> EntryOf(t0, name, j, e)
    decreases |name|
  {
    EntriesStep(t0, name, j, e);
    hide *;
    if Known(t0, name) {
      NoEntry(t0, name, j, e);
    } else {
      EntryStep(t0, name, j, e);
      var d := DotAt(name);
      if d < |name| {
        EntriesAre(t0, name[d + 1..], j + d + 1, e);
      }
    }
  }

  lemma EntriesMore(t0: seq<LabelEntry>, name: Bytes, j: nat)
    ensures Entries(t0, name, j) == if Known(t0, name) then [] else [LabelEntry(name, j)] + MoreEntries(t0, name, j)
  {
    hide MoreEntries, Known;
  }

  lemma InMore(e: LabelEntry, first: LabelEntry, more: seq<LabelEntry>)
    ensures e in [first] + more <==> e == first || e in more
  {
  }

  lemma EntriesStep(t0: seq<LabelEntry>, name: Bytes, j: nat, e: LabelEntry)
    ensures var d := DotAt(name);
            e in Entries(t0, name, j) <==>
              !Known(t0, name) && (e == LabelEntry(name, j) || (d < |name| && e in Entries(t0, name[d + 1..], j + d + 1)))
  {
    EntriesMore(t0, name, j);
    hide Entries, DotAt, Known;
    InMore(e, LabelEntry(name, j), MoreEntries(t0, name, j));
  }

  lemma NoEntry(t0: seq<LabelEntry>, name: Bytes, j: nat, e: LabelEntry)
    requires Known(t0, name)
    ensures !EntryOf(t0, name, j, e)
  {
    hide Known, NewUpTo;
    KnownFirst(t0, name);
  }

  lemma KnownFirst(t0: seq<LabelEntry>, name: Bytes)
    ensures NewUpTo(t0, name, 0) <==> !Known(t0, name)
    ensures Known(t0, name) ==> forall i: nat :: !NewUpTo(t0, name, i)
  {
    hide Known;
    assert Begins(name, 0) && name[0..] == name;
  }

  // What dnsname_to_labels answers for a name that is not too long as a whole, by the labels that the
  // table has beforehand.
  function Written(t0: seq<LabelEntry>, name: Bytes, j: nat, bufLen: nat): int
    decreases |name|
  {
    var i := DotAt(name);
    if Known(t0, name) then if j + 2 > bufLen then -2 else j + 2
    else if i > MAX_LABEL then -1
    else if j + i + 1 > bufLen then -2
    else if i < |name| then Written(t0, name[i + 1..], j + i + 1, bufLen)
    else if i == 0 then j + 1
    else j + i + 2
  }

  // No end of the name at a label is in the table.
  predicate AllNew(t0: seq<LabelEntry>, name: Bytes)
    decreases |name|
  {
    !Known(t0, name) && (DotAt(name) < |name| ==> AllNew(t0, name[DotAt(name) + 1..]))
  }

  // A name that is written as a whole fits if there is room for its labels; its final zero may then land
  // behind the buffer.
  lemma {:induction false} WrittenWhole(t0: seq<LabelEntry>, name: Bytes, j: nat, bufLen: nat)
    requires AllNew(t0, name)
    ensures Written(t0, name, j, bufLen) >= 0 <==> Short(name) && j + |name| + 1 <= bufLen
    ensures Written(t0, name, j, bufLen) >= 0 ==>
              Written(t0, name, j, bufLen) == j + |name| + if name == [] || EndsInDot(name) then 1 else 2
    decreases |name|
  {
    hide Written, Short, DotAt, Known;
    WrittenStep(t0, name, j, bufLen);
    var i := DotAt(name);
    if name == [] {
      NothingShort();
    } else {
      ShortIs(name);
      if i < |name| {
        var rest := name[i + 1..];
        WrittenWhole(t0, rest, j + i + 1, bufLen);
        if rest != [] {
          assert rest[|rest| - 1] == name[|name| - 1];
        }
      } else {
        NothingShort();
        assert name[..i] == name && name[|name| - 1] in name;
      }
    }
  }

  lemma NothingShort()
    ensures Short([])
  {
  }

  lemma ShortIs(name: Bytes)
    requires name != []
    ensures Short(name) <==> DotAt(name) <= MAX_LABEL && Short(After(name))
  {
    LabelsStep(name);
    hide Labels;
    var l := name[..DotAt(name)];
    assert Labels(name)[0] == l;
    if DotAt(name) <= MAX_LABEL && Short(After(name)) {
      forall m | m in Labels(name)
        ensures |m| <= MAX_LABEL
      {
        assert m == l || m in Labels(After(name));
      }
    } else {
      assert l in Labels(name) && forall m <- Labels(After(name)) :: m in Labels(name);
    }
  }

  // That is: none of its ends.
  lemma {:induction false} AllNewIs(t0: seq<LabelEntry>, name: Bytes)
    ensures AllNew(t0, name) <==> NewUpTo(t0, name, |name|)
    decreases |name|
  {
    hide Known, DotAt;
    KnownFirst(t0, name);
    var d := DotAt(name);
    if d < |name| {
      AllNewIs(t0, name[d + 1..]);
      if !Known(t0, name) {
        NewLater(t0, name, |name|);
      }
    } else if !Known(t0, name) {
      forall k | 0 <= k <= |name| && Begins(name, k)
        ensures !Known(t0, name[k..])
      {
        NoDot(name, k);
        assert name[0..] == name;
      }
    }
  }

  // The first known end of the name begins at i.
  predicate FirstKnown(t0: seq<LabelEntry>, name: Bytes, i: nat) {
    && Begins(name, i) && Known(t0, name[i..])
    && forall k :: 0 <= k < i && Begins(name, k) ==> !Known(t0, name[k..])
  }

  lemma {:induction false} DotAtUnique(name: Bytes, d: nat)
    requires d < |name| && name[d] == DOT && DOT !in name[..d]
    ensures DotAt(name) == d
  {
    if d > 0 {
      assert name[..d][0] == name[0] && name[1..][..d - 1] == name[..d][1..];
      DotAtUnique(name[1..], d - 1);
    }
  }

  lemma DotAtPrefix(name: Bytes, i: nat)
    requires DotAt(name) < i <= |name|
    ensures DotAt(name[..i]) == DotAt(name) && name[..i][DotAt(name) + 1..] == name[DotAt(name) + 1..][..i - DotAt(name) - 1]
  {
    hide DotAt;
    assert name[..i][..DotAt(name)] == name[..DotAt(name)];
    DotAtUnique(name[..i], DotAt(name));
  }

  lemma FirstKnownLater(t0: seq<LabelEntry>, name: Bytes, i: nat)
    requires FirstKnown(t0, name, i) && i > 0
    ensures !Known(t0, name) && DotAt(name) < i <= |name|
    ensures FirstKnown(t0, name[DotAt(name) + 1..], i - DotAt(name) - 1)
  {
    hide Known, DotAt;
    assert Begins(name, 0) && name[0..] == name;
    if DotAt(name) == |name| {
      NoDot(name, i);
    }
    BeginsLater(name, i);
    var d := DotAt(name) + 1;
    var rest := name[d..];
    assert rest[i - d..] == name[i..];
    forall k | 0 <= k < i - d && Begins(rest, k)
      ensures !Known(t0, rest[k..])
    {
      BeginsLater(name, k + d);
      assert rest[k..] == name[k + d..];
    }
  }

  // A name with a known end is written up to the first one and then points to it.
  lemma {:induction false} WrittenPoints(t0: seq<LabelEntry>, name: Bytes, i: nat, j: nat, bufLen: nat)
    requires FirstKnown(t0, name, i)
    ensures Written(t0, name, j, bufLen) >= 0 <==> Short(name[..i]) && j + i + 2 <= bufLen
    ensures Written(t0, name, j, bufLen) >= 0 ==> Written(t0, name, j, bufLen) == j + i + 2
    decreases |name|
  {
    hide Written, Short, DotAt, Known;
    WrittenStep(t0, name, j, bufLen);
    if i == 0 {
      assert name[0..] == name && name[..0] == [];
      NothingShort();
    } else {
      FirstKnownLater(t0, name, i);
      var d := DotAt(name) + 1;
      WrittenPoints(t0, name[d..], i - d, j + d, bufLen);
      DotAtPrefix(name, i);
      ShortIs(name[..i]);
      if d == i {
        NothingShort();
      }
    }
  }

  // Once a name is written, its ends up to the first one known before are known, if the table had room.
  lemma KnownAfter(t0: seq<LabelEntry>, name: Bytes, j: nat, i: nat)
    requires |t0| + |Entries(t0, name, j)| <= MAX_LABELS && Begins(name, i) && NewUpTo(t0, name, i)
    ensures Known(Stored(t0, Entries(t0, name, j)), name[i..])
  {
    EntriesAre(t0, name, j, LabelEntry(name[i..], j + i));
    hide Entries, NewUpTo;
    var es := Entries(t0, name, j);
    assert es[..|es|] == es;
    assert LabelEntry(name[i..], j + i) in t0 + es;
  }

  // Then the same name again takes two bytes.
  lemma SecondTime(t0: seq<LabelEntry>, name: Bytes, j: nat, j2: nat, bufLen: nat)
    requires |t0| + |Entries(t0, name, j)| <= MAX_LABELS
    ensures Written(Stored(t0, Entries(t0, name, j)), name, j2, bufLen) == if j2 + 2 > bufLen then -2 else j2 + 2
  {
    hide Entries, DotAt;
    var t1 := Stored(t0, Entries(t0, name, j));
    WrittenStep(t1, name, j2, bufLen);
    assert name[0..] == name;
    KnownFirst(t0, name);
    if Known(t0, name) {
      var e :| e in t0 && e.v == name;
      assert e in t1;
    } else {
      KnownAfter(t0, name, j, 0);
    }
  }

  // The final zero lands behind the buffer exactly if no end of the name is in the table, its labels fill
  // the buffer to its last place, and the name neither is empty nor ends in a dot.
  lemma {:induction false} ZeroOutside(t0: seq<LabelEntry>, name: Bytes, j: nat, bufLen: nat)
    ensures Written(t0, name, j, bufLen) <= bufLen + 1
    ensures Written(t0, name, j, bufLen) == bufLen + 1 <==>
              && AllNew(t0, name) && Short(name) && j + |name| + 1 == bufLen && name != [] && !EndsInDot(name)
    decreases |name|
  {
    if AllNew(t0, name) {
      WrittenWhole(t0, name, j, bufLen);
      WrittenInside(t0, name, j, bufLen);
    } else {
      WrittenKnown(t0, name, j, bufLen);
    }
  }

  lemma {:induction false} WrittenInside(t0: seq<LabelEntry>, name: Bytes, j: nat, bufLen: nat)
    ensures Written(t0, name, j, bufLen) <= bufLen + 1 && Written(t0, name, j, bufLen) <= j + |name| + 2
    decreases |name|
  {
    var i := DotAt(name);
    if i < |name| {
      WrittenInside(t0, name[i + 1..], j + i + 1, bufLen);
    }
  }

  lemma {:induction false} WrittenKnown(t0: seq<LabelEntry>, name: Bytes, j: nat, bufLen: nat)
    requires !AllNew(t0, name)
    ensures Written(t0, name, j, bufLen) <= bufLen
    decreases |name|
  {
    var i := DotAt(name);
    if !Known(t0, name) {
      WrittenKnown(t0, name[i + 1..], j + i + 1, bufLen);
    }
  }

  // The name a in a buffer for two bytes takes three.
  lemma ZeroOutsideHappens()
    ensures Written([], [97], 0, 2) == 3
  {
    assert DotAt([97]) == 1;
  }

  // dnsname_to_labels: puts a name into a message at j0 and answers the place after it, -1 for a
  // label that is too long or -2 if there is no room. The zero at the end is not checked against
  // the length of the buffer, so the array has one place more. q is what the message then is.
  method DnsnameToLabels(buf: array<byte>, bufLen: nat, j0: nat, name0: Bytes, table: LabelTable?)
    returns (r: int, ghost q: Bytes)
    requires j0 <= bufLen < buf.Length && bufLen <= 0x4000 && 0 !in name0
    requires table != null ==> TableOk(buf[..j0], table.labels) && Near(table.labels)
    modifies buf, table
    ensures r == -1 || r == -2 || (j0 <= r == |q| <= bufLen + 1 && BeginsWith(buf, q) && old(buf[..j0]) <= q)
    ensures r >= 0 ==> Readable(q, j0, name0) && (Good(name0) ==> Denotes(q, j0, j0, Labels(name0), r))
    ensures r >= 0 && table != null && Good(name0) ==> TableOk(q, table.labels) && Near(table.labels)
    ensures table != null ==>
              && old(table.labels) <= table.labels
              && forall e <- table.labels[|old(table.labels)|..] :: e in Entries(old(table.labels), name0, j0)
    ensures r >= 0 && table != null && !table.scarce ==>
              table.labels == Stored(old(table.labels), Entries(old(table.labels), name0, j0))
    ensures |name0| <= 255 && Short(name0) && j0 + |name0| + 2 <= bufLen ==> r >= 0
    ensures r == if |name0| > 255 then -2 else Written(if table == null then [] else old(table.labels), name0, j0, bufLen)
  {
    hide Finished, TableOk, Near, Short, Good, Denotes, Readable, Written, Entries, Stored;
    ghost var was := buf[..j0];
    ghost var t0 := if table != null then table.labels else [];
    if |name0| > 255 {
      return -2, was;
    }
    WrittenFits(t0, name0, j0, bufLen);
    WrittenInside(t0, name0, j0, bufLen);
    NoneNear(was);
    ghost var added;
    r, q, added := WriteName(buf, bufLen, j0, name0, table, was, t0);
    if r >= 0 {
      WasFinished(q, was, j0, name0, t0, added);
    }
  }

  lemma StoredMore(t0: seq<LabelEntry>, added: seq<LabelEntry>, done: seq<LabelEntry>, e: LabelEntry)
    requires t0 + added == Stored(t0, done)
    ensures Stored(t0, done + [e]) == t0 + if |t0 + added| >= MAX_LABELS then added else added + [e]
  {
    assert (t0 + added)[|t0|..] == added && Stored(t0, done)[|t0|..] == added;
    if |t0| + |done| < MAX_LABELS {
      assert done[..|done|] == done && (done + [e])[..|done| + 1] == done + [e];
    } else {
      var m := if |t0| >= MAX_LABELS then 0 else MAX_LABELS - |t0|;
      assert (done + [e])[..m] == done[..m];
      assert |t0| >= MAX_LABELS || |t0 + added| == MAX_LABELS;
    }
  }

  // While a name is written: the entries done, of which some are added, and all that there is room for
  // if no memory was short. More are to come.
  ghost predicate Storing(t0: seq<LabelEntry>, all: seq<LabelEntry>, more: seq<LabelEntry>, done: seq<LabelEntry>,
                          added: seq<LabelEntry>, exact: bool)
  {
    && all == done + more && (forall e <- added :: e in done) && (exact ==> t0 + added == Stored(t0, done))
  }

  lemma StoringStarts(t0: seq<LabelEntry>, all: seq<LabelEntry>, exact: bool)
    ensures Storing(t0, all, all, [], [], exact)
  {
  }

  lemma StoringMore(t0: seq<LabelEntry>, all: seq<LabelEntry>, e: LabelEntry, more: seq<LabelEntry>, done: seq<LabelEntry>,
                    added: seq<LabelEntry>, exact: bool, added': seq<LabelEntry>)
    requires Storing(t0, all, [e] + more, done, added, exact)
    requires added' == added || added' == added + [e]
    requires exact ==> added' == if |t0 + added| >= MAX_LABELS then added else added + [e]
    ensures Storing(t0, all, more, done + [e], added', exact)
  {
    hide Stored;
    if exact {
      StoredMore(t0, added, done, e);
    }
    Snoc(done, e, more, added, added');
  }

  lemma Snoc(done: seq<LabelEntry>, e: LabelEntry, more: seq<LabelEntry>, added: seq<LabelEntry>, added': seq<LabelEntry>)
    requires (forall x <- added :: x in done) && (added' == added || added' == added + [e])
    ensures done + ([e] + more) == done + [e] + more && forall x <- added' :: x in done + [e]
  {
    assert forall x <- done :: x in done + [e];
    assert e in done + [e] && forall x <- added' :: x in added || x == e;
  }

  lemma StoringEnds(t0: seq<LabelEntry>, all: seq<LabelEntry>, more: seq<LabelEntry>, done: seq<LabelEntry>,
                    added: seq<LabelEntry>, exact: bool)
    requires Storing(t0, all, more, done, added, exact)
    ensures forall e <- added :: e in all
    ensures exact && more == [] ==> t0 + added == Stored(t0, all)
  {
    hide Stored;
    assert forall e <- done :: e in done + more;
    if more == [] {
      assert done + more == done;
    }
  }

  // The loop of dnsname_to_labels and the zero behind it.
  method WriteName(buf: array<byte>, bufLen: nat, j0: nat, name0: Bytes, table: LabelTable?,
                   ghost was: Bytes, ghost t0: seq<LabelEntry>)
    returns (r: int, ghost q: Bytes, ghost added: seq<LabelEntry>)
    requires j0 == |was| <= bufLen < buf.Length && bufLen <= 0x4000 && 0 !in name0 && BeginsWith(buf, was)
    requires TableOk(was, t0) && Near(t0) && (if table == null then t0 == [] else table.labels == t0)
    modifies buf, table
    ensures r == Written(t0, name0, j0, bufLen)
    ensures r == -1 || r == -2 || (j0 <= r == |q| && BeginsWith(buf, q) && was <= q && Finished(q, j0, name0, added))
    ensures TableIs(table, t0, added) && Near(added) && forall e <- added :: e in Entries(t0, name0, j0)
    ensures r >= 0 && table != null && !table.scarce ==> t0 + added == Stored(t0, Entries(t0, name0, j0))
  {
    hide Progress, Finished, DotAt, TableOk, Near, Denotes, Readable, Written, Known, Entries, Stored, Storing;
    NoneNear(was);
    ghost var done: seq<LabelEntry> := [];
    ghost var all, exact := Entries(t0, name0, j0), table != null && !table.scarce;
    StoringStarts(t0, all, exact);
    var name, j := name0, j0;
    q, added := was, [];
    ProgressStarts(q, name);
    while true
      invariant j0 <= j == |q| <= bufLen && was <= q && BeginsWith(buf, q) && 0 !in name
      invariant Progress(q, j0, name0, name, added) && TableIs(table, t0, added) && Near(added)
      invariant Written(t0, name, j, bufLen) == Written(t0, name0, j0, bufLen)
      invariant (forall e <- added :: |e.v| > |name|) && Storing(t0, all, Entries(t0, name, j), done, added, exact)
      decreases |name|
    {
      WrittenStep(t0, name, j, bufLen);
      EntriesMore(t0, name, j);
      StoringEnds(t0, all, Entries(t0, name, j), done, added, exact);
      if table != null {
        var ref := table.GetPos(name);
        KnownIs(t0, added, name, ref);
        if ref >= 0 {
          r, q := Refer(buf, bufLen, j, ref, name, q, j0, name0, was, t0, added);
          return;
        }
      }
      ghost var p := q;
      ghost var e, added0, more := LabelEntry(name, j), added, MoreEntries(t0, name, j);
      r, q, added := OneLabel(buf, bufLen, j, name, table, q, j0, name0, t0, added);
      if r < 0 {
        return;
      }
      j := r;
      StoringMore(t0, all, e, more, done, added0, exact, added);
      done := done + [e];
      StoringEnds(t0, all, more, done, added, exact);
      if DotAt(name) == |name| {
        LastByte(p, q, name);
        break;
      }
      name := name[DotAt(name) + 1..];
    }
    r, q := PutZero(buf, j, q, j0, name0, added, name == []);
  }

  // Labels that are not too long find room in the buffer if the name does.
  lemma {:induction false} WrittenFits(t0: seq<LabelEntry>, name: Bytes, j: nat, bufLen: nat)
    ensures Short(name) && j + |name| + 2 <= bufLen ==> Written(t0, name, j, bufLen) >= 0
    decreases |name|
  {
    hide Short, DotAt, Written, Known;
    WrittenStep(t0, name, j, bufLen);
    var i := DotAt(name);
    if name != [] {
      ShortIs(name);
      if i < |name| {
        WrittenFits(t0, name[i + 1..], j + i + 1, bufLen);
      }
    }
  }

  // The zero that ends a name, unless its last label was empty.
  method PutZero(buf: array<byte>, j: nat, ghost p: Bytes, ghost j0: nat, ghost name: Bytes, ghost added: seq<LabelEntry>,
                 ghost ended: bool) returns (r: nat, ghost q: Bytes)
    requires BeginsWith(buf, p) && j0 < j == |p| < buf.Length
    requires ended <==> p[j - 1] == 0
    requires if ended then Finished(p, j0, name, added) else Progress(p, j0, name, [], added)
    modifies buf
    ensures r == (if ended then j else j + 1) && BeginsWith(buf, q) && |q| == r && p <= q && Finished(q, j0, name, added)
  {
    hide Progress, Finished;
    r, q := j, p;
    if j == 0 || buf[j - 1] != 0 {
      q := p + [0];
      PutBytes(buf, j, [0], p);
      ProgressZero(p, q, j0, name, added);
      r := j + 1;
    }
  }

  // The last byte of a name that does not end in a dot is not zero.
  lemma LastByte(p: Bytes, q: Bytes, name: Bytes)
    requires |name| <= MAX_LABEL && q == p + [|name| as byte] + name[..|name|] && 0 !in name
    ensures |q| > |p| && (q[|q| - 1] == 0 <==> name == [])
  {
    if name != [] {
      BehindLength(p, q, name[..|name|]);
      assert q[|q| - 1] == name[|name| - 1];
      assert name[|name| - 1] in name;
    }
  }

  // What is found in the table was there before, as the entries added are longer.
  lemma KnownIs(t0: seq<LabelEntry>, added: seq<LabelEntry>, name: Bytes, ref: int)
    requires forall e <- added :: |e.v| > |name|
    requires if ref == -1 then forall e <- t0 + added :: e.v != name else ref >= 0 && LabelEntry(name, ref) in t0 + added
    ensures Known(t0, name) <==> ref >= 0
  {
    if ref >= 0 {
      assert LabelEntry(name, ref) in t0;
    } else {
      assert forall e <- t0 :: e in t0 + added;
    }
  }

  lemma WrittenStep(t0: seq<LabelEntry>, name: Bytes, j: nat, bufLen: nat)
    ensures var i := DotAt(name);
            Written(t0, name, j, bufLen) ==
              if Known(t0, name) then if j + 2 > bufLen then -2 else j + 2
              else if i > MAX_LABEL then -1
              else if j + i + 1 > bufLen then -2
              else if i < |name| then Written(t0, name[i + 1..], j + i + 1, bufLen)
              else if i == 0 then j + 1
              else j + i + 2
    ensures t0 == [] ==> !Known(t0, name)
  {
    hide DotAt;
  }

  lemma NoneNear(p: Bytes)
    ensures Near([]) && TableOk(p, [])
  {
  }

  // All entries of the table when a name has been written.
  lemma WasFinished(q: Bytes, was: Bytes, j0: nat, name: Bytes, t0: seq<LabelEntry>, added: seq<LabelEntry>)
    requires Finished(q, j0, name, added) && was <= q
    ensures Readable(q, j0, name) && (Good(name) ==> Denotes(q, j0, j0, Labels(name), |q|))
    ensures Good(name) && TableOk(was, t0) ==> TableOk(q, t0 + added)
    ensures Near(t0) && Near(added) ==> Near(t0 + added)
  {
    hide Usable, Denotes, Readable;
    if TableOk(was, t0) {
      TableExtended(was, q, t0);
    }
  }

  // A pointer to a place of the message, with its two high bits set.
  method PutPointer(buf: array<byte>, bufLen: nat, j: nat, ref: nat, ghost p: Bytes) returns (r: int, ghost q: Bytes)
    requires BeginsWith(buf, p) && j == |p| <= bufLen < buf.Length && ref < 0x4000
    modifies buf
    ensures r == if j + 2 > bufLen then -2 else j + 2
    ensures r >= 0 ==> q == p + [(0xc0 + ref / 256) as byte, (ref % 256) as byte] && BeginsWith(buf, q) && |q| == r
  {
    if j + 2 > bufLen {
      return -2, p;
    }
    q := p + [(0xc0 + ref / 256) as byte, (ref % 256) as byte];
    PutBytes(buf, j, [(0xc0 + ref / 256) as byte, (ref % 256) as byte], p);
    r := j + 2;
  }

  // The labels read so far, with those still to come.
  function Prepended(ls: seq<Bytes>, o: Option<seq<Bytes>>): Option<seq<Bytes>> {
    match o
    case None => None
    case Some(ms) => Some(ls + ms)
  }

  lemma PrependedOne(ls: seq<Bytes>, l: Bytes, o: Option<seq<Bytes>>)
    ensures Prepended(ls, Prepended([l], o)) == Prepended(ls + [l], o)
  {
    if o.Some? {
      assert ls + ([l] + o.value) == (ls + [l]) + o.value;
    }
  }

  // A name that is already as long as the room for it is too long as a whole.
  ghost predicate TooLong(o: Option<seq<Bytes>>, outLen: nat) {
    o.Some? ==> |Join(o.value)| >= outLen
  }

  lemma RestTooLong(ls: seq<Bytes>, l: Bytes, o: Option<seq<Bytes>>, outLen: nat)
    requires |Join(ls)| + (if ls == [] then 0 else 1) + |l| >= outLen
    ensures TooLong(Prepended(ls, Prepended([l], o)), outLen)
  {
    if o.Some? {
      var ms := [l] + o.value;
      JoinLonger(ls, ms);
    }
  }

  // What is read from a label on.
  lemma ParsedLabel(p: Bytes, j: nat, n: nat)
    requires j < |p| && 0 < p[j] < 64
    ensures var len := p[j] as nat;
            Parsed(p, j, n) == if j + 1 + len > |p| then None
                               else Prepended([p[j + 1..j + 1 + len]], Parsed(p, j + 1 + len, n))
    ensures NameEnd(p, j) == NameEnd(p, j + 1 + p[j] as nat)
  {
  }

  // name_parse: reads the name at idx of a packet. It ends for every packet, as no more pointers
  // are followed than the packet has bytes.
  method NameParse(p: Bytes, idx: nat, outLen: nat) returns (r: int, name: Bytes, end: nat)
    ensures r == 0 || r == -1
    ensures r == 0 <==> Parsed(p, idx, |p|).Some? && |Join(Parsed(p, idx, |p|).value)| < outLen
    ensures r == 0 ==> name == Join(Parsed(p, idx, |p|).value) && end == NameEnd(p, idx)
  {
    hide Join, NameEnd;
    ghost var all := Parsed(p, idx, |p|);
    ghost var ls: seq<Bytes> := [];
    var j: nat, ptrCount: nat, nameEnd: int := idx, 0, -1;
    name, end := [], 0;
    JoinNothing();
    PrependedNone(all);
    while true
      invariant ptrCount <= |p| && all == Prepended(ls, Parsed(p, j, |p| - ptrCount))
      invariant name == Join(ls) && (name == [] <==> ls == [])
      invariant if nameEnd < 0 then NameEnd(p, idx) == NameEnd(p, j) else nameEnd == NameEnd(p, idx)
      decreases |p| - ptrCount, |p| - j
    {
      if j >= |p| {
        return -1, [], 0;
      }
      var labelLen := p[j] as nat;
      EndsHere(p, j);
      if labelLen == 0 {
        j := j + 1;
        break;
      }
      if labelLen >= 64 {
        if j + 1 >= |p| {
          return -1, [], 0;
        }
        if nameEnd < 0 {
          nameEnd := j + 2;
        }
        j := Target(p, j);
        if j >= |p| {
          return -1, [], 0;
        }
        if ptrCount + 1 > |p| {
          return -1, [], 0;
        }
        ptrCount := ptrCount + 1;
        continue;
      }
      ParsedLabel(p, j, |p| - ptrCount);
      if j + 1 + labelLen > |p| {
        return -1, [], 0;
      }
      ghost var l := p[j + 1..j + 1 + labelLen];
      var dot := if name != [] then [DOT] else [];
      if |name| + |dot| + labelLen >= outLen {
        RestTooLong(ls, l, Parsed(p, j + 1 + labelLen, |p| - ptrCount), outLen);
        return -1, [], 0;
      }
      PrependedOne(ls, l, Parsed(p, j + 1 + labelLen, |p| - ptrCount));
      JoinMore(ls, l);
      name := name + dot + p[j + 1..j + 1 + labelLen];
      ls := ls + [l];
      j := j + 1 + labelLen;
    }
    assert ls + [] == ls;
    if |name| >= outLen {
      return -1, [], 0;
    }
    return 0, name, if nameEnd < 0 then j else nameEnd;
  }

  lemma PrependedNone(o: Option<seq<Bytes>>)
    ensures Prepended([], o) == o
  {
    if o.Some? {
      assert [] + o.value == o.value;
    }
  }

  lemma JoinNothing()
    ensures Join([]) == []
  {
  }

  lemma EndsHere(p: Bytes, j: nat)
    requires j < |p|
    ensures p[j] == 0 ==> NameEnd(p, j) == j + 1
    ensures p[j] >= 64 ==> NameEnd(p, j) == j + 2
  {
  }

  // What name_parse makes of a name that dnsname_to_labels has put into a message: the name itself
  // exactly if it has no empty label and does not end in a dot.
  lemma NameComesBack(q: Bytes, j0: nat, name: Bytes)
    requires Readable(q, j0, name) && j0 <= |q|
    ensures Parsed(q, j0, |q|) == Some(UpToEmpty(Labels(name)))
    ensures Join(Parsed(q, j0, |q|).value) == name <==> Good(name) && !EndsInDot(name)
  {
    var end: nat :| end <= |q| && Denotes(q, j0, j0, UpToEmpty(Labels(name)), end);
    DenotesParsed(q, j0, j0, UpToEmpty(Labels(name)), end, |q|);
    ReadBack(name);
  }

  // The place where each of the names was put can be read.
  ghost predicate AllDenoted(q: Bytes, names: seq<Bytes>, starts: seq<nat>) {
    && |starts| == |names| + 1 && starts[|names|] == |q|
    && forall i :: 0 <= i < |names| ==> Denotes(q, starts[i], starts[i], Labels(names[i]), starts[i + 1])
  }

  lemma DenotedMore(p: Bytes, q: Bytes, names: seq<Bytes>, starts: seq<nat>, name: Bytes)
    requires AllDenoted(p, names, starts) && p <= q && Denotes(q, |p|, |p|, Labels(name), |q|)
    ensures AllDenoted(q, names + [name], starts + [|q|])
  {
    hide Denotes, Labels;
    var ns, ss := names + [name], starts + [|q|];
    forall i | 0 <= i < |ns|
      ensures Denotes(q, ss[i], ss[i], Labels(ns[i]), ss[i + 1])
    {
      if i < |names| {
        assert ns[i] == names[i] && ss[i] == starts[i] && ss[i + 1] == starts[i + 1];
        DenotesExtended(p, q, starts[i], starts[i], Labels(names[i]), starts[i + 1]);
      }
    }
  }

  // As many bytes as names can take.
  function Room(names: seq<Bytes>): nat {
    if names == [] then 0 else Room(names[..|names| - 1]) + |names[|names| - 1]| + 2
  }

  lemma {:induction false} RoomPrefix(names: seq<Bytes>, i: nat)
    requires i <= |names|
    ensures Room(names[..i]) <= Room(names)
  {
    if i == |names| {
      assert names[..i] == names;
    } else {
      RoomPrefix(names[..|names| - 1], i);
      assert names[..|names| - 1][..i] == names[..i];
    }
  }

  // Names put one after the other into one message with one table: each can be read where it was
  // put, and ends where the next one begins.
  method PutNames(buf: array<byte>, bufLen: nat, names: seq<Bytes>, table: LabelTable?)
    returns (r: int, ghost q: Bytes, starts: seq<nat>)
    requires bufLen < buf.Length && bufLen <= 0x4000
    requires forall name <- names :: 0 !in name && Good(name) && !EndsInDot(name)
    requires table != null ==> table.labels == []
    modifies buf, table
    ensures r == 0 || r == -1 || r == -2
    ensures Room(names) <= bufLen && (forall name <- names :: |name| <= 255 && Short(name)) ==> r == 0
    ensures r == 0 ==> BeginsWith(buf, q) && |starts| == |names| + 1
    ensures r == 0 ==> forall i :: 0 <= i < |names| ==>
                         && Parsed(q, starts[i], |q|).Some?
                         && Join(Parsed(q, starts[i], |q|).value) == names[i]
                         && NameEnd(q, starts[i]) == starts[i + 1]
  {
    hide Denotes, Parsed, NameEnd, Join, TableOk, Near, Written, Short, Readable, Labels, Good, Entries, Stored;
    starts, q := [0], [];
    NothingInTable();
    for i := 0 to |names|
      invariant |q| <= bufLen && BeginsWith(buf, q) && AllDenoted(q, names[..i], starts) && |q| <= Room(names[..i])
      invariant table != null ==> TableOk(q, table.labels) && Near(table.labels)
    {
      var j := starts[i];
      assert names[i] in names;
      assert buf[..j] == q;
      RoomPrefix(names, i + 1);
      assert names[..i + 1][..i] == names[..i];
      WrittenInside(if table == null then [] else table.labels, names[i], j, bufLen);
      ghost var p := q;
      r, q := DnsnameToLabels(buf, bufLen, j, names[i], table);
      if r < 0 {
        return;
      }
      DenotedMore(p, q, names[..i], starts, names[i]);
      assert names[..i + 1] == names[..i] + [names[i]];
      starts := starts + [r];
      if r > bufLen {
        return -2, q, starts;
      }
    }
    r := 0;
    assert names[..|names|] == names;
    AllRead(q, names, starts);
  }

  // Each of the names comes back where it was put.
  lemma AllRead(q: Bytes, names: seq<Bytes>, starts: seq<nat>)
    requires AllDenoted(q, names, starts) && forall name <- names :: Good(name) && !EndsInDot(name)
    ensures |starts| == |names| + 1
    ensures forall i :: 0 <= i < |names| ==>
              && Parsed(q, starts[i], |q|).Some?
              && Join(Parsed(q, starts[i], |q|).value) == names[i]
              && NameEnd(q, starts[i]) == starts[i + 1]
  {
    hide Denotes, Parsed, NameEnd, Join;
    forall i | 0 <= i < |names|
      ensures Parsed(q, starts[i], |q|) == Some(Labels(names[i])) && Join(Labels(names[i])) == names[i]
      ensures NameEnd(q, starts[i]) == starts[i + 1]
    {
      StartInside(q, starts[i], Labels(names[i]), starts[i + 1]);
      DenotesParsed(q, starts[i], starts[i], Labels(names[i]), starts[i + 1], |q|);
      assert names[i] in names;
      JoinLabels(names[i]);
      assert names[i] + [] == names[i];
    }
  }

  lemma StartInside(q: Bytes, pos: nat, ls: seq<Bytes>, end: nat)
    requires Denotes(q, pos, pos, ls, end)
    ensures pos < |q|
  {
  }

  lemma NothingInTable()
    ensures TableOk([], []) && Near([])
  {
  }
}
