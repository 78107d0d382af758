/**
  Tagged data in evbuffers (common/libevent/event_tagging.c).
  */
module EvTags {
  import opened Options
  import opened Sequences
  import opened Pieces
  import opened Chains
  import opened TagCodes
  import opened EvBufferRuns
  import Ev = EvBuffer

  const INT_MAX: nat := 0x7fff_ffff

  // The bytes without the first n, unless the start of the buffer is frozen: evbuffer_drain does nothing then.
  function Drained(t: Bytes, n: nat, frozen: bool): Bytes {
    if frozen || n > |t| then t else t[n..]
  }

  // The other buffer was not touched.
  twostate predicate Untouched(y: Ev.EvBuffer)
    reads y, y.view.chains
  {
    SideOf(y) == old(SideOf(y)) && forall n: nat :: y.Fails(y.view, n) == old(y.Fails(y.view, n))
  }

  lemma BothValid(x: Ev.EvBuffer, y: Ev.EvBuffer)
    requires Paired(x, y)
    ensures x.Valid() && y.Valid()
  {
    hide Ev.EvBuffer.Valid;
  }

  // evbuffer_add.
  method Put(x: Ev.EvBuffer, y: Ev.EvBuffer, bytes: Bytes) returns (ok: bool)
    requires Paired(x, y)
    modifies x, Writable(x.view.chains)
    ensures Paired(x, y) && NewOnly(x, y) && SideOf(y) == old(SideOf(y))
    ensures ok <==> !old(x.Fails(x.view, |bytes|))
    ensures SideOf(x) == old(SideOf(x)).(bytes := old(x.Contents()) + if ok then bytes else [])
  {
    hide Compact, Concat, Sized, Separate, Writable, Ev.EvBuffer.DisjointFrom, Ev.EvBuffer.Valid, Ev.EvBuffer.Fails;
    NotTouched(x, y);
    x.SourceFacts();
    var r := x.Add(bytes);
    ok := r == 0;
    x.KeepsApart(y);
    x.GrownSized();
  }

  lemma PutSucceeds(x: Ev.EvBuffer, y: Ev.EvBuffer, n: nat)
    requires Ready(x, y) && |x.Contents()| + n <= CHAIN_LIMIT
    ensures !x.Fails(x.view, n)
  {
    hide Concat, Sized, Ev.EvBuffer.Valid, Ev.EvBuffer.Fails;
    x.Succeeds(x.view, n);
  }

  // evbuffer_drain.
  method Drop(x: Ev.EvBuffer, y: Ev.EvBuffer, n: nat)
    requires Paired(x, y) && n <= |x.Contents()|
    modifies x, Writable(x.view.chains)
    ensures Paired(x, y) && NewOnly(x, y) && Untouched(y)
    ensures SideOf(x) == old(SideOf(x)).(bytes := Drained(old(x.Contents()), n, x.freezeStart))
  {
    hide Paired, NewOnly, Writable, Ev.EvBuffer.Contents, Ev.EvBuffer.Fails;
    NotTouched(x, y);
    DoDrain(x, y, n, []);
    y.StillEither();
    assert SideOf(x) == Value(x, y, []).x && SideOf(y) == Value(x, y, []).y;
  }

  // evbuffer_remove.
  method TakeOut(x: Ev.EvBuffer, y: Ev.EvBuffer, n: nat) returns (bytes: Bytes)
    requires Ready(x, y)
    modifies x, Writable(x.view.chains)
    ensures Ready(x, y) && NewOnly(x, y) && y.Contents() == old(y.Contents())
    ensures bytes + x.Contents() == old(x.Contents()) && |bytes| == Min(n, |old(x.Contents())|)
  {
    hide Paired, NewOnly, Writable, Ev.EvBuffer.Contents;
    ghost var s := x.Contents();
    bytes := DoRemove(x, y, n, []);
    ghost var value := Value(x, y, [] + bytes);
    assert SideOf(x) == value.x && SideOf(y) == value.y && value.out == bytes;
    assert [] + Upto(s, Min(n, |s|)) == s[..Min(n, |s|)];
  }

  // A pointer to the first n bytes.
  method Peek(x: Ev.EvBuffer, y: Ev.EvBuffer, n: nat) returns (data: Option<Bytes>)
    requires Paired(x, y) && n <= CHAIN_LIMIT
    modifies x, Writable(x.view.chains)
    ensures Paired(x, y) && NewOnly(x, y) && SideOf(x) == old(SideOf(x)) && Untouched(y)
    ensures data.Some? ==> 0 < n <= |x.Contents()| && data.value == x.Contents()[..n]
    ensures data.None? ==> n == 0 || n > |x.Contents()| || x.scarce
  {
    hide Compact, Concat, Sized, Separate, Writable, Ev.EvBuffer.Valid;
    NotTouched(x, y);
    var found := x.Pullup(n);
    y.StillEither();
    x.KeepsApart(y);
    x.GrownSized();
    if found {
      data := Some(x.first.buffer[x.first.misalign..x.first.misalign + n]);
      assert data.value == x.Contents()[..n];
    } else {
      data := None;
    }
  }

  // evtag_marshal. code is how the length is put.
  method Marshal(x: Ev.EvBuffer, y: Ev.EvBuffer, tag: nat, payload: Bytes) returns (ghost code: Bytes)
    requires Ready(x, y) && tag < TWO_32 && |payload| < TWO_32 && |x.Contents()| + |payload| + 10 <= CHAIN_LIMIT
    modifies x, Writable(x.view.chains), Writable(y.view.chains)
    ensures Ready(x, y) && NewOnly(x, y) && y.Contents() == old(y.Contents())
    ensures Codes(code, |payload|, 8) && |code| <= 5 && |TagBytes(tag)| <= 5
    ensures x.Contents() == old(x.Contents()) + TagBytes(tag) + code + payload
  {
    hide Paired, Codes, TagBytes, Writable, Ev.EvBuffer.Contents;
    Power16Is();
    TagBack(tag, 0, []);
    NibblesBound(|payload|, 8);
    label before:
    var data := EncodeTag(tag);
    var len := EncodeInt(|payload|, 4);
    StillPaired@before((x, y));
    code := len;
    PutThree(x, y, data, len, payload);
  }

  // What does not change the buffers keeps them as they are.
  twostate lemma StillPaired(both: (Ev.EvBuffer, Ev.EvBuffer))
    requires var (x, y) := both;
             && old(Paired(x, y)) && unchanged(x) && unchanged(y)
             && (forall c <- x.view.chains :: unchanged(c) && unchanged(c.buffer))
             && (forall c <- y.view.chains :: unchanged(c) && unchanged(c.buffer))
    ensures Paired(both.0, both.1) && SideOf(both.0) == old(SideOf(both.0)) && Untouched(both.1)
  {
    hide Compact, Concat, Sized, Separate, Writable, Ev.EvBuffer.Valid, Ev.EvBuffer.Fails;
    var (x, y) := both;
    x.StillValid();
    y.StillEither();
  }

  method PutThree(x: Ev.EvBuffer, y: Ev.EvBuffer, a: Bytes, b: Bytes, c: Bytes)
    requires Ready(x, y) && |x.Contents()| + |a| + |b| + |c| <= CHAIN_LIMIT
    modifies x, Writable(x.view.chains), Writable(y.view.chains)
    ensures Ready(x, y) && NewOnly(x, y) && y.Contents() == old(y.Contents())
    ensures x.Contents() == old(x.Contents()) + a + b + c
  {
    hide Paired, Ev.EvBuffer.Contents, Ev.EvBuffer.Fails;
    PutSucceeds(x, y, |a|);
    var ok := Put(x, y, a);
    PutSucceeds(x, y, |b|);
    ok := Put(x, y, b);
    PutSucceeds(x, y, |c|);
    ok := Put(x, y, c);
  }

  // What evtag_unmarshal_header makes of bytes: the place behind what it has read, and the tag and
  // the length if both are there and the payload as well.
  datatype Header = NoTag | NoLength(n: nat) | NoPayload(n: nat) | Header(tag: nat, len: nat, n: nat)

  // If the start of the buffer is frozen the tag is not drained, and the length is read where it is.
  function HeaderOf(t: Bytes, frozen: bool): (h: Header)
    ensures h.Header? ==> h.len <= |Drained(t, h.n, frozen)| && h.len < TWO_32
    ensures !h.NoTag? && !frozen ==> 0 < h.n <= |t|
  {
    match TagOf(t, 0)
    case None => NoTag
    case Some((tag, n)) =>
      TagInside(t, 0);
      var u := Drained(t, n, frozen);
      IntBound(u, 8);
      Power16Is();
      match IntOf(u, 8)
      case None => NoLength(n)
      case Some((len, m)) => if |Drained(u, m, frozen)| < len then NoPayload(n + m) else Header.Header(tag, len, n + m)
  }

  lemma {:induction false} TagInside(t: Bytes, i: nat)
    ensures TagOf(t, i).Some? ==> 0 < TagOf(t, i).value.1 <= |t|
    decreases |t|
  {
    if t != [] && t[0] >= 0x80 {
      TagInside(t[1..], i + 1);
    }
  }

  // A tag has five bytes at most.
  lemma {:induction false} TagLocal(t: Bytes, i: nat, n: nat)
    requires i <= 5 && n + i >= 5 && n <= |t|
    ensures TagOf(t[..n], i) == TagOf(t, i)
    decreases |t|
  {
    if i < 5 && t[0] >= 0x80 {
      TagLocal(t[1..], i + 1, n - 1);
      assert t[..n][1..] == t[1..][..n - 1];
    }
  }

  lemma IntLocal(t: Bytes, n: nat, maxNibbles: nat)
    requires t != [] && n <= |t| && n == (t[0] as nat / 0x10 + 1) / 2 + 1
    ensures IntOf(t[..n], maxNibbles) == IntOf(t, maxNibbles)
  {
    var k := t[0] as nat / 0x10 + 1;
    if k <= maxNibbles {
      assert forall i :: 0 < i <= k ==> Nibble(t[..n], i) == Nibble(t, i);
      FoldedSame(t[..n], t, k, 0);
    }
  }

  // evtag_decode_tag. Without memory evbuffer_pullup may fail.
  method DecodeTagOf(x: Ev.EvBuffer, y: Ev.EvBuffer) returns (r: int, tag: nat)
    requires Paired(x, y)
    modifies x, Writable(x.view.chains), Writable(y.view.chains)
    ensures Paired(x, y) && NewOnly(x, y) && x.Same() && Untouched(y)
    ensures match TagOf(old(x.Contents()), 0)
            case None => r == -1 && x.Contents() == old(x.Contents())
            case Some((v, n)) =>
              || (r == n && tag == v && n <= |old(x.Contents())| && x.Contents() == Drained(old(x.Contents()), n, x.freezeStart))
              || (x.scarce && r == -1 && x.Contents() == old(x.Contents()))
  {
    hide Paired, TagOf, Ev.EvBuffer.Contents, Ev.EvBuffer.Fails;
    ghost var t := x.Contents();
    LengthIs(x, y);
    var len := x.totalLen;
    var n := if len < 5 then len else 5;
    TagInside(t, 0);
    TagShort(t, n);
    var data := Peek(x, y, n);
    if data.None? {
      return -1, 0;
    }
    label before:
    var count, number;
    ghost var read;
    count, number, read := TagFrom(data.value, len, t);
    StillPaired@before((x, y));
    if count == 0 {
      return -1, 0;
    }
    Drop(x, y, count);
    r, tag := count, number;
  }

  lemma TagShort(t: Bytes, n: nat)
    requires n == if |t| < 5 then |t| else 5
    ensures TagOf(t[..n], 0) == TagOf(t, 0) && (n == 0 ==> TagOf(t, 0) == None)
  {
    if |t| < 5 {
      assert t[..n] == t;
    } else {
      TagLocal(t, 0, n);
    }
  }

  lemma LengthIs(x: Ev.EvBuffer, y: Ev.EvBuffer)
    requires Paired(x, y)
    ensures x.totalLen == |x.Contents()|
  {
    hide Compact, Concat, Sized, Separate, Writable;
  }

  // evtag_decode_int and evtag_decode_int64: eight nibbles at most, or sixteen.
  method DecodeIntOf(x: Ev.EvBuffer, y: Ev.EvBuffer, maxNibbles: nat) returns (r: int, number: nat)
    requires Paired(x, y) && (maxNibbles == 8 || maxNibbles == 16)
    modifies x, Writable(x.view.chains), Writable(y.view.chains)
    ensures Paired(x, y) && NewOnly(x, y) && x.Same() && Untouched(y)
    ensures match IntOf(old(x.Contents()), maxNibbles)
            case None => r == -1 && x.Contents() == old(x.Contents())
            case Some((v, n)) =>
              || (r == 0 && number == v && n <= |old(x.Contents())| && x.Contents() == Drained(old(x.Contents()), n, x.freezeStart))
              || (x.scarce && r == -1 && x.Contents() == old(x.Contents()))
  {
    hide Paired, Nibble, Ev.EvBuffer.Contents, Ev.EvBuffer.Fails;
    var len;
    len, number := PeekInt(x, y, maxNibbles);
    if len != -1 {
      Drop(x, y, len);
    }
    r := if len == -1 then -1 else 0;
  }

  // decode_int_internal and decode_int64_internal at the front of a buffer: the number of bytes of the
  // integer.
  method PeekInt(x: Ev.EvBuffer, y: Ev.EvBuffer, maxNibbles: nat) returns (r: int, number: nat)
    requires Paired(x, y) && (maxNibbles == 8 || maxNibbles == 16)
    modifies x, Writable(x.view.chains), Writable(y.view.chains)
    ensures Paired(x, y) && NewOnly(x, y) && SideOf(x) == old(SideOf(x)) && Untouched(y)
    ensures match IntOf(old(x.Contents()), maxNibbles)
            case None => r == -1
            case Some((v, n)) => (r == n && number == v && n <= |old(x.Contents())|) || (x.scarce && r == -1)
  {
    hide Paired, Nibble, Ev.EvBuffer.Contents, Ev.EvBuffer.Fails;
    ghost var t := x.Contents();
    LengthIs(x, y);
    var len := x.totalLen;
    var first := Peek(x, y, 1);
    if first.None? {
      return -1, 0;
    }
    var nibbles := first.value[0] as nat / 0x10 + 1;
    if nibbles > maxNibbles || nibbles / 2 + 1 > len {
      return -1, 0;
    }
    len := nibbles / 2 + 1;
    var data := Peek(x, y, len);
    if data.None? {
      return -1, 0;
    }
    IntLocal(t, len, maxNibbles);
    label before:
    r, number := DecodeInt(data.value, maxNibbles);
    StillPaired@before((x, y));
  }

  // Nothing else may be written than before, but new memory.
  twostate lemma StillWritable(both: (Ev.EvBuffer, Ev.EvBuffer))
    requires NewOnly(both.0, both.1)
    ensures forall o: object :: o in Writable(both.0.view.chains) || o in Writable(both.1.view.chains) ==>
              o in old(Writable(both.0.view.chains)) || o in old(Writable(both.1.view.chains)) || fresh(o)
  {
  }

  // What the tag and the length that are read say about the header.
  lemma HeaderIs(t: Bytes, frozen: bool)
    ensures TagOf(t, 0).None? ==> HeaderOf(t, frozen) == NoTag
    ensures TagOf(t, 0).Some? ==>
              var (tag, n) := TagOf(t, 0).value;
              var u := Drained(t, n, frozen);
              && 0 < n <= |t|
              && (IntOf(u, 8).None? ==> HeaderOf(t, frozen) == NoLength(n))
              && (IntOf(u, 8).Some? ==>
                    var (len, m) := IntOf(u, 8).value;
                    && m <= |u| && Drained(u, m, frozen) == Drained(t, n + m, frozen)
                    && HeaderOf(t, frozen) == if |Drained(u, m, frozen)| < len then NoPayload(n + m)
                                              else Header.Header(tag, len, n + m))
  {
    TagInside(t, 0);
    if TagOf(t, 0).Some? {
      IntBound(Drained(t, TagOf(t, 0).value.1, frozen), 8);
    }
    Power16Is();
    hide TagOf, IntOf;
  }

  // The part of evtag_unmarshal_header behind the tag: the length, if all its bytes are there.
  method UnmarshalLength(x: Ev.EvBuffer, y: Ev.EvBuffer) returns (r: int)
    requires Paired(x, y)
    modifies x, Writable(x.view.chains), Writable(y.view.chains)
    ensures Paired(x, y) && NewOnly(x, y) && x.Same() && Untouched(y)
    ensures match IntOf(old(x.Contents()), 8)
            case None => r == -1 && x.Contents() == old(x.Contents())
            case Some((len, m)) =>
              var u := Drained(old(x.Contents()), m, x.freezeStart);
              || (m <= |old(x.Contents())| && x.Contents() == u && r == if |u| < len then -1 else Ev.AsInt(len))
              || (x.scarce && r == -1 && x.Contents() == old(x.Contents()))
  {
    hide Paired, IntOf, Writable, NewOnly, Ev.EvBuffer.Contents, Ev.EvBuffer.Fails;
    var n, len := DecodeIntOf(x, y, 8);
    if n == -1 {
      return -1;
    }
    LengthIs(x, y);
    if x.totalLen < len {
      return -1;
    }
    r := Ev.AsInt(len);
  }

  // What is left behind the header, or the part of it that is gone when memory runs out.
  function AfterHeader(t: Bytes, frozen: bool): Bytes {
    var h := HeaderOf(t, frozen);
    if h.NoTag? then t else Drained(t, h.n, frozen)
  }

  ghost predicate GaveUp(t: Bytes, frozen: bool, left: Bytes) {
    left == t || left == AfterHeader(t, frozen) || (TagOf(t, 0).Some? && left == Drained(t, TagOf(t, 0).value.1, frozen))
  }

  // Nothing is drained if the start is frozen; if not, a header is drained when it could be read.
  lemma LeftAfter(t: Bytes, frozen: bool)
    ensures var h, u := HeaderOf(t, frozen), AfterHeader(t, frozen);
            && (frozen ==> u == t && Drained(u, if h.Header? then h.len else 0, true) == t)
            && (!frozen && h.Header? ==> |Drained(u, h.len, false)| <= |u| < |t|)
    ensures frozen ==> forall left :: GaveUp(t, frozen, left) ==> left == t
  {
    hide TagOf;
  }

  // evtag_unmarshal_header. The length is answered as an int.
  method UnmarshalHeader(x: Ev.EvBuffer, y: Ev.EvBuffer) returns (r: int, tag: nat)
    requires Paired(x, y)
    modifies x, Writable(x.view.chains), Writable(y.view.chains)
    ensures Paired(x, y) && NewOnly(x, y) && x.Same() && Untouched(y)
    ensures var t := old(x.Contents());
            var h := HeaderOf(t, x.freezeStart);
            || (x.Contents() == AfterHeader(t, x.freezeStart)
                && if h.Header? then r == Ev.AsInt(h.len) && tag == h.tag else r == -1)
            || (x.scarce && r == -1 && GaveUp(t, x.freezeStart, x.Contents()))
  {
    hide Paired, TagOf, IntOf, HeaderOf, Writable, Ev.EvBuffer.Contents, Drained, Ev.EvBuffer.Fails;
    ghost var t := x.Contents();
    HeaderIs(t, x.freezeStart);
    var count;
    count, tag := DecodeTagOf(x, y);
    if count == -1 {
      return -1, 0;
    }
    StillWritable((x, y));
    r := UnmarshalLength(x, y);
  }

  // evbuffer_pullup of the payload and evbuffer_add of what it answers, which is a null pointer if it fails:
  // the program ends if evbuffer_add goes as far as copying from it.
  method AddPayload(x: Ev.EvBuffer, y: Ev.EvBuffer, n: nat) returns (ok: bool, died: bool)
    requires Paired(x, y) && n <= |x.Contents()| && n <= CHAIN_LIMIT
    modifies x, y, Writable(x.view.chains), Writable(y.view.chains)
    ensures Paired(x, y) && NewOnly(x, y) && SideOf(x) == old(SideOf(x))
    ensures SideOf(y) == old(SideOf(y)).(bytes := old(y.Contents()) + if ok then x.Contents()[..n] else [])
    ensures ok || died <==> !old(y.Fails(y.view, n))
    ensures died ==> !ok && x.scarce && n > 0
  {
    hide Paired, Writable, Ev.EvBuffer.Contents, Ev.EvBuffer.Fails;
    died := false;
    var data := Peek(x, y, n);
    StillWritable((x, y));
    PairedToo(x, y);
    BothValid(x, y);
    if data.None? && n > 0 {
      label before:
      var no := y.Refuses(n);
      StillPaired@before((x, y));
      return false, !no;
    }
    ok := Put(y, x, if data.Some? then data.value else []);
    PairedToo(y, x);
  }

  // evbuffer_pullup for a negative size, which stands for all bytes.
  method PullAll(x: Ev.EvBuffer, y: Ev.EvBuffer, size: int) returns (found: bool)
    requires Paired(x, y) && size < 0
    modifies x, Writable(x.view.chains)
    ensures Paired(x, y) && NewOnly(x, y) && SideOf(x) == old(SideOf(x)) && Untouched(y)
  {
    hide Compact, Concat, Sized, Separate, Writable, Ev.EvBuffer.Valid, Ev.EvBuffer.Fails;
    NotTouched(x, y);
    found := x.Pullup(size);
    y.StillEither();
    x.KeepsApart(y);
    x.GrownSized();
  }

  // The payload that evtag_unmarshal moves: there is one, and its length fits into an int.
  predicate Moves(h: Header) {
    h.Header? && h.len <= INT_MAX
  }

  // evtag_unmarshal: the payload of the first record goes behind the bytes of y. A length that does not
  // fit into an int is answered as a negative one: the header is gone then, and the payload stays; so it is
  // if y refuses the payload. If memory runs out the parts read so far may be gone, or the program ends.
  method Unmarshal(x: Ev.EvBuffer, y: Ev.EvBuffer) returns (r: int, tag: nat, died: bool)
    requires Paired(x, y)
    modifies x, y, Writable(x.view.chains), Writable(y.view.chains)
    ensures Paired(x, y) && NewOnly(x, y) && x.Same() && y.Same()
    ensures var t, frozen := old(x.Contents()), x.freezeStart;
            var h, u := HeaderOf(t, frozen), AfterHeader(t, frozen);
            || (Moves(h) && !old(y.Fails(y.view, h.len)) && !died && r == h.len && tag == h.tag
                && x.Contents() == Drained(u, h.len, frozen) && y.Contents() == old(y.Contents()) + u[..h.len])
            || (!(Moves(h) && !old(y.Fails(y.view, h.len))) && !died && r == -1
                && x.Contents() == u && y.Contents() == old(y.Contents()))
            || (x.scarce && r == -1 && GaveUp(t, frozen, x.Contents()) && y.Contents() == old(y.Contents())
                && (died ==> Moves(h) && h.len > 0 && !old(y.Fails(y.view, h.len))))
    ensures x.freezeStart ==> x.Contents() == old(x.Contents())
    ensures r >= 0 && !x.freezeStart ==> |x.Contents()| < |old(x.Contents())|
  {
    hide Paired, HeaderOf, Drained, Writable, Ev.EvBuffer.Contents, Ev.EvBuffer.Fails;
    ghost var t := x.Contents();
    LeftAfter(t, x.freezeStart);
    died := false;
    r, tag := UnmarshalHeader(x, y);
    if r == -1 {
      return;
    }
    StillWritable((x, y));
    if r < 0 {
      // evbuffer_add refuses the size that this is taken for.
      var data := PullAll(x, y, r);
      return -1, tag, false;
    }
    var ok;
    ok, died := AddPayload(x, y, r);
    if !ok {
      return -1, tag, died;
    }
    StillWritable((x, y));
    Drop(x, y, r);
  }

  const HELD: Bytes := [1, 2, 9, 9]

  lemma HeldHeader()
    ensures HeaderOf(HELD, false) == Header.Header(1, 2, 2) && HeaderOf(HELD, true) == Header.Header(1, 1, 2)
    ensures |HELD| == 4 && AfterHeader(HELD, true) == HELD && Drained(HELD, 1, true) == HELD && [] + HELD[..1] == [1]
  {
    assert HELD[1..] == [2, 9, 9];
    assert Folded(HELD, 1, 0) == Folded(HELD, 0, 1) && Folded(HELD[1..], 1, 0) == Folded(HELD[1..], 0, 2);
  }

  // A record of two bytes with tag 1 at the start of a buffer that is frozen. The tag cannot be drained, so its
  // byte is taken for the length and for the payload as well; no failure is answered.
  method FrozenRecord() returns (x: Ev.EvBuffer, y: Ev.EvBuffer, r: int, tag: nat, died: bool)
    ensures !died && r == 1 && tag == 1 && x.Contents() == HELD && y.Contents() == [1]
  {
    hide Paired, HeaderOf, AfterHeader, Drained, GaveUp, HELD, Ev.EvBuffer.Contents, Ev.EvBuffer.Fails;
    var out;
    x, y, out := Start();
    assert SideOf(x) == Value(x, y, out).x && SideOf(y) == Value(x, y, out).y;
    PutSucceeds(x, y, 4);
    assert |HELD| == 4 && [] + HELD == HELD by {
      HeldHeader();
    }
    var ok := Put(x, y, HELD);
    DoFreeze(x, y, true, true, []);
    assert SideOf(x) == Value(x, y, []).x && SideOf(y) == Value(x, y, []).y;
    HeldHeader();
    PutOne(x, y);
    r, tag, died := Unmarshal(x, y);
  }

  lemma PutOne(x: Ev.EvBuffer, y: Ev.EvBuffer)
    requires Paired(x, y) && Plain(y) && y.Contents() == []
    ensures !y.Fails(y.view, 1)
  {
    hide Concat, Ev.EvBuffer.Valid, Ev.EvBuffer.Fails;
    y.Succeeds(y.view, 1);
  }

  lemma ReadyToo(x: Ev.EvBuffer, y: Ev.EvBuffer)
    requires Ready(x, y)
    ensures Ready(y, x)
  {
    hide Paired;
    PairedToo(x, y);
  }

  datatype Record = Record(tag: nat, payload: Bytes)

  predicate Storable(r: Record) {
    r.tag < TWO_32 && |r.payload| < TWO_32
  }

  // The bytes of records, with the codes of their lengths.
  function Stream(rs: seq<Record>, codes: seq<Bytes>): Bytes
    requires |codes| == |rs|
  {
    if rs == [] then [] else TagBytes(rs[0].tag) + codes[0] + rs[0].payload + Stream(rs[1..], codes[1..])
  }

  ghost predicate Coded(rs: seq<Record>, codes: seq<Bytes>) {
    |codes| == |rs| && forall i :: 0 <= i < |rs| ==> Storable(rs[i]) && Codes(codes[i], |rs[i].payload|, 8)
  }

  lemma {:induction false} StreamMore(rs: seq<Record>, codes: seq<Bytes>, r: Record, code: Bytes)
    requires |codes| == |rs|
    ensures Stream(rs + [r], codes + [code]) == Stream(rs, codes) + TagBytes(r.tag) + code + r.payload
  {
    hide TagBytes;
    var ss, ds := rs + [r], codes + [code];
    if rs == [] {
      assert ss[1..] == [] && ds[1..] == [];
    } else {
      assert ss[1..] == rs[1..] + [r] && ds[1..] == codes[1..] + [code];
      StreamMore(rs[1..], codes[1..], r, code);
      assert Stream(ss, ds) == TagBytes(rs[0].tag) + codes[0] + rs[0].payload + Stream(ss[1..], ds[1..]);
      hide Stream;
      Moved(TagBytes(rs[0].tag) + codes[0] + rs[0].payload, Stream(rs[1..], codes[1..]), TagBytes(r.tag), code, r.payload);
    }
  }

  lemma Moved(a: Bytes, s: Bytes, b: Bytes, c: Bytes, d: Bytes)
    ensures a + (s + b + c + d) == (a + s) + b + c + d
  {
  }

  // The header of the first record is read back.
  lemma RecordBack(rs: seq<Record>, codes: seq<Bytes>)
    requires Coded(rs, codes) && rs != []
    ensures var h, t := HeaderOf(Stream(rs, codes), false), Stream(rs, codes);
            && h == Header.Header(rs[0].tag, |rs[0].payload|, |TagBytes(rs[0].tag)| + |codes[0]|)
            && t[h.n..h.n + h.len] == rs[0].payload && t[h.n + h.len..] == Stream(rs[1..], codes[1..])
  {
    var a, b, c, d := TagBytes(rs[0].tag), codes[0], rs[0].payload, Stream(rs[1..], codes[1..]);
    hide TagBytes, Stream, TagOf, IntOf, HeaderOf, Codes;
    StreamFirst(rs, codes);
    InOrder(a, b, c, d);
    CodeBack(b, |c|, c + d);
    TagBack(rs[0].tag, 0, b + (c + d));
    HeaderBack(rs[0].tag, a, b, c, d);
  }

  lemma InOrder(a: Bytes, b: Bytes, c: Bytes, d: Bytes)
    ensures a + b + c + d == a + (b + (c + d))
  {
  }

  lemma CodeBack(code: Bytes, number: nat, rest: Bytes)
    requires Codes(code, number, 8)
    ensures IntOf(code + rest, 8) == Some((number, |code|))
  {
  }

  lemma HeaderBack(tag: nat, a: Bytes, b: Bytes, c: Bytes, d: Bytes)
    requires TagOf(a + (b + (c + d)), 0) == Some((tag, |a|)) && IntOf(b + (c + d), 8) == Some((|c|, |b|))
    ensures var h, t := HeaderOf(a + (b + (c + d)), false), a + (b + (c + d));
            && h == Header.Header(tag, |c|, |a| + |b|)
            && t[h.n..h.n + h.len] == c && t[h.n + h.len..] == d
  {
    hide TagOf, IntOf;
    assert (a + (b + (c + d)))[|a|..] == b + (c + d);
  }

  lemma StreamFirst(rs: seq<Record>, codes: seq<Bytes>)
    requires |codes| == |rs| && rs != []
    ensures Stream(rs, codes) == TagBytes(rs[0].tag) + codes[0] + rs[0].payload + Stream(rs[1..], codes[1..])
  {
  }

  // The number of bytes that records may take.
  function Size(rs: seq<Record>): (n: nat) {
    if rs == [] then 0 else Size(rs[..|rs| - 1]) + |rs[|rs| - 1].payload| + 10
  }

  lemma SizeBounds(rs: seq<Record>, r: Record)
    ensures Size(rs + [r]) == Size(rs) + |r.payload| + 10
  {
    assert (rs + [r])[..|rs|] == rs;
  }

  lemma {:induction false} SizePrefix(rs: seq<Record>, i: nat)
    requires i <= |rs|
    ensures Size(rs[..i]) <= Size(rs)
    decreases |rs|
  {
    if i == |rs| {
      assert rs[..i] == rs;
    } else {
      SizePrefix(rs[..|rs| - 1], i);
      assert rs[..|rs| - 1][..i] == rs[..i];
    }
  }

  lemma CodedFrom(rs: seq<Record>, codes: seq<Bytes>, i: nat)
    requires Coded(rs, codes) && i <= |rs|
    ensures |codes| == |rs| && Coded(rs[i..], codes[i..])
  {
    hide Codes;
  }

  lemma CodedMore(rs: seq<Record>, codes: seq<Bytes>, r: Record, code: Bytes)
    requires Coded(rs, codes) && Storable(r) && Codes(code, |r.payload|, 8)
    ensures |codes| == |rs| && Coded(rs + [r], codes + [code])
  {
    hide Codes;
  }

  lemma StreamEmpty(rs: seq<Record>, codes: seq<Bytes>)
    requires |codes| == |rs|
    ensures Stream(rs, codes) == [] <==> rs == []
  {
    hide TagBytes;
  }

  // Records marshalled one after the other into a new buffer.
  method MarshalAll(rs: seq<Record>) returns (x: Ev.EvBuffer, y: Ev.EvBuffer, ghost codes: seq<Bytes>)
    requires (forall r <- rs :: Storable(r)) && Size(rs) <= CHAIN_LIMIT
    ensures Ready(x, y) && y.Contents() == [] && fresh(x) && fresh(y)
    ensures Coded(rs, codes) && |codes| == |rs| && x.Contents() == Stream(rs, codes) && |x.Contents()| <= CHAIN_LIMIT
    ensures forall c <- x.view.chains :: fresh(c) && fresh(c.buffer)
    ensures forall c <- y.view.chains :: fresh(c) && fresh(c.buffer)
  {
    hide Ready, Sized, Compact, Separate, Concat, Stream, Coded, Size, Codes, TagBytes;
    var o;
    x, y, o := Start();
    codes := [];
    NoRecords();
    assert rs[..0] == [];
    for i := 0 to |rs|
      invariant Ready(x, y) && y.Contents() == [] && fresh(x) && fresh(y)
      invariant Coded(rs[..i], codes) && |codes| == i && x.Contents() == Stream(rs[..i], codes)
      invariant |x.Contents()| <= Size(rs[..i])
      invariant forall c <- x.view.chains :: fresh(c) && fresh(c.buffer)
      invariant forall c <- y.view.chains :: fresh(c) && fresh(c.buffer)
    {
      var r := rs[i];
      assert rs[..i + 1] == rs[..i] + [r] && Storable(r);
      SizeBounds(rs[..i], r);
      SizePrefix(rs, i + 1);
      ghost var code := Marshal(x, y, r.tag, r.payload);
      StreamMore(rs[..i], codes, r, code);
      CodedMore(rs[..i], codes, r, code);
      codes := codes + [code];
    }
    assert rs[..|rs|] == rs;
  }

  lemma NoRecords()
    ensures Stream([], []) == [] && Coded([], []) && Size([]) == 0
  {
  }

  lemma FirstRecord(rs: seq<Record>, codes: seq<Bytes>)
    requires Coded(rs, codes) && rs != []
    ensures var t, p, rest := Stream(rs, codes), rs[0].payload, Stream(rs[1..], codes[1..]);
            var h, u := HeaderOf(t, false), AfterHeader(t, false);
            && h.Header? && h.tag == rs[0].tag && h.len == |p| && u == p + rest
            && u[..|p|] == p && Drained(u, |p|, false) == rest && |rest| <= |u| <= |t|
  {
    hide HeaderOf, Codes, TagBytes, Stream;
    RecordBack(rs, codes);
    var t, p := Stream(rs, codes), rs[0].payload;
    var h := HeaderOf(t, false);
    assert t[h.n..] == p + t[h.n + h.len..];
  }

  // The first record is taken off the buffer, if its length fits into an int.
  method NextRecord(x: Ev.EvBuffer, y: Ev.EvBuffer, ghost rs: seq<Record>, ghost codes: seq<Bytes>)
    returns (r: Option<Record>)
    requires Ready(x, y) && y.Contents() == [] && |x.Contents()| <= CHAIN_LIMIT
    requires Coded(rs, codes) && |codes| == |rs| > 0 && x.Contents() == Stream(rs, codes)
    modifies x, y, Writable(x.view.chains), Writable(y.view.chains)
    ensures Ready(x, y) && NewOnly(x, y) && y.Contents() == [] && |x.Contents()| <= CHAIN_LIMIT
    ensures |rs[0].payload| <= INT_MAX ==> r == Some(rs[0]) && x.Contents() == Stream(rs[1..], codes[1..])
    ensures |rs[0].payload| > INT_MAX ==> r == None && x.Contents() == rs[0].payload + Stream(rs[1..], codes[1..])
  {
    hide Paired, Sized, Compact, Separate, Concat, Stream, Coded, Codes, TagBytes, Ev.EvBuffer.Fails, Ev.EvBuffer.Contents;
    hide HeaderOf, AfterHeader, Drained, GaveUp;
    FirstRecord(rs, codes);
    ghost var p := rs[0].payload;
    ReadyToo(x, y);
    if |p| <= INT_MAX {
      PutSucceeds(y, x, |p|);
    }
    var len, tag, died := Unmarshal(x, y);
    if len == -1 {
      return None;
    }
    ReadyToo(x, y);
    assert [] + p == p && y.Contents() == p;
    var payload := TakeOut(y, x, len);
    assert y.Contents() == [] && payload + [] == payload;
    ReadyToo(y, x);
    r := Some(Record(tag, payload));
  }

  // Records marshalled one after the other unmarshal to the same records, up to the first one whose
  // length does not fit into an int; if there is none, all come back and the buffer is empty then.
  method Reload(rs: seq<Record>) returns (out: seq<Record>, x: Ev.EvBuffer, y: Ev.EvBuffer)
    requires (forall r <- rs :: Storable(r)) && Size(rs) <= CHAIN_LIMIT
    ensures Ready(x, y) && out <= rs && (forall r <- out :: |r.payload| <= INT_MAX)
    ensures if forall r <- rs :: |r.payload| <= INT_MAX then out == rs && x.Contents() == []
            else |out| < |rs| && |rs[|out|].payload| > INT_MAX
  {
    hide Paired, Sized, Compact, Separate, Concat, Stream, Coded, Size, Ev.EvBuffer.Contents;
    ghost var codes;
    x, y, codes := MarshalAll(rs);
    out := [];
    ghost var i := 0;
    assert rs[0..] == rs && codes[0..] == codes;
    CodedFrom(rs, codes, 0);
    assert x.Contents() == Stream(rs[0..], codes[0..]);
    while x.totalLen > 0
      invariant i <= |rs| == |codes| && out == rs[..i] && Ready(x, y) && y.Contents() == []
      invariant x.Contents() == Stream(rs[i..], codes[i..]) && |x.Contents()| <= CHAIN_LIMIT
      invariant forall r <- out :: |r.payload| <= INT_MAX
      invariant fresh(x) && fresh(y)
      invariant forall c <- x.view.chains :: fresh(c) && fresh(c.buffer)
      invariant forall c <- y.view.chains :: fresh(c) && fresh(c.buffer)
      decreases |rs| - i
    {
      LengthIs(x, y);
      CodedFrom(rs, codes, i);
      StreamEmpty(rs[i..], codes[i..]);
      var record := NextRecord(x, y, rs[i..], codes[i..]);
      if record.None? {
        assert rs[i] in rs;
        return;
      }
      out := out + [record.value];
      assert rs[i..][1..] == rs[i + 1..] && codes[i..][1..] == codes[i + 1..];
      i := i + 1;
    }
    LengthIs(x, y);
    StreamEmpty(rs[i..], codes[i..]);
    assert rs[..i] == rs;
  }
}
