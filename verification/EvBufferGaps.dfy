/**
  Runs on real evbuffers that do not end as their callers expect (common/libevent/buffer.c): after
  evbuffer_remove_buffer bytes come out in another order, or the program ends, or bytes are lost, and
  evbuffer_prepend fails with some bytes already in front.
  */
module EvBufferGaps {
  import opened Pieces
  import opened Chains
  import opened Views
  import Ev = EvBuffer

  // The bytes of the chains, and the index of the last one with data.
  ghost predicate HasPieces(b: Ev.EvBuffer, pieces: seq<Bytes>, w: nat)
    reads b
  {
    |b.view.chains| == |pieces| && b.view.pieces == pieces && b.view.w == w
  }

  // All its chains and their memory are new.
  twostate predicate Own(new b: Ev.EvBuffer)
    reads b
  {
    forall c :: c in b.view.chains ==> fresh(c) && fresh(c.buffer)
  }

  // What may be written is of the smallest size.
  ghost predicate Small(cs: seq<Chain>) {
    forall c :: c in cs ==> c.immutable || c.buffer.Length == MIN_ROOM
  }

  ghost predicate Open(b: Ev.EvBuffer)
    reads b
  {
    !b.scarce && !b.freezeStart && !b.freezeEnd
  }

  lemma OneIs(bytes: Bytes)
    ensures Concat([bytes]) == bytes && Concat([[], bytes]) == bytes
    ensures bytes != [] ==> LastWithData([[], bytes], 1) && Kept([[], bytes], 1) == 2
  {
    ConcatOne(bytes);
    assert [[], bytes][1..] == [bytes];
  }

  // evbuffer_new and evbuffer_add.
  method Filled(bytes: Bytes) returns (b: Ev.EvBuffer)
    requires 0 < |bytes| <= CHAIN_LIMIT
    ensures fresh(b) && b.Valid() && Open(b) && HasPieces(b, [bytes], 0) && Own(b)
    ensures Room(b.view) + |bytes| >= MIN_ROOM
  {
    hide Separate, LastWithData, Concat, Room, Compact, Ev.EvBuffer.Links, Ev.EvBuffer.Stocked, Ev.EvBuffer.Fails;
    EmptyIsCompact();
    b := new Ev.EvBuffer(false);
    b.SourceFacts();
    var r := b.Add(bytes);
    b.SourceFacts();
  }

  // evbuffer_new and evbuffer_add_reference.
  method Referenced(bytes: Bytes) returns (b: Ev.EvBuffer)
    requires 0 < |bytes| <= CHAIN_LIMIT
    ensures fresh(b) && b.Valid() && Open(b) && HasPieces(b, [bytes], 0) && Own(b) && b.view.chains[0].immutable
    ensures Sized(b.view.chains)
  {
    hide Separate, LastWithData, Concat, Room, Compact, Ev.EvBuffer.Links, Ev.EvBuffer.Stocked;
    var memory := new byte[|bytes|](i requires 0 <= i < |bytes| => bytes[i]);
    assert memory[..] == bytes;
    b := new Ev.EvBuffer(false);
    var r := b.AddReference(memory);
    b.SourceFacts();
  }

  // evbuffer_prepend of nothing.
  method PrependNothing(b: Ev.EvBuffer, ghost bytes: Bytes)
    requires b.Valid() && Open(b) && HasPieces(b, [bytes], 0) && 0 < |bytes| <= CHAIN_LIMIT && b.view.chains[0].immutable && Sized(b.view.chains)
    modifies b, Writable(b.view.chains)
    ensures b.Valid() && Open(b) && HasPieces(b, [[], bytes], 1) && b.Grown() && Sized(b.view.chains) && Small(b.view.chains)
  {
    hide Concat, Compact, Ev.EvBuffer.Valid, View.Sound, Writable, Sized, Ev.EvBuffer.Grown;
    OneIs(bytes);
    b.SourceFacts();
    b.FirstIs();
    var r;
    ghost var put;
    assert b.first.immutable;
    assert b.totalLen == |bytes|;
    r, put := b.Prepend([]);
    assert r == 0;
    assert b.view == Pushed(old(b.view), b.view.chains[0], []);
    assert [[]] + [bytes] == [[], bytes];
    b.GrownSized();
  }

  lemma GapBytes()
    ensures Concat([[1], [], [2]]) == [1, 2] && Concat([[1] + [3], [], [2]]) == [1, 3, 2]
  {
    var ps: seq<Bytes> := [[1], [], [2]];
    var qs: seq<Bytes> := [[1] + [3], [], [2]];
    assert ps[1..] == qs[1..] == [[], [2]] && ps[1..][1..] == [[2]];
    ConcatOne([2]);
    assert Concat(ps[1..]) == [2];
  }

  // What is moved of the chains p, q and d with nothing, with the byte 2 and with the byte 4, to a buffer
  // that holds the byte 1 in its chain c.
  lemma GapMoves(c: Chain, p: Chain, q: Chain, d: Chain)
    ensures var from := View([p, q, d], [[], [2], [4]], 2);
            var to := View([c], [[1]], 0);
            && to.Contents() == [1] && from.Contents() == [2, 4]
            && Before(from, Whole(from.pieces, 1)) == 1 && Partial(from, 1) == [] && !Unbroken(from, 1, false)
            && (to.Sound() ==>
                  && Receiving(to, from, 1) == View([c, p, q], [[1], [], [2]], 0)
                  && Moved(to, from, 1, true) == View([c, p, q], [[1], [], [2]], 0))
  {
    var from, to := View([p, q, d], [[], [2], [4]], 2), View([c], [[1]], 0);
    var ps: seq<Bytes> := [[], [2], [4]];
    assert ps[1..] == [[2], [4]] && ps[1..][1..] == [[4]];
    assert Whole(ps, 1) == 2;
    assert ps[..2] == [[], [2]] && ps[..2][1..] == [[2]] && ps[..2][1..][1..] == [];
    GapBytes();
    hide Separate;
    assert [[1]] + [[], [2]] == [[1], [], [2]];
    assert Kept([[1]], 0) == 1;
    assert to.chains[..1] == [c] && to.pieces[..1] == [[1]];
    assert [c] + from.chains[..2] == [c, p, q];
  }

  // evbuffer_add_reference behind a gap.
  method ReferenceBehind(b: Ev.EvBuffer, bytes: Bytes, memory: array<byte>, ghost more: Bytes)
    requires b.Valid() && Open(b) && HasPieces(b, [[], bytes], 1) && bytes != []
    requires (forall c :: c in b.view.chains ==> c.buffer != memory) && memory[..] == more && memory.Length > 0
    modifies b, Writable(b.view.chains)
    ensures b.Valid() && Open(b) && HasPieces(b, [[], bytes, more], 2)
    ensures forall c :: c in b.view.chains ==> c in old(b.view.chains) || (fresh(c) && c.buffer == memory)
  {
    hide Concat, Compact, Ev.EvBuffer.Valid, LastWithData, Writable, Separate;
    OneIs(bytes);
    b.SourceFacts();
    var r := b.AddReference(memory);
    assert [[], bytes] + [more] == [[], bytes, more];
    assert [[], bytes][..2] == [[], bytes];
  }

  // The first buffer of the run below: an empty chain before those of two bytes.
  method TwoBehindGap() returns (y: Ev.EvBuffer)
    ensures fresh(y) && y.Valid() && Open(y) && HasPieces(y, [[], [2], [4]], 2) && Own(y)
  {
    hide Concat, Compact, Ev.EvBuffer.Valid, LastWithData, Sized;
    var memory := new byte[1](i => 4);
    assert memory[..] == [4];
    y := Referenced([2]);
    PrependNothing(y, [2]);
    ReferenceBehind(y, [2], memory, [4]);
  }

  lemma FreshDisjoint(x: Ev.EvBuffer, y: Ev.EvBuffer)
    requires x != y && forall c, d :: c in x.view.chains && d in y.view.chains ==> c != d && c.buffer != d.buffer
    ensures x.DisjointFrom(y) && y.DisjointFrom(x)
  {
    forall i, j | 0 <= i < |x.view.chains| && 0 <= j < |y.view.chains|
      ensures Apart(x.view.chains[i], y.view.chains[j])
    {
      assert x.view.chains[i] in x.view.chains && y.view.chains[j] in y.view.chains;
    }
    x.IsDisjoint(y);
  }

  // One byte moved from y to x.
  method MoveOne(x: Ev.EvBuffer, y: Ev.EvBuffer) returns (r: int, died: bool)
    requires x.Valid() && y.Valid() && Open(x) && Open(y) && x.DisjointFrom(y) && y.DisjointFrom(x)
    requires HasPieces(x, [[1]], 0) && Room(x.view) > 0 && HasPieces(y, [[], [2], [4]], 2)
    modifies x, y, Writable(x.view.chains), Writable(y.view.chains)
    ensures r == 1 && !died && Open(x) && x.Lags() && HasPieces(x, [[1], [], [2]], 0) && Room(x.view) > 0
    ensures y.Contents() == [4]
    ensures forall c :: c in x.view.chains ==> c in old(x.view.chains) || c in old(y.view.chains)
  {
    hide Concat, Compact, Ev.EvBuffer.Valid, View.Sound, Writable, LastWithData, Ev.EvBuffer.Lags, Ev.EvBuffer.DisjointFrom;
    x.SourceFacts();
    y.SourceFacts();
    ghost var to, from := x.view, y.view;
    GapBytes();
    GapMoves(to.chains[0], from.chains[0], from.chains[1], from.chains[2]);
    assert to == View([to.chains[0]], [[1]], 0);
    assert from == View([from.chains[0], from.chains[1], from.chains[2]], [[], [2], [4]], 2);
    assert y.MovesSome(x, 1) && !y.Goes(x, 1) && !y.NoneMoves(1);
    assert !y.Refused(x, 1) && !y.Dies(x, 1);
    ghost var moved;
    r, moved, died := y.RemoveBuffer(x, 1);
  }

  lemma RoomTakes(v: View, n: nat)
    requires Room(v) >= n
    ensures Takes(v, n)
  {
  }

  // evbuffer_remove_buffer, and evbuffer_add to the buffer that the byte went to.
  method MoveAndAdd(x: Ev.EvBuffer, y: Ev.EvBuffer)
    requires x.Valid() && y.Valid() && Open(x) && Open(y) && x.DisjointFrom(y) && y.DisjointFrom(x)
    requires HasPieces(x, [[1]], 0) && Room(x.view) > 0 && HasPieces(y, [[], [2], [4]], 2)
    modifies x, y, Writable(x.view.chains), Writable(y.view.chains)
    ensures x.Contents() == [1, 3, 2] && y.Contents() == [4]
  {
    hide Concat, Compact, Ev.EvBuffer.Valid, Ev.EvBuffer.Linked, Ev.EvBuffer.Lags, Writable, Room, Takes;
    hide Ev.EvBuffer.Took, AllApart;
    ghost var cs, ds := x.view.chains, y.view.chains;
    var r, died := MoveOne(x, y);
    WritableUnion(x.view.chains, cs, ds);
    RoomTakes(x.view, 1);
    GapBytes();
    y.NotWritable(x.view.chains);
    assert !x.Fails(x.view, 1);
    r, died := x.AddAny([3]);
    assert [[1], [], [2]][0 := [1] + [3]] == [[1] + [3], [], [2]];
  }

  // What was made new may be written.
  twostate lemma OwnWritable(new b: Ev.EvBuffer)
    requires Own(b)
    ensures fresh(Writable(b.view.chains))
  {
  }

  // The bytes 1, 2 and 3 put into x one after the other, 2 by way of y: they stand there in another order.
  method Reordered() returns (x: Ev.EvBuffer, y: Ev.EvBuffer)
    ensures x.Contents() == [1, 3, 2] && y.Contents() == [4]
  {
    hide Concat, Ev.EvBuffer.Valid, Writable, Room, Ev.EvBuffer.DisjointFrom;
    x := Filled([1]);
    label filled:
    y := TwoBehindGap();
    x.StillValid@filled();
    FreshDisjoint(x, y);
    OwnWritable(x);
    OwnWritable(y);
    MoveAndAdd(x, y);
  }

  // What is moved of the chains p and q with nothing and with the bytes 2 and 5, to an empty buffer.
  lemma NoneMoved(p: Chain, q: Chain)
    ensures var from := View([p, q], [[], [2, 5]], 1);
            && from.Contents() == [2, 5] && Before(from, Whole(from.pieces, 1)) == 0 && Partial(from, 1) == [2]
            && !Unbroken(from, 1, true)
            && Receiving(View([], [], 0), from, 1) == View([], [], 0)
  {
    var ps: seq<Bytes> := [[], [2, 5]];
    assert ps[1..] == [[2, 5]] && ps[..1] == [[]];
    OneIs([2, 5]);
    OneIs([]);
    assert Whole(ps[1..], 1) == 0;
    hide Separate;
  }

  // One byte moved from y to the empty buffer x.
  method MoveAway(x: Ev.EvBuffer, y: Ev.EvBuffer)
    requires x.Valid() && y.Valid() && Open(x) && Open(y) && x.DisjointFrom(y) && y.DisjointFrom(x)
    requires x.view == View([], [], 0) && HasPieces(y, [[], [2, 5]], 1) && Sized(y.view.chains)
    modifies x, y, Writable(x.view.chains), Writable(y.view.chains)
    ensures Open(y) && y.Lags() && y.view.w == 0 && |y.view.pieces| > 0 && y.view.pieces[0] == []
    ensures y.Contents() == [5] && x.Contents() == [2] && Sized(y.view.chains)
    ensures forall c :: c in y.view.chains ==> c in old(y.view.chains)
  {
    hide Concat, Compact, Ev.EvBuffer.Valid, View.Sound, Writable, LastWithData, Ev.EvBuffer.Lags, Ev.EvBuffer.DisjointFrom;
    EmptyIsCompact();
    x.SourceFacts();
    y.SourceFacts();
    ghost var from := y.view;
    NoneMoved(from.chains[0], from.chains[1]);
    assert from == View([from.chains[0], from.chains[1]], [[], [2, 5]], 1);
    assert y.MovesSome(x, 1) && !y.Goes(x, 1) && y.NoneMoves(1);
    x.Succeeds(x.view, 1);
    assert !y.Refused(x, 1);
    var r, died;
    ghost var moved;
    r, moved, died := y.RemoveBuffer(x, 1);
  }

  // Where the next bytes go in a buffer whose first chain is empty, with last_with_datap at it.
  lemma FirstTakes(y: Ev.EvBuffer, n: nat)
    requires y.Lags() && y.view.w == 0 && |y.view.pieces| > 0 && y.view.pieces[0] == [] && Small(y.view.chains)
    ensures Takes(y.view, n) <==> n <= MIN_ROOM
    ensures n <= MIN_ROOM + 1 ==> NewRoom(y.view, n) <= CHAIN_LIMIT
  {
    y.LagsInside();
    hide Ev.EvBuffer.Lags, Separate, Concat;
  }

  // evbuffer_add to such a buffer of bytes that fit into that chain, or do not.
  method AddToFirst(y: Ev.EvBuffer, bytes: Bytes) returns (r: int, died: bool)
    requires y.Lags() && Open(y) && y.view.w == 0 && |y.view.pieces| > 0 && y.view.pieces[0] == []
    requires y.Contents() == [5] && Small(y.view.chains) && |bytes| <= MIN_ROOM + 1
    modifies y, Writable(y.view.chains)
    ensures died <==> |bytes| > MIN_ROOM
    ensures !died ==> r == 0 && y.Contents() == bytes + [5]
  {
    hide Concat, Compact, Ev.EvBuffer.Valid, Ev.EvBuffer.Linked, Ev.EvBuffer.Lags, Ev.EvBuffer.Took, Writable, Takes, NewRoom;
    ghost var ps := y.view.pieces;
    FirstTakes(y, |bytes|);
    y.KindIs();
    r, died := y.AddAny(bytes);
    if !died {
      assert ps[0] + bytes == bytes;
      assert ps[0 := ps[0] + bytes] == [bytes] + ps[1..];
      FirstAdded(ps, bytes);
    }
  }

  lemma FirstAdded(ps: seq<Bytes>, bytes: Bytes)
    requires |ps| > 0 && ps[0] == []
    ensures Concat([bytes] + ps[1..]) == bytes + Concat(ps)
  {
    assert ([bytes] + ps[1..])[1..] == ps[1..];
  }

  // A buffer that holds 5, from which one byte was moved away, with last_with_datap at an empty first chain.
  method Left5() returns (y: Ev.EvBuffer)
    ensures fresh(y) && y.Lags() && Open(y) && y.view.w == 0 && |y.view.pieces| > 0 && y.view.pieces[0] == []
    ensures y.Contents() == [5] && Small(y.view.chains) && fresh(Writable(y.view.chains))
  {
    hide Concat, Ev.EvBuffer.Valid, Writable, Room, Ev.EvBuffer.DisjointFrom, Sized, Ev.EvBuffer.Lags;
    y := Referenced([2, 5]);
    OwnWritable(y);
    PrependNothing(y, [2, 5]);
    label made:
    var x := new Ev.EvBuffer(false);
    y.StillValid@made();
    FreshDisjoint(x, y);
    OwnWritable(x);
    OwnWritable(y);
    ghost var cs := y.view.chains;
    MoveAway(x, y);
    WritableUnion(y.view.chains, cs, cs);
  }

  // The byte 7 put into it behind 5 comes first.
  method BeforeTheRest() returns (y: Ev.EvBuffer, r: int, died: bool)
    ensures !died && r == 0 && y.Contents() == [7, 5]
  {
    hide Concat, Writable, Ev.EvBuffer.Lags;
    y := Left5();
    r, died := AddToFirst(y, [7]);
    assert [7] + [5] == [7, 5];
  }

  // One byte more than its empty first chain has room for ends the program, although there is memory.
  method AddEndsProgram() returns (y: Ev.EvBuffer, n: nat, died: bool)
    ensures died && n == MIN_ROOM + 1
  {
    hide Concat, Writable;
    y := Left5();
    y.LagsInside();
    n := y.first.buffer.Length + 1;
    var r;
    r, died := AddToFirst(y, seq(n, _ => 7));
  }

  lemma NoneSpared(from: View)
    requires from.pieces == [[2, 5]] && |from.chains| == 1
    ensures from.Contents() == [2, 5] && Before(from, Whole(from.pieces, 1)) == 0 && Partial(from, 1) == [2]
    ensures Unbroken(from, 1, true) && Receiving(View([], [], 0), from, 1) == View([], [], 0)
  {
    OneIs([2, 5]);
    assert from.pieces[..0] == [];
    hide Separate;
  }

  // One byte moved from y to the empty buffer x when memory has run out.
  method MoveWithout(x: Ev.EvBuffer, y: Ev.EvBuffer) returns (r: int)
    requires x.Valid() && y.Valid() && x.scarce && !x.freezeEnd && Open(y) && x.DisjointFrom(y) && y.DisjointFrom(x)
    requires x.view == View([], [], 0) && HasPieces(y, [[2, 5]], 0)
    modifies x, y, Writable(x.view.chains), Writable(y.view.chains)
    ensures r == 1 && x.Contents() == [] && y.Contents() == [5]
  {
    hide Concat, Compact, View.Sound, Writable, LastWithData, Ev.EvBuffer.Lags, Ev.EvBuffer.DisjointFrom, Ev.EvBuffer.Valid;
    EmptyIsCompact();
    x.SourceFacts();
    y.SourceFacts();
    ghost var from := y.view;
    NoneSpared(from);
    assert y.MovesSome(x, 1) && y.Goes(x, 1) && y.Losing(x, 1) == 1;
    var died;
    ghost var moved;
    r, moved, died := y.RemoveBuffer(x, 1);
  }

  // A byte moved to a buffer that finds no memory for it: it is answered as moved, and is nowhere.
  method OneLost() returns (x: Ev.EvBuffer, y: Ev.EvBuffer, r: int)
    ensures r == 1 && x.Contents() == [] && y.Contents() == [5]
  {
    hide Concat, Ev.EvBuffer.Valid, Writable, Room;
    x := new Ev.EvBuffer(true);
    label made:
    y := Filled([2, 5]);
    x.StillValid@made();
    FreshDisjoint(x, y);
    OwnWritable(x);
    OwnWritable(y);
    r := MoveWithout(x, y);
  }

  // evbuffer_prepend without memory for a second chain: it answers -1, and the last bytes are in front.
  method HalfPut() returns (b: Ev.EvBuffer, bytes: Bytes, r: int, ghost put: nat)
    ensures r == -1 && 0 < put < |bytes| && b.Valid() && b.Contents() == Last(bytes, put)
  {
    hide Concat, Compact, Ev.EvBuffer.Links, Ev.EvBuffer.Stocked, Last;
    EmptyIsCompact();
    b := new Ev.EvBuffer(false);
    r := b.Add([]);
    b.SetScarce(true);
    b.LengthBounded();
    b.ChainAt(0);
    bytes := seq(b.first.buffer.Length + 1, _ => 1);
    r, put := b.Prepend(bytes);
  }
}
