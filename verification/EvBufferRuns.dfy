/**
  Runs of operations on two evbuffers, each of which stands for a byte sequence
  (common/libevent/buffer.c).
  */
module EvBufferRuns {
  import opened Sequences
  import opened Pieces
  import opened Chains
  import opened Views
  import Ev = EvBuffer

  datatype Op =
    | Add(bytes: Bytes)
    | AddReference(bytes: Bytes)
    | Prepend(bytes: Bytes)
    | Drain(len: nat)
    | Remove(len: nat)
    | AddBuffer
    | RemoveBuffer(len: nat)
    | Pullup(size: int)
    | Expand(len: nat)
    | Freeze(start: bool, on: bool)
    | Shortage(on: bool)

  // An operation on one of the two buffers. AddBuffer and RemoveBuffer take from the other one.
  datatype Command = Command(op: Op, onSecond: bool)

  // A command that was carried out: how many of its bytes came to the buffer, and how many were lost.
  datatype Done = Done(cmd: Command, came: nat, lost: nat)

  datatype Side = Side(bytes: Bytes, frozenStart: bool, frozenEnd: bool, scarce: bool)

  // What the two buffers stand for, and the bytes given out by evbuffer_remove so far.
  datatype Bufs = Bufs(x: Side, y: Side, out: Bytes)

  function Upto(s: Bytes, n: nat): Bytes {
    s[..Min(n, |s|)]
  }

  function From(s: Bytes, n: nat): Bytes {
    s[Min(n, |s|)..]
  }

  // How many bytes evbuffer_drain and evbuffer_remove take.
  function Taken(s: Side, len: nat): nat {
    if s.frozenStart then 0 else Min(len, |s.bytes|)
  }

  // How many bytes leave the other buffer in evbuffer_add_buffer, or in evbuffer_remove_buffer for len of them.
  function Leaving(b: Bufs, len: nat): nat {
    if b.x.frozenEnd || b.y.frozenStart then 0 else Min(len, |b.y.bytes|)
  }

  // What each operation means for the sequences, on the first buffer.
  function Applied(op: Op, came: nat, lost: nat, b: Bufs): Bufs {
    match op
    case Add(bytes) => b.(x := b.x.(bytes := b.x.bytes + Upto(bytes, came)))
    case AddReference(bytes) => b.(x := b.x.(bytes := b.x.bytes + Upto(bytes, came)))
    case Prepend(bytes) => b.(x := b.x.(bytes := Last(bytes, came) + b.x.bytes))
    case Drain(len) => b.(x := b.x.(bytes := From(b.x.bytes, Taken(b.x, len))))
    case Remove(len) =>
      var n := Taken(b.x, len);
      b.(x := b.x.(bytes := From(b.x.bytes, n)), out := b.out + Upto(b.x.bytes, n))
    case AddBuffer => Over(b, came, 0)
    case RemoveBuffer(_) => Over(b, came, lost)
    case Pullup(_) => b
    case Expand(_) => b
    case Freeze(start, on) =>
      b.(x := if start then b.x.(frozenStart := on) else b.x.(frozenEnd := on))
    case Shortage(on) => b.(x := b.x.(scarce := on))
  }

  // The first bytes of the second buffer come behind those of the first, and some more are lost.
  function Over(b: Bufs, came: nat, lost: nat): Bufs {
    b.(x := b.x.(bytes := b.x.bytes + Upto(b.y.bytes, came)), y := b.y.(bytes := From(b.y.bytes, came + lost)))
  }

  // The length of a buffer with n more bytes would not be a size_t.
  predicate TooLong(s: Side, n: nat) {
    |s.bytes| + n > SIZE_MAX
  }

  // A chain for n more bytes may not be had.
  predicate Hard(s: Side, n: nat) {
    s.scarce || n > CHAIN_LIMIT
  }

  // How many bytes come and how many are lost: all and none, unless an end is frozen, the length would be too
  // large or memory is short. Then evbuffer_add puts everything or nothing, evbuffer_prepend perhaps only the
  // last bytes, and evbuffer_remove_buffer loses the last ones of those that it takes.
  predicate Fits(op: Op, came: nat, lost: nat, b: Bufs) {
    && (lost > 0 ==> op.RemoveBuffer?)
    && match op
       case Add(bytes) =>
         if b.x.frozenEnd || TooLong(b.x, |bytes|) then came == 0
         else came == |bytes| || (came == 0 && Hard(b.x, |bytes|))
       case AddReference(bytes) => came == if b.x.frozenEnd || b.x.scarce then 0 else |bytes|
       case Prepend(bytes) =>
         if b.x.frozenStart || TooLong(b.x, |bytes|) then came == 0
         else came == |bytes| || (came <= |bytes| && Hard(b.x, |bytes|))
       case AddBuffer => came == Leaving(b, |b.y.bytes|)
       case RemoveBuffer(len) =>
         came + lost == Leaving(b, len) && (lost > 0 ==> b.x.scarce || TooLong(b.x, Leaving(b, len)))
       case _ => came == 0
  }

  function Swap(b: Bufs): Bufs {
    Bufs(b.y, b.x, b.out)
  }

  function AppliedTo(d: Done, b: Bufs): Bufs {
    if d.cmd.onSecond then Swap(Applied(d.cmd.op, d.came, d.lost, Swap(b))) else Applied(d.cmd.op, d.came, d.lost, b)
  }

  predicate FitsTo(d: Done, b: Bufs) {
    Fits(d.cmd.op, d.came, d.lost, if d.cmd.onSecond then Swap(b) else b)
  }

  function Replay(ds: seq<Done>, b: Bufs): Bufs {
    if ds == [] then b else AppliedTo(ds[|ds| - 1], Replay(ds[..|ds| - 1], b))
  }

  predicate FitsAll(ds: seq<Done>, b: Bufs) {
    ds == [] || (FitsAll(ds[..|ds| - 1], b) && FitsTo(ds[|ds| - 1], Replay(ds[..|ds| - 1], b)))
  }

  const EMPTY_SIDE: Side := Side([], false, false, false)
  const EMPTY: Bufs := Bufs(EMPTY_SIDE, EMPTY_SIDE, [])

  // The commands of a log.
  function Commands(ds: seq<Done>): (cs: seq<Command>)
    ensures |cs| == |ds| && forall i :: 0 <= i < |ds| ==> cs[i] == ds[i].cmd
  {
    seq(|ds|, i requires 0 <= i < |ds| => ds[i].cmd)
  }

  lemma OverIs(b: Bufs, came: nat, lost: nat)
    requires came + lost <= |b.y.bytes|
    ensures Over(b, came, lost).x == b.x.(bytes := b.x.bytes + b.y.bytes[..came])
    ensures Over(b, came, lost).y == b.y.(bytes := b.y.bytes[came + lost..]) && Over(b, came, lost).out == b.out
  {
  }

  lemma RemoveBufferIs(len: nat, came: nat, lost: nat, b: Bufs)
    requires came + lost == Leaving(b, len) && (lost > 0 ==> b.x.scarce || TooLong(b.x, Leaving(b, len)))
    ensures Fits(RemoveBuffer(len), came, lost, b)
    ensures var b' := Applied(RemoveBuffer(len), came, lost, b);
            && b'.x == b.x.(bytes := b.x.bytes + b.y.bytes[..came])
            && b'.y == b.y.(bytes := b.y.bytes[came + lost..]) && b'.out == b.out
  {
    OverIs(b, came, lost);
  }

  // Two buffers that share nothing; no chain of theirs is too large.
  ghost predicate Paired(x: Ev.EvBuffer, y: Ev.EvBuffer)
    reads x, y, x.view.chains, y.view.chains, Buffers(x.view.chains), Buffers(y.view.chains)
  {
    x.Valid() && y.Valid() && x.DisjointFrom(y) && Sized(x.view.chains) && Sized(y.view.chains)
  }

  // The ends are not frozen, and there is memory to be had.
  ghost predicate Plain(b: Ev.EvBuffer)
    reads b
  {
    !b.scarce && !b.freezeStart && !b.freezeEnd
  }

  ghost predicate Ready(x: Ev.EvBuffer, y: Ev.EvBuffer)
    reads x, y, x.view.chains, y.view.chains, Buffers(x.view.chains), Buffers(y.view.chains)
  {
    Paired(x, y) && Plain(x) && Plain(y)
  }

  // No empty chain comes before data.
  ghost predicate Neat(x: Ev.EvBuffer, y: Ev.EvBuffer)
    reads x, y
  {
    Compact(x.view.pieces) && Compact(y.view.pieces)
  }

  // The one operation after which that may be different: see EvBufferGaps.
  predicate PutsNothing(op: Op) {
    op.Prepend? && op.bytes == []
  }

  // Every chain of the two buffers was in one of them or is new.
  twostate predicate NewOnly(x: Ev.EvBuffer, y: Ev.EvBuffer)
    reads x, y
  {
    && (forall c :: c in x.view.chains ==>
          c in old(x.view.chains) || c in old(y.view.chains) || (fresh(c) && fresh(c.buffer)))
    && (forall c :: c in y.view.chains ==>
          c in old(x.view.chains) || c in old(y.view.chains) || (fresh(c) && fresh(c.buffer)))
  }

  lemma NotTouched(x: Ev.EvBuffer, y: Ev.EvBuffer)
    requires Paired(x, y)
    ensures y !in Writable(x.view.chains) && x !in Writable(x.view.chains) && x != y
    ensures forall c: Chain <- y.view.chains :: c !in Writable(x.view.chains) && c.buffer !in Writable(x.view.chains)
    ensures ChainSet(x.view.chains) <= Writable(x.view.chains)
  {
    hide Ev.EvBuffer.Valid;
    ApartSwap(x.view.chains, y.view.chains);
    WritableApart(y.view.chains, x.view.chains);
  }

  ghost function SideOf(b: Ev.EvBuffer): Side
    reads b
  {
    Side(b.Contents(), b.freezeStart, b.freezeEnd, b.scarce)
  }

  // What the two buffers stand for.
  ghost function Value(x: Ev.EvBuffer, y: Ev.EvBuffer, out: Bytes): Bufs
    reads x, y
  {
    Bufs(SideOf(x), SideOf(y), out)
  }

  method DoAdd(x: Ev.EvBuffer, y: Ev.EvBuffer, bytes: Bytes, ghost out: Bytes) returns (ghost came: nat)
    requires Paired(x, y)
    modifies x, Writable(x.view.chains)
    ensures Paired(x, y) && NewOnly(x, y) && (old(Neat(x, y)) ==> Neat(x, y))
    ensures Fits(Add(bytes), came, 0, old(Value(x, y, out)))
    ensures Value(x, y, out) == Applied(Add(bytes), came, 0, old(Value(x, y, out)))
  {
    hide Compact, Concat, Sized, Separate, Writable, Ev.EvBuffer.DisjointFrom, Ev.EvBuffer.Valid, Takes, NewRoom;
    NotTouched(x, y);
    x.SourceFacts();
    var r := x.Add(bytes);
    came := if r == 0 then |bytes| else 0;
    assert bytes[..|bytes|] == bytes;
    x.KeepsApart(y);
    x.GrownSized();
  }

  // evbuffer_prepend beside another buffer.
  method PrependBeside(x: Ev.EvBuffer, y: Ev.EvBuffer, bytes: Bytes) returns (ghost put: nat)
    requires Paired(x, y)
    modifies x, Writable(x.view.chains)
    ensures Paired(x, y) && NewOnly(x, y) && (old(Neat(x, y)) && bytes != [] ==> Neat(x, y))
    ensures put <= |bytes| && x.Contents() == Last(bytes, put) + old(x.Contents())
    ensures if x.freezeStart || |old(x.Contents())| + |bytes| > SIZE_MAX then put == 0
            else put == |bytes| || x.scarce || |bytes| > CHAIN_LIMIT
    ensures x.Same() && SideOf(y) == old(SideOf(y))
  {
    hide Compact, Concat, Sized, Separate, Writable, Ev.EvBuffer.DisjointFrom, Ev.EvBuffer.Valid, Pushed, Last, Ev.EvBuffer.Contents;
    NotTouched(x, y);
    x.SourceFacts();
    x.LengthBounded();
    var r;
    r, put := x.Prepend(bytes);
    x.KeepsApart(y);
    x.GrownSized();
  }

  method DoPrepend(x: Ev.EvBuffer, y: Ev.EvBuffer, bytes: Bytes, ghost out: Bytes) returns (ghost came: nat)
    requires Paired(x, y)
    modifies x, Writable(x.view.chains)
    ensures Paired(x, y) && NewOnly(x, y) && (old(Neat(x, y)) && bytes != [] ==> Neat(x, y))
    ensures Fits(Prepend(bytes), came, 0, old(Value(x, y, out)))
    ensures Value(x, y, out) == Applied(Prepend(bytes), came, 0, old(Value(x, y, out)))
  {
    hide Paired, NewOnly, Neat, Writable, Last, Ev.EvBuffer.Contents;
    came := PrependBeside(x, y, bytes);
  }

  // The memory given to evbuffer_add_reference is not used for anything else.
  method DoAddReference(x: Ev.EvBuffer, y: Ev.EvBuffer, bytes: Bytes, ghost out: Bytes) returns (ghost came: nat)
    requires Paired(x, y) && 0 < |bytes| <= CHAIN_LIMIT
    modifies x, Writable(x.view.chains)
    ensures Paired(x, y) && NewOnly(x, y) && (old(Neat(x, y)) ==> Neat(x, y))
    ensures Fits(AddReference(bytes), came, 0, old(Value(x, y, out)))
    ensures Value(x, y, out) == Applied(AddReference(bytes), came, 0, old(Value(x, y, out)))
  {
    hide Compact, Concat, Sized, Separate, Writable, Ev.EvBuffer.DisjointFrom, Ev.EvBuffer.Valid;
    NotTouched(x, y);
    var memory := new byte[|bytes|](i requires 0 <= i < |bytes| => bytes[i]);
    x.StillValid();
    assert memory[..] == bytes == bytes[..|bytes|];
    MemoryIsNew(x.view.chains, memory);
    var r := x.AddReference(memory);
    came := if r == 0 then |bytes| else 0;
    x.KeepsApart(y);
    x.GrownSized();
  }

  twostate lemma MemoryIsNew(cs: seq<Chain>, new memory: array<byte>)
    requires fresh(memory)
    ensures forall i :: 0 <= i < |cs| ==> cs[i].buffer != memory
  {
    forall i | 0 <= i < |cs|
      ensures cs[i].buffer != memory
    {
      assert old(allocated(cs[i].buffer));
    }
  }

  method DoDrain(x: Ev.EvBuffer, y: Ev.EvBuffer, len: nat, ghost out: Bytes)
    requires Paired(x, y)
    modifies x, Writable(x.view.chains)
    ensures Paired(x, y) && NewOnly(x, y) && (old(Neat(x, y)) ==> Neat(x, y))
    ensures Value(x, y, out) == Applied(Drain(len), 0, 0, old(Value(x, y, out)))
  {
    hide Compact, Concat, Sized, Separate, Writable, Ev.EvBuffer.DisjointFrom, Ev.EvBuffer.Valid, AllApart;
    NotTouched(x, y);
    x.SourceFacts();
    var r := x.Drain(len);
    x.KeepsApart(y);
    x.GrownSized();
  }

  method DoRemove(x: Ev.EvBuffer, y: Ev.EvBuffer, len: nat, ghost out: Bytes) returns (bytes: Bytes)
    requires Paired(x, y)
    modifies x, Writable(x.view.chains)
    ensures Paired(x, y) && NewOnly(x, y) && (old(Neat(x, y)) ==> Neat(x, y))
    ensures Value(x, y, out + bytes) == Applied(Remove(len), 0, 0, old(Value(x, y, out)))
  {
    hide Compact, Concat, Sized, Separate, Writable, Ev.EvBuffer.DisjointFrom, Ev.EvBuffer.Valid;
    NotTouched(x, y);
    var r;
    r, bytes := x.Remove(len);
    assert x.Contents() == old(x.Contents())[|bytes|..] && bytes == old(x.Contents())[..|bytes|];
    x.KeepsApart(y);
    x.GrownSized();
  }

  method DoPullup(x: Ev.EvBuffer, y: Ev.EvBuffer, size: int, ghost out: Bytes)
    requires Paired(x, y)
    modifies x, Writable(x.view.chains)
    ensures Paired(x, y) && NewOnly(x, y) && (old(Neat(x, y)) ==> Neat(x, y))
    ensures Value(x, y, out) == Applied(Pullup(size), 0, 0, old(Value(x, y, out)))
  {
    hide Compact, Concat, Sized, Separate, Writable, Ev.EvBuffer.DisjointFrom, Ev.EvBuffer.Valid;
    NotTouched(x, y);
    var found := x.Pullup(size);
    x.KeepsApart(y);
    x.GrownSized();
  }

  method DoExpand(x: Ev.EvBuffer, y: Ev.EvBuffer, len: nat, ghost out: Bytes)
    requires Paired(x, y)
    modifies x, Writable(x.view.chains)
    ensures Paired(x, y) && NewOnly(x, y) && (old(Neat(x, y)) ==> Neat(x, y))
    ensures Value(x, y, out) == Applied(Expand(len), 0, 0, old(Value(x, y, out)))
  {
    hide Compact, Concat, Sized, Separate, Writable, Ev.EvBuffer.DisjointFrom, Ev.EvBuffer.Valid;
    NotTouched(x, y);
    var chain;
    ghost var i;
    chain, i := x.ExpandSinglechain(len);
    x.KeepsApart(y);
    x.GrownSized();
  }

  method DoAddBuffer(x: Ev.EvBuffer, y: Ev.EvBuffer, ghost out: Bytes) returns (ghost came: nat)
    requires Paired(x, y)
    modifies x, y, Writable(x.view.chains), Writable(y.view.chains)
    ensures Paired(x, y) && NewOnly(x, y) && (old(Neat(x, y)) ==> Neat(x, y))
    ensures Fits(AddBuffer, came, 0, old(Value(x, y, out)))
    ensures Value(x, y, out) == Applied(AddBuffer, came, 0, old(Value(x, y, out)))
  {
    hide Compact, Concat, Sized, Separate, Writable, Ev.EvBuffer.DisjointFrom, Ev.EvBuffer.Valid;
    NotTouched(x, y);
    ghost var cs, ds := x.view.chains, y.view.chains;
    y.SourceFacts();
    came := Leaving(Value(x, y, out), |y.Contents()|);
    var r := x.AddBuffer(y);
    SizedUnion(x.view.chains, cs, ds);
    SizedUnion(y.view.chains, ds, ds);
  }

  // fine says that last_with_datap of both buffers is at the last chain with data.
  method MoveOver(x: Ev.EvBuffer, y: Ev.EvBuffer, len: nat) returns (fine: bool, ghost came: nat, ghost lost: nat)
    requires Paired(x, y)
    modifies x, y, Writable(x.view.chains), Writable(y.view.chains)
    ensures fine <==> old(y.Goes(x, len))
    ensures old(Neat(x, y)) ==> fine && Neat(x, y)
    ensures fine ==> Paired(x, y) && NewOnly(x, y)
    ensures var b := old(Value(x, y, []));
            && came + lost == Leaving(b, len) && (lost > 0 ==> b.x.scarce || TooLong(b.x, Leaving(b, len)))
            && (fine ==> SideOf(x) == b.x.(bytes := b.x.bytes + b.y.bytes[..came])
                         && SideOf(y) == b.y.(bytes := b.y.bytes[came + lost..]))
    ensures lost == old(y.Losing(x, len))
  {
    hide Compact, Concat, Sized, Separate, Writable, Ev.EvBuffer.DisjointFrom, Ev.EvBuffer.Valid, Ev.EvBuffer.Goes, Ev.EvBuffer.Losing, Buffers;
    hide Ev.EvBuffer.Refused, Ev.EvBuffer.NoneMoves, Ev.EvBuffer.Lags, Receiving, Partial, Moved, Room, Takes, AllApart, Stuck;
    hide Ev.EvBuffer.Linked, Ev.EvBuffer.Loose, Ev.EvBuffer.Stocked;
    NotTouched(x, y);
    ghost var cs, ds := x.view.chains, y.view.chains;
    y.IsDisjoint(x);
    if Compact(y.view.pieces) {
      y.CompactGoes(x, len);
    }
    if !x.scarce && |x.Contents()| + Min(len, |y.Contents()|) <= SIZE_MAX {
      y.NothingLost(x, len);
    }
    lost := y.Losing(x, len);
    ghost var moved;
    var r, died;
    r, moved, died := y.RemoveBuffer(x, len);
    came := moved - lost;
    fine := !died;
    if fine {
      x.IsDisjoint(y);
      y.IsDisjoint(x);
      SizedUnion(y.view.chains, ds, ds);
      x.GrownWithSized(ds);
      x.EitherLinked();
      y.EitherLinked();
      fine := Right(x, y);
    }
  }

  method DoRemoveBuffer(x: Ev.EvBuffer, y: Ev.EvBuffer, len: nat, ghost out: Bytes)
    returns (fine: bool, ghost came: nat, ghost lost: nat)
    requires Paired(x, y)
    modifies x, y, Writable(x.view.chains), Writable(y.view.chains)
    ensures fine <==> old(y.Goes(x, len))
    ensures old(Neat(x, y)) ==> fine && Neat(x, y)
    ensures fine ==> Paired(x, y) && NewOnly(x, y)
    ensures fine ==> Fits(RemoveBuffer(len), came, lost, old(Value(x, y, out)))
    ensures fine ==> Value(x, y, out) == Applied(RemoveBuffer(len), came, lost, old(Value(x, y, out)))
    ensures lost == old(y.Losing(x, len))
  {
    hide Paired, NewOnly, Neat, Writable, Ev.EvBuffer.Goes, Ev.EvBuffer.Losing, Ev.EvBuffer.Contents, Applied, Fits;
    ghost var b := Value(x, y, out);
    fine, came, lost := MoveOver(x, y, len);
    RemoveBufferIs(len, came, lost, b);
  }

  // Whether last_with_datap is right in both buffers.
  method Right(x: Ev.EvBuffer, y: Ev.EvBuffer) returns (fine: bool)
    requires (x.Valid() || x.Lags()) && (y.Valid() || y.Lags())
    ensures fine <==> old(x.Valid() && y.Valid())
    ensures fine ==> x.Valid() && y.Valid()
  {
    hide Concat, Separate, Ev.EvBuffer.Valid, Ev.EvBuffer.Lags, Ev.EvBuffer.Linked, Ev.EvBuffer.Loose, Ev.EvBuffer.Stocked, Stuck;
    x.EitherLinked();
    y.EitherLinked();
    label before:
    fine := x.AllEmptyBehind();
    y.StillEither@before();
    x.StillEither@before();
    x.EitherLinked();
    y.EitherLinked();
    label between:
    var other := y.AllEmptyBehind();
    y.StillEither@between();
    x.StillEither@between();
    fine := fine && other;
  }

  method DoFreeze(x: Ev.EvBuffer, y: Ev.EvBuffer, start: bool, on: bool, ghost out: Bytes)
    requires Paired(x, y)
    modifies x`freezeStart, x`freezeEnd
    ensures Paired(x, y) && NewOnly(x, y) && (old(Neat(x, y)) ==> Neat(x, y))
    ensures Value(x, y, out) == Applied(Freeze(start, on), 0, 0, old(Value(x, y, out)))
  {
    hide Compact, Concat, Sized, Separate, Ev.EvBuffer.Valid;
    x.SetFrozen(start, on);
    y.StillValid();
  }

  method DoShortage(x: Ev.EvBuffer, y: Ev.EvBuffer, on: bool, ghost out: Bytes)
    requires Paired(x, y)
    modifies x`scarce
    ensures Paired(x, y) && NewOnly(x, y) && (old(Neat(x, y)) ==> Neat(x, y))
    ensures Value(x, y, out) == Applied(Shortage(on), 0, 0, old(Value(x, y, out)))
  {
    hide Compact, Concat, Sized, Separate, Ev.EvBuffer.Valid;
    x.SetScarce(on);
    y.StillValid();
  }

  // References have memory, of a size that a chain may have.
  predicate Proper(op: Op) {
    op.AddReference? ==> 0 < |op.bytes| <= CHAIN_LIMIT
  }

  // One operation on x; y is the other buffer. fine says that last_with_datap of both is right after it.
  method Step(x: Ev.EvBuffer, y: Ev.EvBuffer, op: Op, out0: Bytes)
    returns (out: Bytes, fine: bool, ghost came: nat, ghost lost: nat)
    requires Paired(x, y) && Proper(op)
    modifies x, y, Writable(x.view.chains), Writable(y.view.chains)
    ensures fine <==> (op.RemoveBuffer? ==> old(y.Goes(x, op.len)))
    ensures fine ==> Paired(x, y) && NewOnly(x, y) && Fits(op, came, lost, old(Value(x, y, out0)))
    ensures fine ==> Value(x, y, out) == Applied(op, came, lost, old(Value(x, y, out0)))
    ensures old(Neat(x, y)) && !PutsNothing(op) ==> fine && Neat(x, y)
  {
    hide Paired, NewOnly, Fits, Applied, Neat, Writable, Ev.EvBuffer.Goes;
    out, fine, came, lost := out0, true, 0, 0;
    NothingComes(op, Value(x, y, out));
    match op
    case Add(bytes) => came := DoAdd(x, y, bytes, out);
    case AddReference(bytes) => came := DoAddReference(x, y, bytes, out);
    case Prepend(bytes) => came := DoPrepend(x, y, bytes, out);
    case Drain(len) => DoDrain(x, y, len, out);
    case Remove(len) =>
      var bytes := DoRemove(x, y, len, out);
      out := out + bytes;
    case AddBuffer => came := DoAddBuffer(x, y, out);
    case RemoveBuffer(len) => fine, came, lost := DoRemoveBuffer(x, y, len, out);
    case Pullup(size) => DoPullup(x, y, size, out);
    case Expand(len) => DoExpand(x, y, len, out);
    case Freeze(start, on) => DoFreeze(x, y, start, on, out);
    case Shortage(on) => DoShortage(x, y, on, out);
  }

  lemma NothingComes(op: Op, b: Bufs)
    ensures op.Drain? || op.Remove? || op.Pullup? || op.Expand? || op.Freeze? || op.Shortage? ==> Fits(op, 0, 0, b)
  {
  }

  lemma PairedToo(x: Ev.EvBuffer, y: Ev.EvBuffer)
    ensures Paired(x, y) == Paired(y, x)
  {
    hide Ev.EvBuffer.Valid, Sized;
    x.IsDisjoint(y);
  }

  // One command on the two buffers.
  method Perform(x: Ev.EvBuffer, y: Ev.EvBuffer, c: Command, out0: Bytes)
    returns (out: Bytes, fine: bool, ghost d: Done)
    requires Paired(x, y) && Proper(c.op)
    modifies x, y, Writable(x.view.chains), Writable(y.view.chains)
    ensures d.cmd == c
    ensures fine <==> (c.op.RemoveBuffer? ==> old(if c.onSecond then x.Goes(y, c.op.len) else y.Goes(x, c.op.len)))
    ensures fine ==> Paired(x, y) && NewOnly(x, y) && FitsTo(d, old(Value(x, y, out0)))
    ensures fine ==> Value(x, y, out) == AppliedTo(d, old(Value(x, y, out0)))
    ensures old(Neat(x, y)) && !PutsNothing(c.op) ==> fine && Neat(x, y)
  {
    hide Paired, Fits, Applied, Writable, Ev.EvBuffer.Goes;
    ghost var came, lost;
    if c.onSecond {
      PairedToo(x, y);
      out, fine, came, lost := Step(y, x, c.op, out0);
      PairedToo(x, y);
    } else {
      out, fine, came, lost := Step(x, y, c.op, out0);
    }
    d := Done(c, came, lost);
  }

  // Two empty buffers.
  method Start() returns (x: Ev.EvBuffer, y: Ev.EvBuffer, out: Bytes)
    ensures Ready(x, y) && Neat(x, y) && Value(x, y, out) == EMPTY
    ensures fresh(x) && fresh(y) && x.view.chains == [] && y.view.chains == []
  {
    hide Separate, Concat;
    x := new Ev.EvBuffer(false);
    label before:
    y := new Ev.EvBuffer(false);
    x.StillValid@before();
    EmptyIsCompact();
    out := [];
  }

  // Every run of commands on two buffers, from their creation on, does to them what Replay does to their
  // byte sequences, as long as evbuffer_remove_buffer leaves last_with_datap right: n is the number of
  // commands up to there. It always does if evbuffer_prepend never got zero bytes.
  method Run(cs: seq<Command>)
    returns (x: Ev.EvBuffer, y: Ev.EvBuffer, out: Bytes, n: nat, fine: bool, ghost log: seq<Done>)
    requires forall c <- cs :: Proper(c.op)
    ensures if fine then n == |cs| else n < |cs| && cs[n].op.RemoveBuffer?
    ensures Commands(log) == cs[..n] && FitsAll(log, EMPTY)
    ensures fine ==> Paired(x, y) && Value(x, y, out) == Replay(log, EMPTY)
    ensures (forall c <- cs :: !PutsNothing(c.op)) ==> fine
    ensures fine && (forall c <- cs :: Piping(c)) && (forall d <- log :: d.lost == 0) ==>
              out + x.Contents() + y.Contents() == Input(log)
  {
    hide Applied, AppliedTo, FitsTo, Paired, Neat, Commands, Piping, Replay, FitsAll, Put, Input;
    hide Ready, Writable, Ev.EvBuffer.Goes, Ev.EvBuffer.Contents;
    x, y, out := Start();
    fine, n, log := true, 0, [];
    StartPaired(x, y);
    while fine && n < |cs|
      invariant n <= |cs| && Commands(log) == cs[..n] && FitsAll(log, EMPTY)
      invariant fine ==> Paired(x, y) && Value(x, y, out) == Replay(log, EMPTY)
      invariant !fine ==> n < |cs| && cs[n].op.RemoveBuffer?
      invariant (forall c <- cs :: !PutsNothing(c.op)) ==> fine && Neat(x, y)
      invariant fresh(x) && fresh(y)
      invariant fine ==> forall c <- x.view.chains :: fresh(c) && fresh(c.buffer)
      invariant fine ==> forall c <- y.view.chains :: fresh(c) && fresh(c.buffer)
      decreases |cs| - n, fine
    {
      AllWritable(x, y);
      ghost var d;
      out, fine, d := Perform(x, y, cs[n], out);
      if fine {
        MoreDone(log, d, EMPTY);
        assert cs[..n + 1] == cs[..n] + [cs[n]];
        n, log := n + 1, log + [d];
      }
    }
    assert cs[..|cs|] == cs;
    PipeIs(cs, log);
  }

  lemma PipeIs(cs: seq<Command>, log: seq<Done>)
    ensures Commands(log) == cs && (forall c <- cs :: Piping(c)) && (forall d <- log :: d.lost == 0) ==>
              var b := Replay(log, EMPTY); b.out + b.x.bytes + b.y.bytes == Input(log)
  {
    if Commands(log) == cs && (forall c <- cs :: Piping(c)) && (forall d <- log :: d.lost == 0) {
      assert forall d <- log :: d.cmd in Commands(log);
      PipeKeepsOrder(log);
    }
  }

  lemma StartPaired(x: Ev.EvBuffer, y: Ev.EvBuffer)
    requires Ready(x, y)
    ensures Paired(x, y) && Replay([], EMPTY) == EMPTY && FitsAll([], EMPTY) && Commands([]) == []
  {
  }

  lemma MoreDone(ds: seq<Done>, d: Done, b: Bufs)
    ensures Replay(ds + [d], b) == AppliedTo(d, Replay(ds, b))
    ensures FitsAll(ds + [d], b) == (FitsAll(ds, b) && FitsTo(d, Replay(ds, b)))
    ensures Commands(ds + [d]) == Commands(ds) + [d.cmd]
  {
    assert (ds + [d])[..|ds|] == ds;
  }

  // All that may be written of buffers made of new chains is new.
  twostate lemma AllWritable(new x: Ev.EvBuffer, new y: Ev.EvBuffer)
    requires forall c <- x.view.chains :: fresh(c) && fresh(c.buffer)
    requires forall c <- y.view.chains :: fresh(c) && fresh(c.buffer)
    ensures fresh(Writable(x.view.chains)) && fresh(Writable(y.view.chains))
  {
  }

  // The two buffers as a pipe: bytes go into the second one, on to the first, and out of it.
  predicate Piping(c: Command) {
    match c.op
    case Add(_) => c.onSecond
    case AddReference(_) => c.onSecond
    case Prepend(_) => false
    case Drain(_) => false
    case Remove(_) => !c.onSecond
    case AddBuffer => !c.onSecond
    case RemoveBuffer(_) => !c.onSecond
    case Pullup(_) => true
    case Expand(_) => true
    case Freeze(_, _) => true
    case Shortage(_) => true
  }

  function Put(d: Done): Bytes {
    match d.cmd.op
    case Add(bytes) => Upto(bytes, d.came)
    case AddReference(bytes) => Upto(bytes, d.came)
    case _ => []
  }

  // The bytes put in by evbuffer_add and evbuffer_add_reference, in order.
  function Input(ds: seq<Done>): Bytes {
    if ds == [] then [] else Input(ds[..|ds| - 1]) + Put(ds[|ds| - 1])
  }

  // Whatever moves between the buffers and however, no byte is doubled or overtaken, and none is lost but
  // those that evbuffer_remove_buffer loses.
  lemma {:induction false} PipeKeepsOrder(ds: seq<Done>)
    requires forall d <- ds :: Piping(d.cmd) && d.lost == 0
    ensures var b := Replay(ds, EMPTY); b.out + b.x.bytes + b.y.bytes == Input(ds)
  {
    if ds != [] {
      var front, d := ds[..|ds| - 1], ds[|ds| - 1];
      assert d in ds && forall e <- front :: e in ds;
      PipeKeepsOrder(front);
      PipeStep(d, Replay(front, EMPTY));
    }
  }

  lemma PipeStep(d: Done, b: Bufs)
    requires Piping(d.cmd) && d.lost == 0
    ensures var a := AppliedTo(d, b);
            a.out + a.x.bytes + a.y.bytes == b.out + b.x.bytes + b.y.bytes + Put(d)
  {
    var o, x, y := b.out, b.x.bytes, b.y.bytes;
    match d.cmd.op
    case Add(bytes) =>
      assert o + x + (y + Put(d)) == o + x + y + Put(d);
    case AddReference(bytes) =>
      assert o + x + (y + Put(d)) == o + x + y + Put(d);
    case Remove(len) =>
      PipeOut(o, x, y, Taken(b.x, len));
    case AddBuffer =>
      PipeOn(o, x, y, Min(d.came, |y|));
    case RemoveBuffer(len) =>
      PipeOn(o, x, y, Min(d.came, |y|));
    case Pullup(_) =>
    case Expand(_) =>
    case Freeze(_, _) =>
    case Shortage(_) =>
  }

  lemma PipeOut(o: Bytes, x: Bytes, y: Bytes, n: nat)
    requires n <= |x|
    ensures o + x[..n] + x[n..] + y == o + x + y
  {
    assert x[..n] + x[n..] == x;
    assert o + x[..n] + x[n..] == o + (x[..n] + x[n..]);
  }

  lemma PipeOn(o: Bytes, x: Bytes, y: Bytes, n: nat)
    requires n <= |y|
    ensures o + (x + y[..n]) + y[n..] == o + x + y
  {
    assert y[..n] + y[n..] == y;
    assert o + (x + y[..n]) + y[n..] == o + x + (y[..n] + y[n..]);
  }
}
