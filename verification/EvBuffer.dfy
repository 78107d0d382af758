/**
  evbuffer: a byte queue kept as a linked list of chains (common/libevent/buffer.c and
  common/libevent/evbuffer-internal.h). Every operation is proved against one byte sequence.
  */
module EvBuffer {
  import opened Pieces
  import opened Chains
  import opened Views

  // The value of a size cast to a 32-bit int.
  function AsInt(n: nat): (r: int)
    ensures n < 0x8000_0000 ==> r == n
  {
    var low := n % 0x1_0000_0000;
    if low < 0x8000_0000 then low else low - 0x1_0000_0000
  }

  class EvBuffer {
    var first: Chain?
    var last: Chain?
    // last_with_datap: null stands for &first, a chain for the address of its next field.
    var lastWithDatap: Chain?
    var totalLen: nat
    var freezeStart: bool
    var freezeEnd: bool
    // Whether there is no memory to be had: then every allocation fails.
    var scarce: bool

    ghost var view: View

    // The chains are linked in order, up to the last one, whose next is null.
    ghost predicate Links()
      reads this`view, this`first, this`lastWithDatap, view.chains`next
    {
      match view
      case View(chains, pieces, w) =>
        && view.Sound() && Chained(chains)
        && first == At(chains, 0)
        && lastWithDatap == At(chains, w - 1)
    }

    // Each chain holds its piece.
    ghost predicate Stocked()
      reads this`view, view.chains`misalign, view.chains`off, view.chains`data, Buffers(view.chains)
    {
      match view
      case View(chains, pieces, _) => Stored(chains, pieces)
    }

    ghost predicate Valid()
      reads this, view.chains, Buffers(view.chains)
    {
      match view
      case View(chains, _, _) =>
        && Links() && Stocked()
        && last == At(chains, |chains| - 1)
        && totalLen == |view.Contents()|
    }

    // The same links, with last_with_datap at any chain.
    ghost predicate Loose()
      reads this`view, this`first, this`lastWithDatap, view.chains`next
    {
      match view
      case View(chains, pieces, w) =>
        && view.Shaped() && Chained(chains)
        && first == At(chains, 0)
        && lastWithDatap == At(chains, w - 1)
    }

    // All that Valid asks for, but that last_with_datap is at the last chain with data.
    ghost predicate Linked()
      reads this, view.chains, Buffers(view.chains)
    {
      match view
      case View(chains, _, _) =>
        && Loose() && Stocked()
        && last == At(chains, |chains| - 1)
        && totalLen == |view.Contents()|
    }

    // last_with_datap has stayed behind, before an empty chain with data behind it.
    ghost predicate Lags()
      reads this, view.chains, Buffers(view.chains)
    {
      Linked() && view.w <= |view.pieces| && Stuck(view.pieces, view.w)
    }

    lemma LinkedIs()
      ensures Links() <==> Loose() && LastWithData(view.pieces, view.w)
      ensures Valid() <==> Linked() && LastWithData(view.pieces, view.w)
      ensures Loose() ==> view.w <= |view.pieces| == |view.chains|
    {
      ShapedSound(view);
      hide Separate, LastWithData, Concat, Chained, EvBuffer.Stocked;
    }

    // What does not change the buffer and its chains keeps it valid.
    twostate lemma StillValid()
      requires old(Valid()) && unchanged(this) && forall c <- view.chains :: unchanged(c) && unchanged(c.buffer)
      ensures Valid()
    {
      hide Separate, LastWithData, Concat;
    }

    twostate lemma StillEither()
      requires unchanged(this) && forall c <- view.chains :: unchanged(c) && unchanged(c.buffer)
      ensures Valid() == old(Valid()) && Linked() == old(Linked()) && Lags() == old(Lags())
      ensures Room(view) == old(Room(view))
      ensures forall n: nat :: Takes(view, n) == old(Takes(view, n)) && Fails(view, n) == old(Fails(view, n))
    {
      hide Separate, LastWithData, Concat, Stuck;
    }

    lemma NotWritable(cs: seq<Chain>)
      ensures this !in Writable(cs)
    {
    }

    lemma ChainAt(i: nat)
      requires Valid() && i < |view.chains|
      ensures view.Sound() && |view.pieces| == |view.chains|
      ensures view.chains[i] in view.chains && view.chains[i].Ok() && view.chains[i].data == view.pieces[i]
    {
    }

    ghost function Contents(): Bytes
      reads this
    {
      view.Contents()
    }

    constructor (scarce: bool)
      ensures Valid() && view == View([], [], 0)
      ensures this.scarce == scarce && !freezeStart && !freezeEnd
    {
      first, last, lastWithDatap, totalLen := null, null, null, 0;
      freezeStart, freezeEnd, this.scarce := false, false, scarce;
      view := View([], [], 0);
    }

    // evbuffer_freeze and evbuffer_unfreeze.
    method SetFrozen(start: bool, on: bool)
      requires Valid()
      modifies this`freezeStart, this`freezeEnd
      ensures Valid()
      ensures freezeStart == (if start then on else old(freezeStart)) && freezeEnd == if start then old(freezeEnd) else on
    {
      hide Separate, LastWithData, Concat;
      if start {
        freezeStart := on;
      } else {
        freezeEnd := on;
      }
    }

    // Memory runs out, or there is some again.
    method SetScarce(on: bool)
      requires Valid()
      modifies this`scarce
      ensures Valid() && scarce == on
    {
      hide Separate, LastWithData, Concat;
      scarce := on;
    }

    // The chain that a pointer to a pointer leads to.
    function Deref(chp: Chain?): Chain?
      reads this, chp
    {
      if chp == null then first else chp.next
    }

    // The pointer to the first empty chain from last_with_datap on.
    method FirstVictim() returns (chp: Chain?)
      requires Loose() && Stocked()
      ensures view.w <= |view.pieces| == |view.chains|
      ensures chp == At(view.chains, FirstEmpty(view.pieces, view.w) - 1)
      ensures Deref(chp) == At(view.chains, FirstEmpty(view.pieces, view.w))
    {
      hide Chain.Ok, Separate, Concat;
      chp := lastWithDatap;
      ghost var k := view.w;
      assert k > 0 ==> view.chains[k - 1].next == At(view.chains, k);
      while Deref(chp) != null && Deref(chp).off != 0
        invariant view.w <= k <= |view.chains| && chp == At(view.chains, k - 1) && Deref(chp) == At(view.chains, k)
        invariant FirstEmpty(view.pieces, k) == FirstEmpty(view.pieces, view.w)
        decreases |view.chains| - k
      {
        chp := Deref(chp);
        k := k + 1;
        assert chp.next == At(view.chains, k);
      }
    }

    // The assertion of evbuffer_free_trailing_empty_chains: all chains that it is about to free are empty.
    method AllEmptyBehind() returns (fine: bool)
      requires Loose() && Stocked()
      ensures view.w <= |view.pieces| && (fine <==> !Stuck(view.pieces, view.w))
    {
      hide Chain.Ok, Separate, Concat, FirstEmpty;
      var chp := FirstVictim();
      var chain := Deref(chp);
      ghost var k := FirstEmpty(view.pieces, view.w);
      while chain != null
        invariant FirstEmpty(view.pieces, view.w) <= k <= |view.chains| && chain == At(view.chains, k)
        invariant forall j :: FirstEmpty(view.pieces, view.w) <= j < k ==> view.pieces[j] == []
        decreases |view.chains| - k
      {
        if chain.off != 0 {
          return false;
        }
        assert view.chains[k].next == At(view.chains, k + 1);
        chain := chain.next;
        k := k + 1;
      }
      fine := true;
    }

    // evbuffer_free_trailing_empty_chains: drops the empty chains at the end and returns the
    // place for a new chain. The caller fixes last.
    method FreeTrailingEmptyChains() returns (chp: Chain?)
      requires Valid()
      modifies this`first, this`view, ChainSet(view.chains)`next
      ensures old(view.Used()) <= |old(view).chains|
      ensures view == old(Front(view, view.Used()))
      ensures Links() && Stocked() && view.Used() == |view.chains|
      ensures view.Contents() == old(view.Contents())
      ensures chp == At(view.chains, |view.chains| - 1)
    {
      hide Chain.Ok, Separate, Concat, Compact, LastWithData, Kept, View.Shaped, EvBuffer.Loose, ChainSet;
      LinkedIs();
      LastIsNotStuck(view.pieces, view.w);
      chp := FirstVictim();
      FrontSound(view);
      if Deref(chp) != null {
        Cut(chp, view.Used());
      }
    }

    // Ends the list at a pointer.
    method Cut(chp: Chain?, ghost k: nat)
      requires Links() && view.w <= k < |view.chains| && Front(view, k).Sound() && chp == At(view.chains, k - 1)
      modifies this`first, this`view, ChainSet(view.chains)`next
      ensures Links() && view == old(Front(view, k))
    {
      if k > 0 {
        SeparateAt(view.chains, k - 1);
      }
      if chp == null {
        first := null;
      } else {
        chp.next := null;
      }
      view := Front(view, k);
    }

    // Puts a chain at the end of the list.
    method Append(chp: Chain?, chain: Chain)
      requires Links() && Stocked() && view.Used() == |view.chains| && chp == At(view.chains, |view.chains| - 1)
      requires totalLen == |view.Contents()|
      requires chain.Ok() && chain.next == null && ApartFrom(view.chains, chain)
      modifies this`first, this`last, this`lastWithDatap, this`totalLen, this`view, ChainSet(view.chains)`next
      ensures Valid() && view == old(WithChain(view, chain, chain.data))
      ensures Contents() == old(Contents() + chain.data)
    {
      hide Separate, LastWithData, Compact, Kept, Concat;
      assert chain.off == |chain.data|;
      WithChainSound(view, chain, chain.data);
      totalLen := totalLen + chain.off;
      Link(chp, chain, chain.data);
    }

    method Link(chp: Chain?, chain: Chain, ghost data: Bytes)
      requires Links() && view.Used() == |view.chains| && chp == At(view.chains, |view.chains| - 1)
      requires chain.next == null && ApartFrom(view.chains, chain) && |data| == chain.off
      requires WithChain(view, chain, data).Sound()
      modifies this`first, this`last, this`lastWithDatap, this`view, ChainSet(view.chains)`next
      ensures Links() && view == old(WithChain(view, chain, data)) && last == chain
    {
      hide View.Used;
      assert view.w <= |view.chains| == |view.pieces|;
      hide Separate, LastWithData, Kept, Chained;
      if chp == null {
        first := chain;
        OneChained(chain);
      } else {
        LinkLast(chp, chain, view.chains);
      }
      if chain.off != 0 {
        lastWithDatap := chp;
      }
      last := chain;
      view := WithChain(view, chain, data);
    }

    // evbuffer_chain_insert.
    method ChainInsert(chain: Chain)
      requires Valid()
      requires chain.Ok() && chain.next == null && ApartFrom(view.chains, chain)
      modifies this`first, this`last, this`lastWithDatap, this`totalLen, this`view, ChainSet(view.chains)`next
      ensures Valid()
      ensures old(view.Used()) <= |old(view).chains|
      ensures view == old(WithChain(Front(view, view.Used()), chain, chain.data))
      ensures Contents() == old(Contents() + chain.data)
      ensures old(Compact(view.pieces)) ==> Compact(view.pieces)
    {
      hide Chain.Ok, Separate, LastWithData, Compact, Concat;
      FrontSound(view);
      WithChainSound(Front(view, view.Used()), chain, chain.data);
      assert chain !in view.chains;
      if Deref(lastWithDatap) == null {
        assert view.chains == [];
        Append(lastWithDatap, chain);
      } else {
        var chp := FreeTrailingEmptyChains();
        Append(chp, chain);
      }
    }

    // Write bytes behind those of chain i.
    method WriteBehind(chain: Chain, ghost i: nat, data: Bytes)
      requires view.Shaped() && Stocked() && i < |view.chains| && chain == view.chains[i]
      requires !chain.immutable && |data| <= chain.Space()
      modifies this`view, chain`off, chain`data, chain.buffer
      ensures view == old(WithPiece(view, i, view.pieces[i] + data)) && Stocked()
      ensures chain.misalign + chain.off <= chain.buffer.Length && chain.Space() == old(chain.Space()) - |data|
    {
      hide Separate, LastWithData, Compact, Concat;
      SeparateAt(view.chains, i);
      chain.Extend(data);
      view := WithPiece(view, i, view.pieces[i] + data);
    }

    // Write bytes behind those of the chain at last_with_datap, wherever that is.
    method FillHere(chain: Chain, data: Bytes)
      requires Linked() && view.w < |view.chains| == |view.pieces| && chain == view.chains[view.w]
      requires !chain.immutable && |data| <= chain.Space()
      modifies this`totalLen, this`view, chain`off, chain`data, chain.buffer
      ensures Linked() && view == old(WithPiece(view, view.w, view.pieces[view.w] + data))
      ensures Room(view) == old(Room(view)) - |data|
    {
      hide Separate, LastWithData, Compact, Concat, Apart, ApartFrom;
      assert chain.Ok();
      GrownLength(view, view.w, data);
      totalLen := totalLen + |data|;
      WriteBehind(chain, view.w, data);
      assert chain.Ok();
      hide Chain.Ok;
    }

    // Write bytes behind those of the last chain with data.
    method Fill(chain: Chain, data: Bytes)
      requires Valid() && view.w < |view.chains| && chain == view.chains[view.w]
      requires !chain.immutable && |data| <= chain.Space()
      modifies this`totalLen, this`view, chain`off, chain`data, chain.buffer
      ensures Valid()
      ensures view == old(WithPiece(view, view.w, view.pieces[view.w] + data))
      ensures Contents() == old(Contents()) + data && Room(view) == old(Room(view)) - |data|
      ensures old(Compact(view.pieces)) ==> Compact(view.pieces)
    {
      hide Chain.Ok, LastWithData, Compact, Concat, EvBuffer.Linked, EvBuffer.Loose, Room;
      LinkedIs();
      GrownLast(view, data);
      ShapedSound(WithPiece(view, view.w, view.pieces[view.w] + data));
      hide View.Sound, EvBuffer.Valid;
      FillHere(chain, data);
      LinkedIs();
    }

    // evbuffer_chain_align on a chain of the buffer.
    method Realign(chain: Chain, ghost i: nat)
      requires Valid() && i < |view.chains| && chain == view.chains[i] && !chain.immutable
      modifies chain`misalign, chain.buffer
      ensures Valid() && chain.misalign == 0
    {
      hide Separate, LastWithData, Compact, Concat;
      SeparateAt(view.chains, i);
      chain.Align();
    }

    twostate predicate Grown()
      reads this`view
    {
      forall c :: c in view.chains ==>
        c in old(view.chains) || (fresh(c) && fresh(c.buffer) && c.buffer.Length <= CHAIN_LIMIT)
    }

    twostate predicate Same()
      reads this`freezeStart, this`freezeEnd, this`scarce
    {
      freezeStart == old(freezeStart) && freezeEnd == old(freezeEnd) && scarce == old(scarce)
    }

    // evbuffer_add of n bytes fails: the end is frozen, or the length would be too large, or there is no
    // chain to put them in and no memory for another one.
    ghost predicate Fails(v: View, n: nat)
      reads this`freezeEnd, this`scarce
      reads (if v.w < |v.chains| then {v.chains[v.w]} else {})`misalign
      reads (if v.w < |v.chains| then {v.chains[v.w]} else {})`off
    {
      freezeEnd || |v.Contents()| + n > SIZE_MAX || (!Takes(v, n) && (scarce || NewRoom(v, n) > CHAIN_LIMIT))
    }

    // Links that change alter none of this.
    twostate lemma StillFails(v: View)
      requires freezeEnd == old(freezeEnd) && scarce == old(scarce)
      requires v.w < |v.chains| ==>
                 v.chains[v.w].misalign == old(v.chains[v.w].misalign) && v.chains[v.w].off == old(v.chains[v.w].off)
      ensures forall n: nat :: Fails(v, n) == old(Fails(v, n)) && Takes(v, n) == old(Takes(v, n))
      ensures Room(v) == old(Room(v))
    {
      hide Concat;
    }

    lemma Succeeds(v: View, n: nat)
      ensures !scarce && !freezeEnd && |v.Contents()| + n <= SIZE_MAX && n <= CHAIN_LIMIT && Sized(v.chains) ==>
                !Fails(v, n)
    {
      hide Concat, Sized, NextSize;
    }

    // A buffer that grew by new chains only is still apart from a list.
    twostate lemma GrownKeepsApart(cs: seq<Chain>)
      requires Grown() && AllApart(cs, old(view.chains))
      ensures AllApart(cs, view.chains)
    {
      forall j | 0 <= j < |view.chains|
        ensures ApartFrom(cs, view.chains[j])
      {
        var c := view.chains[j];
        if c in old(view.chains) {
          var i :| 0 <= i < |old(view.chains)| && old(view.chains)[i] == c;
        } else {
          FreshApart(cs, c);
        }
      }
    }

    // A buffer that may also have taken over chains of cs.
    twostate predicate GrownWith(cs: seq<Chain>)
      reads this`view
    {
      forall c :: c in view.chains ==>
        c in old(view.chains) || c in cs || (fresh(c) && fresh(c.buffer) && c.buffer.Length <= CHAIN_LIMIT)
    }

    twostate lemma GrownWithSized(cs: seq<Chain>)
      requires GrownWith(cs) && Sized(old(view.chains)) && Sized(cs)
      ensures Sized(view.chains)
    {
    }

    twostate lemma GrownSized()
      requires Grown() && Sized(old(view.chains))
      ensures Sized(view.chains)
    {
    }

    // evbuffer_add.
    method Add(bytes: Bytes) returns (r: int)
      requires Valid()
      modifies this, Writable(view.chains)
      ensures Valid() && Grown() && Same()
      ensures r == 0 || r == -1
      ensures Contents() == if r == 0 then old(Contents()) + bytes else old(Contents())
      ensures r == -1 <==> old(Fails(view, |bytes|))
      ensures (!scarce && !freezeEnd && old(totalLen) + |bytes| <= SIZE_MAX && |bytes| <= CHAIN_LIMIT
               && Sized(old(view.chains))) ==> r == 0
      ensures old(Compact(view.pieces)) ==> Compact(view.pieces)
      ensures old(view.chains) == [] && r == 0 ==> view.pieces == [bytes] && view.w == 0 && Room(view) + |bytes| >= MIN_ROOM
    {
      hide Compact, Concat, Separate, LastWithData, Chain.Ok, EvBuffer.Links, EvBuffer.Stocked;
      SourceFacts();
      Succeeds(view, |bytes|);
      if freezeEnd {
        return -1;
      }
      if |bytes| > SIZE_MAX - totalLen {
        return -1;
      }
      var chain := ChainToAdd(|bytes|);
      if chain == null {
        return -1;
      }
      r := AddTo(chain, bytes);
    }

    // Whether evbuffer_add of n bytes answers -1 before it looks at them.
    method Refuses(n: nat) returns (no: bool)
      requires Valid()
      ensures no <==> Fails(view, n)
    {
      hide Compact, Concat, Separate, LastWithData;
      SourceFacts();
      if freezeEnd {
        return true;
      }
      if n > SIZE_MAX - totalLen {
        return true;
      }
      var chain := Deref(lastWithDatap);
      if chain == null {
        chain := last;
      }
      if chain == null {
        return scarce || n > CHAIN_LIMIT;
      }
      assert chain.Ok();
      if !chain.immutable {
        if chain.Space() >= n || chain.ShouldRealign(n) {
          return false;
        }
      }
      no := scarce || NextSize(chain.buffer.Length, n) > CHAIN_LIMIT;
    }

    // The chain that evbuffer_add begins with: the last one with data, or else a first chain.
    method ChainToAdd(datlen: nat) returns (chain: Chain?)
      requires Valid()
      modifies this
      ensures Valid() && Grown() && Same() && Contents() == old(Contents())
      ensures chain != null ==> view.w < |view.chains| && chain == view.chains[view.w]
      ensures old(Compact(view.pieces)) ==> Compact(view.pieces)
      ensures chain == null <==> old(view.chains) == [] && (scarce || datlen > CHAIN_LIMIT)
      ensures old(view.chains) != [] ==> unchanged(this) && old(view.w) < |old(view).chains|
      ensures chain != null && old(view.chains) == [] ==>
                view.pieces == [[]] && view.w == 0 && Room(view) >= datlen && Room(view) >= MIN_ROOM
    {
      hide Compact, Concat, Separate, LastWithData;
      chain := Deref(lastWithDatap);
      if chain == null {
        chain := last;
      }
      if chain == null {
        chain := ChainNew(datlen, scarce);
        if chain == null {
          return null;
        }
        FreshApart(view.chains, chain);
        ChainInsert(chain);
      }
    }

    // evbuffer_add once there is a last chain with data, or an empty first chain.
    method AddTo(chain: Chain, bytes: Bytes) returns (r: int)
      requires Valid() && view.w < |view.chains| && chain == view.chains[view.w]
      modifies this, Writable(view.chains)
      ensures Valid() && Grown() && Same()
      ensures r == 0 || r == -1
      ensures Contents() == if r == 0 then old(Contents()) + bytes else old(Contents())
      ensures old(Compact(view.pieces)) ==> Compact(view.pieces)
      ensures r == -1 <==> !old(chain.Takes(|bytes|)) && (scarce || NextSize(chain.buffer.Length, |bytes|) > CHAIN_LIMIT)
      ensures old(Room(view)) >= |bytes| && old(view.pieces) == [[]] ==>
                r == 0 && view.pieces == [bytes] && view.w == old(view.w) && Room(view) == old(Room(view)) - |bytes|
    {
      hide Compact, Concat, Separate, LastWithData, EvBuffer.Links, At, EvBuffer.Contents;
      assert chain in view.chains && chain.Ok() && [] + bytes == bytes;
      var remain := 0;
      if !chain.immutable {
        remain := chain.Space();
        if remain >= |bytes| {
          Fill(chain, bytes);
          return 0;
        } else if chain.ShouldRealign(|bytes|) {
          Realign(chain, view.w);
          Fill(chain, bytes);
          return 0;
        }
      }
      r := AddChain(chain, remain, bytes);
    }

    // The bytes that do not fit behind those of the last chain with data go to a new chain.
    method AddChain(chain: Chain, remain: nat, bytes: Bytes) returns (r: int)
      requires Valid() && view.w < |view.chains| && chain == view.chains[view.w]
      requires chain.Ok() && remain == chain.Space() <= |bytes|
      modifies this, Writable(view.chains)
      ensures Valid() && Grown() && Same()
      ensures r == 0 || r == -1
      ensures Contents() == if r == 0 then old(Contents()) + bytes else old(Contents())
      ensures old(Compact(view.pieces)) ==> Compact(view.pieces)
      ensures r == -1 <==> scarce || NextSize(chain.buffer.Length, |bytes|) > CHAIN_LIMIT
    {
      hide Compact, Concat, Separate, LastWithData, EvBuffer.Links, At, Chain.Ok, EvBuffer.Contents;
      assert chain in view.chains;
      var toAlloc := chain.buffer.Length;
      if toAlloc <= MAX_AUTO_SIZE / 2 {
        toAlloc := 2 * toAlloc;
      }
      if |bytes| > toAlloc {
        toAlloc := |bytes|;
      }
      var tmp := ChainNew(toAlloc, scarce);
      if tmp == null {
        return -1;
      }
      FreshApart(view.chains, tmp);
      assert bytes == bytes[..remain] + bytes[remain..];
      if remain > 0 {
        Fill(chain, bytes[..remain]);
      }
      InsertNew(tmp, bytes[remain..]);
      return 0;
    }

    // Put bytes into a new chain and the chain at the end of the buffer.
    method InsertNew(tmp: Chain, bytes: Bytes)
      requires Valid() && ApartFrom(view.chains, tmp)
      requires tmp.Ok() && tmp.data == [] && tmp.next == null && !tmp.immutable && |bytes| <= tmp.Space()
      modifies this, Writable(view.chains), tmp`off, tmp`data, tmp.buffer
      ensures Valid() && Same()
      ensures forall c :: c in view.chains ==> c == tmp || c in old(view.chains)
      ensures Contents() == old(Contents()) + bytes
      ensures old(Compact(view.pieces)) ==> Compact(view.pieces)
    {
      hide Compact, Concat, Separate, LastWithData, EvBuffer.Links, View.Used, ChainSet, At, Chain.Ok;
      tmp.Extend(bytes);
      ChainInsert(tmp);
    }

    lemma LagsInside()
      requires Lags()
      ensures view.w < |view.chains| == |view.pieces| && Deref(lastWithDatap) == view.chains[view.w]
      ensures view.chains[view.w].Ok() && view.chains[view.w] in Writable(view.chains) && totalLen == |view.Contents()|
      ensures view.chains[view.w].off == |view.pieces[view.w]|
      ensures !view.chains[view.w].immutable ==> view.chains[view.w].buffer in Writable(view.chains)
    {
      hide Separate, Concat;
      assert view.w > 0 ==> view.chains[view.w - 1].next == At(view.chains, view.w);
      assert view.chains[view.w] in view.chains;
    }

    // evbuffer_add to a buffer whose last_with_datap has stayed behind: bytes that find room go there, and
    // for a new chain evbuffer_free_trailing_empty_chains ends the program.
    method AddLagging(bytes: Bytes) returns (r: int, died: bool)
      requires Lags()
      modifies this, Writable(view.chains)
      ensures r == 0 || r == -1
      ensures !died ==> Linked() && Same() && view.chains == old(view.chains)
      ensures !died && r == 0 ==>
                old(view.w) < |old(view.pieces)| && view == old(WithPiece(view, view.w, view.pieces[view.w] + bytes))
      ensures !died && r == -1 ==> view == old(view)
      ensures r == 0 <==> old(!Fails(view, |bytes|) && Takes(view, |bytes|))
      ensures died <==> old(!Fails(view, |bytes|) && !Takes(view, |bytes|))
      ensures r == 0 && old(Room(view)) >= |bytes| ==> Room(view) == old(Room(view)) - |bytes|
    {
      hide EvBuffer.Linked, Writable;
      LagsInside();
      label before:
      died := false;
      if freezeEnd {
        return -1, false;
      }
      if |bytes| > SIZE_MAX - totalLen {
        return -1, false;
      }
      var chain := Deref(lastWithDatap);
      if !chain.immutable {
        if chain.Space() >= |bytes| {
          FillHere(chain, bytes);
          return 0, false;
        } else if chain.ShouldRealign(|bytes|) {
          assert Room(view) < |bytes|;
          RealignHere(chain);
          FillHere(chain, bytes);
          return 0, false;
        }
      }
      var toAlloc := chain.buffer.Length;
      if toAlloc <= MAX_AUTO_SIZE / 2 {
        toAlloc := 2 * toAlloc;
      }
      if |bytes| > toAlloc {
        toAlloc := |bytes|;
      }
      var tmp := ChainNew(toAlloc, scarce);
      StillEither@before();
      r, died := -1, tmp != null;
    }

    method RealignHere(chain: Chain)
      requires Linked() && view.w < |view.chains| && chain == view.chains[view.w] && !chain.immutable
      modifies chain`misalign, chain.buffer
      ensures Linked() && chain.Ok() && chain.misalign == 0
    {
      hide Separate, LastWithData, Compact, Concat;
      SeparateAt(view.chains, view.w);
      chain.Align();
    }

    // Which of the two it is.
    lemma EitherLinked()
      requires Valid() || Lags()
      ensures Linked() && Loose() && Stocked() && view.w <= |view.pieces|
      ensures Lags() <==> Stuck(view.pieces, view.w)
      ensures Valid() <==> !Stuck(view.pieces, view.w)
    {
      LinkedIs();
      if Valid() {
        LastIsNotStuck(view.pieces, view.w);
      }
      hide Separate, LastWithData, Concat, Stuck;
    }

    // The bytes were added behind all others, or nothing was.
    twostate predicate Took(bytes: Bytes, added: bool)
      reads this, view.chains, Buffers(view.chains)
    {
      && Valid() && Contents() == old(Contents()) + (if added then bytes else [])
      && (old(Compact(view.pieces)) ==> Compact(view.pieces))
      && (added <==> !old(Fails(view, |bytes|)))
    }

    // The bytes were added behind those of the chain at last_with_datap, or nothing was, or the program died.
    twostate predicate TookHere(bytes: Bytes, added: bool, died: bool)
      reads this, view.chains, Buffers(view.chains)
    {
      && (!died ==>
            && Linked() && old(view.w < |view.pieces|)
            && view == old(WithPiece(view, view.w, view.pieces[view.w] + if added then bytes else [])))
      && (added <==> old(!Fails(view, |bytes|) && Takes(view, |bytes|)))
      && (died <==> old(!Fails(view, |bytes|) && !Takes(view, |bytes|)))
      && (added && old(Room(view)) >= |bytes| ==> Room(view) == old(Room(view)) - |bytes|)
    }

    // evbuffer_add to a buffer of either kind. It is the same code for both, told apart for the proofs only.
    method AddAny(bytes: Bytes) returns (r: int, died: bool)
      requires Valid() || Lags()
      modifies this, Writable(view.chains)
      ensures r == 0 || r == -1
      ensures died ==> old(Lags())
      ensures !died ==> Grown() && Same()
      ensures old(Valid()) ==> Took(bytes, r == 0)
      ensures old(Lags()) ==> TookHere(bytes, r == 0, died)
    {
      hide EvBuffer.Valid, EvBuffer.Linked, EvBuffer.Lags, EvBuffer.Loose, EvBuffer.Stocked, Room;
      hide Compact, Sized, Writable, Stuck, EvBuffer.Contents;
      EitherLinked();
      label before:
      var fine := AllEmptyBehind();
      StillEither@before();
      if fine {
        r := Add(bytes);
        died := false;
      } else {
        LagsInside();
        NothingAdded(view);
        r, died := AddLagging(bytes);
      }
    }

    // evbuffer_add_reference: the memory is used where it is, and never written.
    method AddReference(memory: array<byte>) returns (r: int)
      requires Valid() && memory.Length > 0
      requires forall i :: 0 <= i < |view.chains| && view.chains[i].buffer == memory ==> view.chains[i].immutable
      modifies this, Writable(view.chains)
      ensures Valid() && Same()
      ensures forall c :: c in view.chains ==> c in old(view.chains) || (fresh(c) && c.immutable && c.buffer == memory)
      ensures r == 0 || r == -1
      ensures Contents() == if r == 0 then old(Contents()) + old(memory[..]) else old(Contents())
      ensures old(view.Used()) <= |old(view).chains|
      ensures r == 0 ==>
                && |view.chains| > 0 && view.chains[|view.chains| - 1].immutable
                && view == WithChain(Front(old(view), old(view.Used())), view.chains[|view.chains| - 1], old(memory[..]))
      ensures r == -1 <==> freezeEnd || scarce
      ensures old(Compact(view.pieces)) ==> Compact(view.pieces)
    {
      hide Compact, Concat, Separate, LastWithData, EvBuffer.Links, View.Used, ChainSet, At, Chain.Ok, EvBuffer.Contents;
      UsedInside();
      if scarce {
        return -1;
      }
      var chain := new Chain.Reference(memory);
      if freezeEnd {
        return -1;
      }
      ReferenceApart(view.chains, chain);
      ChainInsert(chain);
      return 0;
    }

    // Write bytes before those of the first chain.
    method WriteBefore(chain: Chain, bytes: Bytes)
      requires Valid() && |view.chains| > 0 && chain == view.chains[0]
      requires !chain.immutable && chain.misalign + chain.off <= chain.buffer.Length && |bytes| <= chain.misalign
      modifies this`totalLen, this`view, chain`misalign, chain`off, chain`data, chain.buffer
      ensures Valid() && |old(view.pieces)| > 0
      ensures view == old(WithPiece(view, 0, bytes + view.pieces[0]))
      ensures chain.misalign == old(chain.misalign) - |bytes|
    {
      hide Compact, Concat, Separate, LastWithData, Chained, ApartFrom, At;
      GrownFront(view, bytes);
      SeparateAt(view.chains, 0);
      totalLen := totalLen + |bytes|;
      chain.ExtendFront(bytes);
      view := WithPiece(view, 0, bytes + view.pieces[0]);
    }

    method RewindFirst(chain: Chain)
      requires Valid() && |view.chains| > 0 && chain == view.chains[0] && !chain.immutable && chain.off == 0
      modifies chain`misalign
      ensures Valid() && chain.misalign == chain.buffer.Length
    {
      hide Compact, Concat, Separate, LastWithData;
      SeparateAt(view.chains, 0);
      chain.Rewind();
    }

    // Put a chain with bytes before the first one.
    method PushFront(tmp: Chain)
      requires Valid() && view.w < |view.chains| && |view.chains| == |view.pieces| && view.pieces[view.w] != []
      requires ApartFrom(view.chains, tmp) && tmp.Ok()
      modifies this`first, this`lastWithDatap, this`totalLen, this`view, tmp`next
      ensures Valid() && view == old(Pushed(view, tmp, tmp.data))
    {
      hide Compact, Concat, Separate, LastWithData;
      assert tmp.off == |tmp.data|;
      PushedSound(view, tmp, tmp.data);
      totalLen := totalLen + tmp.off;
      LinkFront(tmp, tmp.data);
    }

    method LinkFront(tmp: Chain, ghost data: Bytes)
      requires Links() && view.w < |view.chains| && ApartFrom(view.chains, tmp)
      requires Pushed(view, tmp, data).Sound()
      modifies this`first, this`lastWithDatap, this`view, tmp`next
      ensures Links() && view == old(Pushed(view, tmp, data))
    {
      hide Compact, Concat, Separate, LastWithData;
      assert tmp !in view.chains;
      tmp.next := first;
      first := tmp;
      if lastWithDatap == null {
        lastWithDatap := tmp;
      }
      view := Pushed(view, tmp, data);
    }

    // evbuffer_prepend of n bytes fails: the start is frozen, or the length would be too large, or there is not
    // enough room in the first chain and no memory for another one.
    ghost predicate PrependFails(n: nat)
      reads this`freezeStart, this`scarce, this`totalLen, this`first
      reads (if first == null then {} else {first})`misalign, (if first == null then {} else {first})`off
    {
      || freezeStart || totalLen + n > SIZE_MAX
      || if first == null then scarce || n > CHAIN_LIMIT
         else (first.immutable || first.FrontRoom() < n) && (scarce || n - first.FrontRoom() > CHAIN_LIMIT)
    }

    // How many bytes are in front after it: when it fails for want of memory the room in the first chain has
    // been filled with the last ones.
    ghost function Prepended(n: nat): nat
      reads this`freezeStart, this`scarce, this`totalLen, this`first
      reads (if first == null then {} else {first})`misalign, (if first == null then {} else {first})`off
    {
      if !PrependFails(n) then n
      else if freezeStart || totalLen + n > SIZE_MAX || first == null then 0
      else first.FrontRoom()
    }

    // evbuffer_prepend: put says how many bytes are in front then, the last ones. Prepending nothing before
    // an immutable chain is the one case that leaves an empty chain before data.
    method Prepend(bytes: Bytes) returns (r: int, ghost put: nat)
      requires Valid()
      modifies this, Writable(view.chains)
      ensures Valid() && Grown() && Same()
      ensures r == if old(PrependFails(|bytes|)) then -1 else 0
      ensures put == old(Prepended(|bytes|)) <= |bytes| && Contents() == Last(bytes, put) + old(Contents())
      ensures (!scarce && !freezeStart && old(totalLen) + |bytes| <= SIZE_MAX && |bytes| <= CHAIN_LIMIT) ==> r == 0
      ensures old(Compact(view.pieces)) ==>
                (Compact(view.pieces) <==> !(r == 0 && bytes == [] && old(first != null && first.immutable)))
      ensures r == 0 && old(first != null && first.immutable) ==>
                && |view.chains| > 0 && view == Pushed(old(view), view.chains[0], bytes)
                && (|bytes| <= MIN_ROOM ==> view.chains[0].buffer.Length == MIN_ROOM)
    {
      hide EvBuffer.Valid, EvBuffer.Contents, Compact, Last;
      put := 0;
      LengthBounded();
      NothingPut(bytes, Contents());
      if freezeStart {
        return -1, 0;
      }
      if |bytes| > SIZE_MAX - totalLen {
        return -1, 0;
      }
      var found := FirstChain(|bytes|);
      if !found {
        return -1, 0;
      }
      r, put := PrependTo(first, bytes);
    }

    lemma LengthBounded()
      requires Valid()
      ensures totalLen == |Contents()| && (first == null <==> |view.chains| == 0)
      ensures |view.chains| > 0 ==> first == view.chains[0]
    {
      hide Compact, Concat, Separate, LastWithData;
    }

    // evbuffer_prepend gives an empty buffer a first chain.
    method FirstChain(datlen: nat) returns (found: bool)
      requires Valid()
      modifies this
      ensures Valid() && Grown() && Same() && Contents() == old(Contents())
      ensures found ==> |view.chains| > 0 && first == view.chains[0]
      ensures old(first) != null ==> found && unchanged(this)
      ensures found && old(first) == null ==> !first.immutable && datlen <= first.buffer.Length && first.off == 0
      ensures found && old(first) == null ==> fresh(Writable(view.chains))
      ensures found <==> old(first) != null || !(scarce || datlen > CHAIN_LIMIT)
      ensures old(Compact(view.pieces)) ==> Compact(view.pieces)
    {
      hide Compact, Concat, Separate, LastWithData;
      LengthBounded();
      if first != null {
        return true;
      }
      var chain := ChainNew(datlen, scarce);
      if chain == null {
        return false;
      }
      FreshApart(view.chains, chain);
      ChainInsert(chain);
      return true;
    }

    // The part of evbuffer_prepend that uses the room in a first chain that may be written: the
    // last put bytes go there.
    method PutSome(chain: Chain, bytes: Bytes) returns (put: nat)
      requires Valid() && |view.chains| > 0 && chain == view.chains[0] && !chain.immutable
      modifies this`totalLen, this`view, chain`misalign, chain`off, chain`data, chain.buffer
      ensures Valid() && view.chains == old(view.chains)
      ensures put <= |bytes| && Contents() == Last(bytes, put) + old(Contents())
      ensures put == if |bytes| <= old(chain.FrontRoom()) then |bytes| else old(chain.FrontRoom())
      ensures put < |bytes| ==> chain.off > 0
      ensures old(Compact(view.pieces)) ==> Compact(view.pieces)
    {
      hide Compact, Concat, Separate, LastWithData;
      assert chain.Ok();
      if chain.off == 0 {
        RewindFirst(chain);
      }
      put := if chain.misalign >= |bytes| then |bytes| else chain.misalign;
      GrownFront(view, Last(bytes, put));
      WriteBefore(chain, Last(bytes, put));
    }

    // evbuffer_prepend once there is a first chain.
    method PrependTo(chain: Chain, bytes: Bytes) returns (r: int, ghost put: nat)
      requires Valid() && |view.chains| > 0 && chain == view.chains[0]
      modifies this, Writable(view.chains)
      ensures Valid() && Grown() && Same()
      ensures r == 0 || r == -1
      ensures r == -1 <==> old((chain.immutable || chain.FrontRoom() < |bytes|)
                               && (scarce || |bytes| - chain.FrontRoom() > CHAIN_LIMIT))
      ensures put == (if r == 0 then |bytes| else old(chain.FrontRoom())) <= |bytes|
      ensures Contents() == Last(bytes, put) + old(Contents())
      ensures old(Compact(view.pieces)) ==>
                (Compact(view.pieces) <==> !(r == 0 && bytes == [] && chain.immutable))
      ensures r == 0 && chain.immutable ==>
                && |view.chains| > 0 && view == Pushed(old(view), view.chains[0], bytes)
                && (|bytes| <= MIN_ROOM ==> view.chains[0].buffer.Length == MIN_ROOM)
    {
      hide EvBuffer.Valid, EvBuffer.Contents, Compact, Last;
      ghost var was := Contents();
      FirstMayBeWritten();
      if chain.immutable {
        NothingPut(bytes, was);
        assert bytes[..|bytes|] == bytes;
        r, put := PrependRest(bytes, 0, was);
      } else {
        var fit := PutSome(chain, bytes);
        if fit == |bytes| {
          return 0, fit;
        }
        r, put := PrependRest(bytes, fit, was);
      }
    }

    // What may be written of the first chain.
    lemma FirstMayBeWritten()
      requires Valid() && |view.chains| > 0
      ensures view.chains[0] in Writable(view.chains)
      ensures !view.chains[0].immutable ==> view.chains[0].buffer in Writable(view.chains)
      ensures view.chains[0].immutable ==> view.chains[0].off > 0
    {
      hide Compact, Concat, Separate, LastWithData;
      assert view.chains[0].Ok();
    }

    // The part of evbuffer_prepend that puts the bytes before the last fit ones into a new chain; those
    // are in front already.
    method PrependRest(bytes: Bytes, fit: nat, ghost was: Bytes) returns (r: int, ghost put: nat)
      requires Valid() && |view.chains| > 0 && view.chains[0].off > 0
      requires (fit < |bytes| || fit == 0) && fit <= |bytes| && Contents() == Last(bytes, fit) + was
      modifies this
      ensures Valid() && Grown() && Same()
      ensures (r == 0 && put == |bytes|) || (r == -1 && put == fit)
      ensures Contents() == Last(bytes, put) + was
      ensures r == -1 <==> scarce || |bytes| - fit > CHAIN_LIMIT
      ensures old(Compact(view.pieces)) ==> (Compact(view.pieces) <==> !(r == 0 && bytes == []))
      ensures r == 0 ==>
                && |view.chains| > 0 && view == Pushed(old(view), view.chains[0], bytes[..|bytes| - fit])
                && (|bytes| - fit <= MIN_ROOM ==> view.chains[0].buffer.Length == MIN_ROOM)
    {
      hide EvBuffer.Valid, EvBuffer.Contents, Compact, Last;
      FirstHasBytes();
      PutInTwo(bytes, fit, was);
      r := PrependChain(bytes[..|bytes| - fit]);
      put := if r == 0 then |bytes| else fit;
    }

    lemma FirstHasBytes()
      requires Valid() && |view.chains| > 0 && view.chains[0].off > 0
      ensures |view.pieces| == |view.chains| && view.pieces[0] != []
    {
      ChainAt(0);
      hide EvBuffer.Valid;
    }

    // A new first chain for bytes.
    method PrependChain(bytes: Bytes) returns (r: int)
      requires Valid() && |view.chains| > 0 && |view.pieces| == |view.chains| && view.pieces[0] != []
      modifies this
      ensures Valid() && Grown() && Same()
      ensures r == 0 || r == -1
      ensures Contents() == if r == 0 then bytes + old(Contents()) else old(Contents())
      ensures r == -1 <==> scarce || |bytes| > CHAIN_LIMIT
      ensures old(Compact(view.pieces)) ==> (Compact(view.pieces) <==> !(r == 0 && bytes == []))
      ensures r == 0 ==>
                && |view.chains| > 0 && view == Pushed(old(view), view.chains[0], bytes)
                && (|bytes| <= MIN_ROOM ==> view.chains[0].buffer.Length == MIN_ROOM)
    {
      hide Compact, Concat, Separate, LastWithData, EvBuffer.Valid, Chain.Ok, ApartFrom;
      SourceFacts();
      var tmp := ChainNew(|bytes|, scarce);
      StillValid();
      if tmp == null {
        return -1;
      }
      LastHasData(view);
      FreshApart(view.chains, tmp);
      PushedSound(view, tmp, bytes);
      PushNew(tmp, bytes);
      return 0;
    }

    // Put bytes at the end of a new chain and the chain before the first one.
    method PushNew(tmp: Chain, bytes: Bytes)
      requires Valid() && view.w < |view.chains| && |view.chains| == |view.pieces| && view.pieces[view.w] != []
      requires ApartFrom(view.chains, tmp) && tmp.Ok() && tmp.data == [] && !tmp.immutable
      requires |bytes| <= tmp.buffer.Length
      modifies this`first, this`lastWithDatap, this`totalLen, this`view
      modifies tmp`next, tmp`misalign, tmp`off, tmp`data, tmp.buffer
      ensures Valid() && view == old(Pushed(view, tmp, bytes))
    {
      hide Compact, Concat, Separate, LastWithData;
      tmp.Rewind();
      tmp.ExtendFront(bytes);
      assert tmp.data == bytes;
      PushFront(tmp);
    }

    // ZERO_CHAIN.
    method ZeroChain()
      modifies this`first, this`last, this`lastWithDatap, this`totalLen, this`view
      ensures Valid() && view == View([], [], 0)
    {
      first, last, lastWithDatap, totalLen := null, null, null, 0;
      view := View([], [], 0);
    }

    // The chains before chain k are about to leave the buffer: last_with_datap is no longer the
    // address of a next field of theirs, but first still points at the first of them.
    ghost predicate Passed(k: nat)
      reads this`view, this`lastWithDatap, view.chains, Buffers(view.chains)
    {
      match view
      case View(chains, pieces, w) =>
        && view.Sound() && Chained(chains) && Stocked() && k <= w < |chains|
        && lastWithDatap == if k == w then null else chains[w - 1]
    }

    // The loop of evbuffer_drain: passes over the chains that are freed, moving last_with_datap
    // away from them.
    method SkipDrained(len: nat) returns (chain: Chain, remaining: nat, ghost k: nat)
      requires Links() && Stocked() && len < |view.Contents()|
      modifies this`lastWithDatap
      ensures Passed(k) && k < |view.chains| == |view.pieces| && chain == view.chains[k]
      ensures remaining < |view.pieces[k]| && len == Before(view, k) + remaining
    {
      hide Compact, Concat, Separate, Chain.Ok, Before;
      BeforeEnds(view);
      chain, remaining, k := first, len, 0;
      while remaining >= chain.off
        invariant k < |view.chains| == |view.pieces| && chain == view.chains[k]
        invariant len == Before(view, k) + remaining
        invariant lastWithDatap == if k >= view.w then null else view.chains[view.w - 1]
        decreases |view.chains| - k
      {
        SeparateAt(view.chains, k);
        BeforeNext(view, k);
        var next := chain.next;
        remaining := remaining - chain.off;
        if chain == Deref(lastWithDatap) {
          lastWithDatap := null;
        }
        if chain == lastWithDatap {
          lastWithDatap := null;
        }
        chain := next;
        k := k + 1;
      }
    }

    // The list begins with a later chain now.
    method CutFront(chain: Chain, ghost k: nat)
      requires Passed(k) && k < |view.chains| == |view.pieces| && chain == view.chains[k]
      requires view.pieces[k] != [] && Rest(view, k, 0).Sound()
      modifies this`first, this`view
      ensures Links() && Stocked() && view == old(Rest(view, k, 0))
    {
      hide Compact, Concat, Separate, LastWithData, Chain.Ok;
      first := chain;
      view := Rest(view, k, 0);
    }

    // Give up the first n bytes of the first chain.
    method ShrinkFirst(chain: Chain, n: nat)
      requires Links() && Stocked() && |view.chains| == |view.pieces| > 0 && chain == view.chains[0] && n < |view.pieces[0]|
      requires WithPiece(view, 0, view.pieces[0][n..]).Sound()
      modifies this`view, chain`misalign, chain`off, chain`data
      ensures Links() && Stocked() && view == old(WithPiece(view, 0, view.pieces[0][n..]))
    {
      hide Compact, Concat, Separate, LastWithData;
      SeparateAt(view.chains, 0);
      chain.Shrink(n);
      view := WithPiece(view, 0, view.pieces[0][n..]);
    }

    // Give up the first n bytes of chain i.
    method ShrinkAt(chain: Chain, n: nat, ghost i: nat)
      requires Loose() && Stocked() && i < |view.chains| == |view.pieces| && chain == view.chains[i] && n < |view.pieces[i]|
      modifies this`view, chain`misalign, chain`off, chain`data
      ensures Loose() && Stocked() && view == old(WithPiece(view, i, view.pieces[i][n..]))
    {
      hide Compact, Concat, Separate, LastWithData;
      SeparateAt(view.chains, i);
      chain.Shrink(n);
      view := WithPiece(view, i, view.pieces[i][n..]);
    }

    // Free the chains that are drained as a whole.
    method DropChains(len: nat) returns (chain: Chain, remaining: nat, ghost k: nat)
      requires Links() && Stocked() && len < |view.Contents()|
      modifies this`first, this`lastWithDatap, this`view
      ensures k < |old(view).pieces| == |old(view).chains| && old(view).pieces[k] != []
      ensures Links() && Stocked() && view == Rest(old(view), k, 0) && chain == old(view).chains[k]
      ensures remaining < |old(view).pieces[k]| && len == Before(old(view), k) + remaining
      ensures |view.chains| == |view.pieces| > 0 && chain == view.chains[0] && remaining < |view.pieces[0]|
    {
      hide Compact, Concat, Separate, LastWithData, Chain.Ok, Before;
      chain, remaining, k := SkipDrained(len);
      RestSound(view, k, 0);
      CutFront(chain, k);
    }

    // The part of evbuffer_drain that leaves some bytes.
    method DrainSome(len: nat)
      requires Valid() && len < totalLen
      modifies this`first, this`lastWithDatap, this`totalLen, this`view, ChainSet(view.chains)
      ensures Valid()
      ensures forall c :: c in view.chains ==> c in old(view.chains)
      ensures len <= |old(Contents())| && Contents() == old(Contents())[len..]
      ensures old(Compact(view.pieces)) ==> Compact(view.pieces)
    {
      hide Compact, Concat, Separate, LastWithData, Chain.Ok, Before, Rest, At;
      ghost var v := view;
      totalLen := totalLen - len;
      var chain, remaining;
      ghost var k;
      chain, remaining, k := DropChains(len);
      RestSound(v, k, remaining);
      RestInTwo(v, k, remaining);
      RestFrom(v, k, remaining);
      ShrinkFirst(chain, remaining);
    }

    // evbuffer_drain.
    method Drain(len: nat) returns (r: int)
      requires Valid()
      modifies this, ChainSet(view.chains)
      ensures Valid() && Same()
      ensures forall c :: c in view.chains ==> c in old(view.chains)
      ensures r == if old(totalLen) > 0 && freezeStart then -1 else 0
      ensures Contents() == if r == -1 then old(Contents())
                            else if len >= old(totalLen) then [] else old(Contents())[len..]
      ensures old(Compact(view.pieces)) ==> Compact(view.pieces)
    {
      hide Compact, Concat, Separate, LastWithData, Chain.Ok, EvBuffer.Links, EvBuffer.Stocked;
      var oldLen := totalLen;
      assert |Contents()| == oldLen;
      if oldLen == 0 {
        return 0;
      }
      if freezeStart {
        return -1;
      }
      if len >= oldLen {
        ZeroChain();
        EmptyIsCompact();
      } else {
        DrainSome(len);
      }
      return 0;
    }

    // No chain and no memory that may be written is shared with another buffer.
    ghost predicate DisjointFrom(other: EvBuffer)
      reads this`view, other`view
    {
      this != other && AllApart(view.chains, other.view.chains)
    }

    lemma IsDisjoint(other: EvBuffer)
      ensures DisjointFrom(other) <==> other.DisjointFrom(this)
    {
      ApartSwap(view.chains, other.view.chains);
    }

    // Another buffer that did not change while this one grew by new chains only.
    twostate lemma KeepsApart(other: EvBuffer)
      requires old(other.Valid()) && old(DisjointFrom(other)) && Grown()
      requires unchanged(other) && forall c <- other.view.chains :: unchanged(c) && unchanged(c.buffer)
      ensures other.Valid() && DisjointFrom(other)
    {
      hide EvBuffer.Valid;
      other.StillValid();
      ApartSwap(old(view.chains), other.view.chains);
      GrownKeepsApart(other.view.chains);
      ApartSwap(view.chains, other.view.chains);
    }

    // COPY_CHAIN: the chains of inbuf become those of an empty buffer.
    method CopyChains(inbuf: EvBuffer)
      requires inbuf != this && inbuf.Valid()
      modifies this`first, this`last, this`lastWithDatap, this`totalLen, this`view
      ensures Valid() && view == inbuf.view
    {
      hide Compact, Concat, Separate, LastWithData, Chain.Ok;
      first := inbuf.first;
      // The address of the first pointer is that of this buffer.
      lastWithDatap := inbuf.lastWithDatap;
      last := inbuf.last;
      totalLen := inbuf.totalLen;
      view := inbuf.view;
    }

    // APPEND_CHAIN: the chains cs, linked from head to tail, become the last ones of the buffer.
    // lastp is last_with_datap of the buffer they come from, and len its length.
    method AppendChains(head: Chain, tail: Chain, lastp: Chain?, len: nat, ghost from: View)
      requires Valid() && Incoming(head, tail, lastp, len, from) && AllApart(view.chains, from.chains)
      modifies this`first, this`last, this`lastWithDatap, this`totalLen, this`view, ChainSet(view.chains)`next
      ensures Valid() && old(view.Used()) <= |old(view).chains|
      ensures view == JoinedViews(old(Front(view, view.Used())), from)
      ensures Contents() == old(Contents()) + from.Contents()
      ensures old(Compact(view.pieces)) && Compact(from.pieces) ==> Compact(view.pieces)
    {
      hide Compact, Concat, Separate, LastWithData, Chain.Ok, EvBuffer.Stocked, Chained, Joined, AllApart, Apart, At;
      FrontSound(view);
      FrontApart(view, from.chains);
      ApartDisjoint(view.chains, from.chains);
      var chp := FreeTrailingEmptyChains();
      JoinedAll(view, from);
      AppendAt(chp, head, tail, lastp, len, from);
    }

    method AppendAt(chp: Chain?, head: Chain, tail: Chain, lastp: Chain?, len: nat, ghost from: View)
      requires Links() && Stocked() && chp == At(view.chains, |view.chains| - 1) && totalLen == |view.Contents()|
      requires Incoming(head, tail, lastp, len, from) && AllApart(view.chains, from.chains)
      requires JoinedViews(view, from).Sound() && JoinedViews(view, from).Contents() == view.Contents() + from.Contents()
      modifies this`first, this`last, this`lastWithDatap, this`totalLen, this`view, ChainSet(view.chains)`next
      ensures Valid() && view == JoinedViews(old(view), from)
    {
      hide Compact, Concat, Separate, LastWithData, Chain.Ok, Chained, AllApart, ChainSet;
      ApartDisjoint(view.chains, from.chains);
      StoredJoin(view.chains, view.pieces, from.chains, from.pieces);
      JoinedEnds(view, from);
      totalLen := totalLen + len;
      lastWithDatap := if lastp == null then chp else lastp;
      last := tail;
      Splice(chp, head, from.chains, from.pieces, |view.chains| + from.w);
    }

    // Puts the chains cs, which begin with head, at the end of the list.
    method Splice(chp: Chain?, head: Chain, ghost cs: seq<Chain>, ghost ps: seq<Bytes>, ghost w: nat)
      requires view.Sound() && Chained(view.chains) && first == At(view.chains, 0) && chp == At(view.chains, |view.chains| - 1)
      requires |cs| > 0 && head == cs[0] && Chained(cs) && AllApart(view.chains, cs)
      modifies this`first, this`view, ChainSet(view.chains)`next
      ensures Chained(view.chains) && first == At(view.chains, 0) && view == Joined(old(view), cs, ps, w)
    {
      hide Compact, Concat, Separate, LastWithData, Chain.Ok;
      ghost var n := |view.chains|;
      if n > 0 {
        SeparateAt(view.chains, n - 1);
      }
      assert forall j :: 0 <= j < |cs| ==> ApartFrom(view.chains, cs[j]);
      assert forall j :: 0 <= j < |cs| ==> cs[j] != chp;
      if chp == null {
        first := head;
      } else {
        chp.next := head;
      }
      assert Chained(view.chains + cs) by {
        assert forall i :: 0 <= i < n - 1 ==> view.chains[i].next == view.chains[i + 1];
      }
      view := Joined(view, cs, ps, w);
    }

    // evbuffer_add_buffer: moves every byte of inbuf behind those of this buffer, without copying.
    method AddBuffer(inbuf: EvBuffer) returns (r: int)
      requires Valid() && inbuf.Valid() && (inbuf == this || DisjointFrom(inbuf))
      modifies this, inbuf, ChainSet(view.chains)
      ensures Valid() && inbuf.Valid() && Same() && inbuf.Same()
      ensures r == if inbuf != this && old(inbuf.totalLen) > 0 && (freezeEnd || inbuf.freezeStart) then -1 else 0
      ensures r == -1 || inbuf == this ==>
                Contents() == old(Contents()) && inbuf.Contents() == old(inbuf.Contents())
      ensures r == 0 && inbuf != this ==>
                Contents() == old(Contents()) + old(inbuf.Contents()) && inbuf.Contents() == []
      ensures forall c :: c in view.chains ==> c in old(view.chains) || c in old(inbuf.view.chains)
      ensures forall c :: c in inbuf.view.chains ==> c in old(inbuf.view.chains)
      ensures inbuf != this ==> DisjointFrom(inbuf)
      ensures old(Compact(view.pieces) && Compact(inbuf.view.pieces)) ==>
                Compact(view.pieces) && Compact(inbuf.view.pieces)
    {
      hide Compact, Concat, Separate, LastWithData, Chain.Ok, EvBuffer.Links, ApartFrom, At;
      if inbuf.totalLen == 0 || inbuf == this {
        return 0;
      }
      if freezeEnd || inbuf.freezeStart {
        return -1;
      }
      TakeFrom(inbuf);
      inbuf.ZeroChain();
      EmptyIsCompact();
      return 0;
    }

    // The part of evbuffer_add_buffer before the other buffer is cleared.
    method TakeFrom(inbuf: EvBuffer)
      requires Valid() && inbuf.Valid() && DisjointFrom(inbuf) && inbuf.totalLen > 0
      modifies this`first, this`last, this`lastWithDatap, this`totalLen, this`view, ChainSet(view.chains)`next
      ensures Valid()
      ensures Contents() == old(Contents()) + inbuf.Contents()
      ensures forall c :: c in view.chains ==> c in old(view.chains) || c in inbuf.view.chains
      ensures old(Compact(view.pieces)) && Compact(inbuf.view.pieces) ==> Compact(view.pieces)
    {
      hide Compact, Concat, Separate, LastWithData, Chain.Ok;
      inbuf.IsIncoming();
      if totalLen == 0 {
        CopyChains(inbuf);
      } else {
        FrontSound(view);
        AppendChains(inbuf.first, inbuf.last, inbuf.lastWithDatap, inbuf.totalLen, inbuf.view);
      }
    }

    lemma IsIncoming()
      requires Valid() && totalLen > 0
      ensures first != null && last != null && Incoming(first, last, lastWithDatap, totalLen, view)
    {
      assert view.pieces != [];
    }

    // A chain that goes as a whole comes before the last one with data if not all bytes go.
    lemma LastStays(k: nat, datlen: nat)
      requires view.Sound() && k < |view.pieces| && Before(view, k) + |view.pieces[k]| <= datlen < |view.Contents()|
      ensures k < view.w < |view.chains|
    {
      if view.w <= k {
        ConcatAt(view.pieces, k);
        ConcatEmpty(view.pieces[k + 1..]);
      }
      hide Separate, Concat;
    }

    // The loop of evbuffer_remove_buffer: passes over the chains that move as a whole.
    method SkipMoved(datlen: nat) returns (chain: Chain, previous: Chain, rest: nat, ghost k: nat)
      requires Links() && Stocked() && datlen < |view.Contents()|
      modifies this`lastWithDatap
      ensures Passed(k) && k < |view.chains| == |view.pieces| && chain == view.chains[k]
      ensures rest < |view.pieces[k]| && datlen == Before(view, k) + rest
      ensures previous == if k == 0 then chain else view.chains[k - 1]
    {
      hide Compact, Concat, Separate, Chain.Ok, Before;
      BeforeEnds(view);
      chain, previous, rest, k := first, first, datlen, 0;
      while chain.off <= rest
        invariant k < |view.chains| == |view.pieces| && chain == view.chains[k]
        invariant previous == if k == 0 then chain else view.chains[k - 1]
        invariant datlen == Before(view, k) + rest
        invariant lastWithDatap == if k >= view.w then null else view.chains[view.w - 1]
        decreases |view.chains| - k
      {
        SeparateAt(view.chains, k);
        BeforeNext(view, k);
        LastStays(k, datlen);
        // The assertion of the source: not the last chain with data.
        assert chain != Deref(lastWithDatap);
        rest := rest - chain.off;
        previous := chain;
        if lastWithDatap == chain {
          lastWithDatap := null;
        }
        chain := chain.next;
        k := k + 1;
      }
    }

    // The list is cut between two chains: the first k chains become a list of their own.
    method Detach(chain: Chain, previous: Chain, ghost k: nat)
      requires Passed(k) && 0 < k < |view.chains| == |view.pieces| && chain == view.chains[k]
      requires previous == view.chains[k - 1] && view.pieces[k] != [] && Rest(view, k, 0).Sound()
      modifies this`first, this`view, previous`next
      ensures Links() && Stocked() && view == old(Rest(view, k, 0))
      ensures Chained(old(view.chains[..k])) && Stored(old(view.chains[..k]), old(view.pieces[..k]))
    {
      hide Compact, Concat, Separate, LastWithData, Chain.Ok;
      ghost var cs, ps := view.chains, view.pieces;
      CutAfter(previous, cs, k);
      assert Stored(cs, ps);
      hide Stored;
      StoredParts(cs, ps, k);
      KeepRest(chain, k);
    }

    method KeepRest(chain: Chain, ghost k: nat)
      requires k < |view.chains| == |view.pieces| && chain == view.chains[k] && view.pieces[k] != []
      requires Rest(view, k, 0).Sound() && Chained(view.chains[k..]) && k <= view.w < |view.chains|
      requires Stored(view.chains[k..], [view.pieces[k][0..]] + view.pieces[k + 1..])
      requires lastWithDatap == if view.w == k then null else view.chains[view.w - 1]
      modifies this`first, this`view
      ensures Links() && Stocked() && view == old(Rest(view, k, 0))
    {
      hide View.Sound, Chain.Ok;
      assert Chained(view.chains[k..]);
      assert lastWithDatap == At(view.chains[k..], view.w - k - 1);
      first := chain;
      view := Rest(view, k, 0);
      assert Chained(view.chains);
    }

    // advance_last_with_data.
    method AdvanceLastWithData()
      requires Chained(view.chains) && Stored(view.chains, view.pieces) && first == At(view.chains, 0)
      requires view.w < |view.chains| && lastWithDatap == At(view.chains, view.w - 1)
      modifies this`lastWithDatap, this`view
      ensures view == old(View(view.chains, view.pieces, Advance(view.pieces, view.w)))
      ensures view.w < |view.chains| && lastWithDatap == At(view.chains, view.w - 1)
    {
      hide Compact, Concat, Separate, LastWithData, Chain.Ok;
      ghost var w := view.w;
      assert w > 0 ==> view.chains[w - 1].next == At(view.chains, w);
      while Deref(lastWithDatap).next != null && Deref(lastWithDatap).next.off != 0
        invariant view == old(view)
        invariant w < |view.chains| && lastWithDatap == At(view.chains, w - 1) && Deref(lastWithDatap) == view.chains[w]
        invariant Advance(view.pieces, w) == Advance(view.pieces, view.w)
        decreases |view.chains| - w
      {
        assert view.chains[w].next == At(view.chains, w + 1);
        lastWithDatap := Deref(lastWithDatap);
        w := w + 1;
      }
      assert view.chains[w].next == At(view.chains, w + 1);
      view := View(view.chains, view.pieces, w);
    }

    // The chains cs, linked from head to tail, become the last ones of the buffer;
    // evbuffer_remove_buffer then looks for the last chain with data.
    method Accept(head: Chain, tail: Chain, len: nat, ghost cs: seq<Chain>, ghost ps: seq<Bytes>)
      requires Valid() && Moving(head, tail, len, cs, ps) && AllApart(view.chains, cs)
      modifies this`first, this`last, this`lastWithDatap, this`totalLen, this`view, ChainSet(view.chains)`next
      ensures Linked() && old(view.Used()) <= |old(view).chains|
      ensures view == Spliced(old(Front(view, view.Used())), cs, ps)
    {
      hide Compact, Concat, Separate, LastWithData, Chain.Ok, Advance, EvBuffer.Stocked, Chained, View.Used, AllApart, ApartFrom, At;
      FrontSound(view);
      FrontApart(view, cs);
      ApartDisjoint(view.chains, cs);
      var chp := FreeTrailingEmptyChains();
      AcceptAt(chp, head, tail, len, cs, ps);
    }

    method AcceptAt(chp: Chain?, head: Chain, tail: Chain, len: nat, ghost cs: seq<Chain>, ghost ps: seq<Bytes>)
      requires Links() && Stocked() && view.Used() == |view.chains| && totalLen == |view.Contents()|
      requires chp == At(view.chains, |view.chains| - 1)
      requires Moving(head, tail, len, cs, ps) && AllApart(view.chains, cs)
      modifies this`first, this`last, this`lastWithDatap, this`totalLen, this`view, ChainSet(view.chains)`next
      ensures Linked() && view == Spliced(old(view), cs, ps)
    {
      hide Compact, Concat, Separate, LastWithData, Chain.Ok, Advance, View.Sound, At, Buffers, Apart;
      JoinedMoving(view, head, tail, len, cs, ps);
      totalLen := totalLen + len;
      last := tail;
      LinkAccepted(chp, head, cs, ps);
    }

    method LinkAccepted(chp: Chain?, head: Chain, ghost cs: seq<Chain>, ghost ps: seq<Bytes>)
      requires Links() && Stocked() && chp == At(view.chains, |view.chains| - 1)
      requires |cs| > 0 && head == cs[0] && Chained(cs) && Stored(cs, ps) && AllApart(view.chains, cs)
      requires Spliced(view, cs, ps).Shaped()
      requires At(view.chains + cs, view.w - 1) == At(view.chains, view.w - 1)
      modifies this`first, this`lastWithDatap, this`view, ChainSet(view.chains)`next
      ensures Loose() && Stocked() && view == Spliced(old(view), cs, ps)
    {
      hide Compact, Concat, Separate, LastWithData, Chain.Ok, Advance;
      ApartDisjoint(view.chains, cs);
      StoredJoin(view.chains, view.pieces, cs, ps);
      Splice(chp, head, cs, ps, view.w);
      AdvanceLastWithData();
    }

    // The chains before chain k move to dst.
    method HandOver(dst: EvBuffer, chain: Chain, previous: Chain, nread: nat, ghost k: nat)
      requires Passed(k) && 0 < k < |view.chains| == |view.pieces| && chain == view.chains[k]
      requires previous == view.chains[k - 1] && view.pieces[k] != [] && nread == Before(view, k)
      requires Rest(view, k, 0).Sound() && first == view.chains[0]
      requires dst.Valid() && DisjointFrom(dst)
      modifies this`first, this`view, previous`next
      modifies dst`first, dst`last, dst`lastWithDatap, dst`totalLen, dst`view, ChainSet(dst.view.chains)`next
      ensures Links() && Stocked() && view == Rest(old(view), k, 0)
      ensures dst.Linked() && old(dst.view.Used()) <= |old(dst.view).chains|
      ensures dst.view == Spliced(old(Front(dst.view, dst.view.Used())), old(view).chains[..k], old(view).pieces[..k])
      ensures DisjointFrom(dst)
      ensures forall c :: c in dst.view.chains ==> c in old(dst.view.chains) || c in old(view.chains)
    {
      hide Compact, Concat, Separate, LastWithData, Chain.Ok, Before, Apart, ApartFrom, AllApart, Chained, View.Sound, At, EvBuffer.Links;
      hide EvBuffer.Linked, Advance;
      ghost var v, ds := view, dst.view.chains;
      var head := first;
      ApartDisjoint(v.chains, ds);
      MovingFront(v, k, ds);
      Detach(chain, previous, k);
      assert v.chains[k - 1] in v.chains;
      dst.Accept(head, previous, nread, v.chains[..k], v.pieces[..k]);
      MovedApart(v.chains, k, ds, dst.view.chains);
    }

    // The part of evbuffer_remove_buffer that moves whole chains; c is where the next one is then.
    method MoveChains(dst: EvBuffer, datlen: nat) returns (chain: Chain, rest: nat, ghost k: nat, ghost c: nat)
      requires Valid() && dst.Valid() && DisjointFrom(dst) && datlen < totalLen
      modifies this`first, this`lastWithDatap, this`view, ChainSet(view.chains)`next
      modifies dst`first, dst`last, dst`lastWithDatap, dst`totalLen, dst`view, ChainSet(dst.view.chains)`next
      ensures k < |old(view).pieces| == |old(view).chains| && old(view).pieces[k] != [] && k <= old(view).w
      ensures rest < |old(view).pieces[k]| && datlen == Before(old(view), k) + rest
      ensures c < |view.chains| == |view.pieces| && view.pieces[c] == old(view).pieces[k]
      ensures chain == view.chains[c] == old(view).chains[k]
      ensures Loose() && Stocked() && last == At(view.chains, |view.chains| - 1) && DisjointFrom(dst)
      ensures dst.Linked() && old(dst.view.Used()) <= |old(dst.view).chains|
      ensures if Before(old(view), k) == 0 then
                c == k && view == Reset(old(view), k) && dst.view == old(dst.view)
              else
                && c == 0 && view == Rest(old(view), k, 0)
                && dst.view == Spliced(old(Front(dst.view, dst.view.Used())), old(view).chains[..k], old(view).pieces[..k])
      ensures forall c :: c in dst.view.chains ==> c in old(dst.view.chains) || c in old(view.chains)
    {
      hide Compact, Concat, Separate, LastWithData, Chain.Ok, Before, Apart, ApartFrom, AllApart, Advance, EvBuffer.Linked;
      hide Chained, View.Sound, View.Shaped, Spliced, View.Used, Front, EvBuffer.Loose, Rest, At;
      ghost var v := view;
      var previous;
      dst.UsedInside();
      FirstIs();
      label before:
      chain, previous, rest, k := SkipMoved(datlen);
      RestSound(v, k, 0);
      RestFrom(v, k, 0);
      var nread := datlen - rest;
      if nread > 0 {
        BeforeEnds(v);
        assert previous in ChainSet(v.chains);
        RestFirst(v, k);
        HandOver(dst, chain, previous, nread, k);
        LinkedIs();
        c := 0;
      } else {
        PassOver(k);
        dst.StillEither@before();
        c := k;
      }
    }

    // No chain moves: the empty chains that were passed over stay.
    method PassOver(ghost k: nat)
      requires Passed(k) && k < |view.chains| == |view.pieces| && first == view.chains[0]
      modifies this`view
      ensures Loose() && Stocked() && view == Reset(old(view), k)
    {
      hide Compact, Concat, Separate, Chain.Ok, LastWithData;
      view := Reset(view, k);
    }

    lemma UsedInside()
      requires Valid()
      ensures view.Used() <= |view.chains| && Linked()
    {
      FrontSound(view);
      LinkedIs();
      hide Separate, Concat, LastWithData;
    }

    // The bytes that evbuffer_remove_buffer copies from a chain that moves in part, and their
    // removal: the first rest bytes of chain c.
    method TakeRest(chain: Chain, rest: nat, datlen: nat, ghost c: nat) returns (bytes: Bytes)
      requires Loose() && Stocked() && c < |view.chains| == |view.pieces| && chain == view.chains[c]
      requires rest < |view.pieces[c]| && last == At(view.chains, |view.chains| - 1) && datlen <= totalLen
      requires totalLen - datlen == |WithPiece(view, c, view.pieces[c][rest..]).Contents()|
      modifies this`view, this`totalLen, chain`misalign, chain`off, chain`data
      ensures Linked() && view == old(WithPiece(view, c, view.pieces[c][rest..]))
      ensures bytes == old(view.pieces[c])[..rest]
    {
      hide Compact, Concat, Separate, LastWithData;
      assert chain.Ok() && chain.data == view.pieces[c];
      bytes := chain.buffer[chain.misalign..chain.misalign + rest];
      assert bytes == view.pieces[c][..rest];
      totalLen := totalLen - datlen;
      ShrinkAt(chain, rest, c);
    }

    // Copying the bytes of the chain that moves in part. The answer of evbuffer_add is ignored: if
    // it failed, the bytes are lost. (The source shortens the chain after the copy.)
    method MoveRest(dst: EvBuffer, chain: Chain, rest: nat, datlen: nat, ghost c: nat) returns (ghost added: bool, died: bool)
      requires Loose() && Stocked() && c < |view.chains| == |view.pieces| && chain == view.chains[c]
      requires rest < |view.pieces[c]| && last == At(view.chains, |view.chains| - 1) && datlen <= totalLen
      requires totalLen - datlen == |WithPiece(view, c, view.pieces[c][rest..]).Contents()|
      requires (dst.Valid() || dst.Lags()) && DisjointFrom(dst)
      modifies this`view, this`totalLen, chain`misalign, chain`off, chain`data, dst, Writable(dst.view.chains)
      ensures Linked() && view == old(WithPiece(view, c, view.pieces[c][rest..]))
      ensures died ==> old(dst.Lags())
      ensures !died ==> dst.Grown() && dst.Same() && DisjointFrom(dst)
      ensures old(dst.Valid()) ==> dst.Took(old(view.pieces[c])[..rest], added)
      ensures old(dst.Lags()) ==> dst.TookHere(old(view.pieces[c])[..rest], added, died)
    {
      hide Compact, Concat, Separate, LastWithData, Chain.Ok, Apart, ApartFrom, AllApart, Sized, Writable;
      hide EvBuffer.Loose, EvBuffer.Valid, EvBuffer.Linked, EvBuffer.Lags, Room, View.Sound, At, EvBuffer.Stocked;
      ghost var cs, ds := view.chains, dst.view.chains;
      WritableApart(cs, ds);
      NotWritable(ds);
      assert chain in cs;
      label before:
      var bytes := TakeRest(chain, rest, datlen, c);
      dst.StillEither@before();
      label taken:
      var a;
      a, died := dst.AddAny(bytes);
      StillEither@taken();
      added := a == 0;
      if !died {
        dst.GrownKeepsApart(cs);
      }
    }

    lemma Fits()
      requires Stocked()
      ensures |view.pieces| == |view.chains|
      ensures forall i :: 0 <= i < |view.chains| ==> |view.pieces[i]| <= view.chains[i].buffer.Length
    {
    }

    lemma SourceFacts()
      requires Valid()
      ensures view.Sound() && |view.chains| == |view.pieces| && totalLen == |view.Contents()|
      ensures last == At(view.chains, |view.chains| - 1)
    {
    }

    // Whether evbuffer_remove_buffer leaves last_with_datap of both buffers at the last chain with data.
    ghost predicate Goes(dst: EvBuffer, datlen: nat)
      reads this, dst
    {
      !MovesSome(dst, datlen) || Unbroken(view, datlen, dst.Contents() == [])
    }

    lemma CompactGoes(dst: EvBuffer, datlen: nat)
      requires Valid() && Compact(view.pieces)
      ensures Goes(dst, datlen)
    {
      SourceFacts();
      hide EvBuffer.Valid, View.Sound, Compact, Unbroken;
      if datlen < totalLen {
        CompactUnbroken(view, datlen, dst.Contents() == []);
      }
    }

    // Whether only empty chains are passed over, so that no chain moves.
    ghost predicate NoneMoves(datlen: nat)
      reads this
    {
      Before(view, Whole(view.pieces, datlen)) == 0
    }

    // Whether some bytes go to dst and some stay.
    ghost predicate MovesSome(dst: EvBuffer, datlen: nat)
      reads this, dst
    {
      dst != this && 0 < datlen < totalLen && !dst.freezeEnd && !freezeStart
    }

    // Whether evbuffer_add fails for the bytes of the chain that goes in part, once the chains before it moved.
    ghost predicate Refused(dst: EvBuffer, datlen: nat)
      reads this, dst, view.chains, dst.view.chains
    {
      dst.Fails(Receiving(dst.view, view, datlen), |Partial(view, datlen)|)
    }

    // How many bytes evbuffer_remove_buffer loses: those.
    ghost function Losing(dst: EvBuffer, datlen: nat): nat
      reads this, dst, view.chains, dst.view.chains
    {
      if MovesSome(dst, datlen) && Refused(dst, datlen) then |Partial(view, datlen)| else 0
    }

    // Whether it ends the program instead: last_with_datap of dst has stayed behind, and the bytes do not
    // go into the chain there.
    ghost predicate Dies(dst: EvBuffer, datlen: nat)
      reads this, dst, view.chains, dst.view.chains
    {
      && !Goes(dst, datlen) && !NoneMoves(datlen) && !Refused(dst, datlen)
      && !Takes(Receiving(dst.view, view, datlen), |Partial(view, datlen)|)
    }

    // What becomes of dst when last_with_datap has stayed behind there.
    twostate predicate Strays(dst: EvBuffer, datlen: nat)
      reads dst, dst.view.chains, Buffers(dst.view.chains)
    {
      var room := old(Room(Receiving(dst.view, view, datlen)));
      && dst.Lags() && dst.view == Moved(old(dst.view), old(view), datlen, old(!Refused(dst, datlen)))
      && (old(!Refused(dst, datlen)) && room >= |old(Partial(view, datlen))| ==>
            Room(dst.view) == room - |old(Partial(view, datlen))|)
    }

    lemma KindIs()
      ensures Linked() ==> (Valid() <==> LastWithData(view.pieces, view.w))
      ensures Linked() ==> (Lags() <==> view.w <= |view.pieces| && Stuck(view.pieces, view.w))
      ensures Linked() ==> totalLen == |view.Contents()| && !(Valid() && Lags())
    {
      LinkedIs();
      if Valid() {
        LastIsNotStuck(view.pieces, view.w);
      }
      hide Separate, Concat, LastWithData, Stuck, EvBuffer.Loose, EvBuffer.Stocked;
    }

    // evbuffer_remove_buffer when some bytes stay.
    method MoveSome(dst: EvBuffer, datlen: nat) returns (died: bool)
      requires Valid() && dst.Valid() && DisjointFrom(dst) && MovesSome(dst, datlen)
      modifies this, dst, Writable(view.chains), Writable(dst.view.chains)
      ensures datlen <= |old(Contents())| && Contents() == old(Contents())[datlen..]
      ensures forall c :: c in view.chains ==> c in old(view.chains)
      ensures Same() && Linked() && (old(Compact(view.pieces)) ==> Compact(view.pieces))
      ensures died <==> old(Dies(dst, datlen))
      ensures !died ==> dst.Same() && DisjointFrom(dst) && dst.GrownWith(old(view.chains))
      ensures old(Losing(dst, datlen)) <= datlen
      ensures old(Goes(dst, datlen) || NoneMoves(datlen)) ==>
                && dst.Valid()
                && dst.Contents() == old(dst.Contents()) + old(Contents())[..datlen - old(Losing(dst, datlen))]
                && (old(Compact(view.pieces) && Compact(dst.view.pieces)) ==> Compact(dst.view.pieces))
      ensures if old(NoneMoves(datlen) && !Goes(dst, datlen)) then
                Lags() && view.w == 0 && |view.pieces| > 0 && view.pieces[0] == []
              else Valid()
      ensures !old(Goes(dst, datlen) || NoneMoves(datlen)) && !died ==> Strays(dst, datlen)
    {
      hide Compact, Concat, Separate, LastWithData, Chain.Ok, Apart, ApartFrom, AllApart, Before, Rest, Writable;
      hide EvBuffer.Links, EvBuffer.Stocked, EvBuffer.Linked, EvBuffer.Lags, EvBuffer.Loose, Left, Spliced, Reset, Stuck, NoGap, Whole;
      hide EvBuffer.Valid, View.Sound, View.Shaped, At, Unbroken, Receiving, EvBuffer.Fails, Takes, Room;
      ghost var v, d := view, dst.view;
      SourceFacts();
      dst.SourceFacts();
      WritableUnion(d.chains, d.chains, v.chains);
      WritableUnion(v.chains, v.chains, d.chains);
      var chain, rest;
      ghost var k, c, added;
      chain, rest, k, c := MoveChains(dst, datlen);
      NotWritable(dst.view.chains);
      ReceivingIs(d, v, k, rest);
      dst.StillFails(dst.view);
      LeftIs(v, k, rest);
      LeftInTwo(v, k, rest);
      BeforeEnds(v);
      dst.KindIs();
      WritableUnion(dst.view.chains, d.chains, v.chains);
      added, died := MoveRest(dst, chain, rest, datlen, c);
      AfterRest(d, v, k, rest, added);
      KindIs();
      dst.KindIs();
    }

    // With memory to be had, and not too many bytes, nothing is lost.
    lemma NothingLost(dst: EvBuffer, datlen: nat)
      requires Valid() && dst.Valid()
      requires !dst.scarce && (datlen < |Contents()| ==> |dst.Contents()| + datlen <= SIZE_MAX)
      requires Sized(view.chains) && Sized(dst.view.chains)
      ensures Losing(dst, datlen) == 0
    {
      hide Compact, Concat, Separate, LastWithData, Chain.Ok, Whole, Receiving, EvBuffer.Fails, Sized, Unbroken, EvBuffer.Links;
      SourceFacts();
      dst.SourceFacts();
      if MovesSome(dst, datlen) {
        var k, rest := WholeAt(view, datlen);
        Fits();
        SizedAt(view.chains, k);
        ReceivingIs(dst.view, view, k, rest);
        var j := Receiving(dst.view, view, datlen);
        SizedUnion(j.chains, dst.view.chains, view.chains);
        dst.Succeeds(j, rest);
      }
    }

    // evbuffer_remove_buffer: moves the first datlen bytes, or all if there are fewer, behind those
    // of dst, and answers their number as an int. Where Goes says no, last_with_datap stays behind in one
    // of the buffers (see AdvanceReaches and GapReorders), and the program may end.
    method RemoveBuffer(dst: EvBuffer, datlen: nat) returns (r: int, ghost moved: nat, died: bool)
      requires Valid() && dst.Valid()
      requires dst == this || (DisjointFrom(dst) && dst.DisjointFrom(this))
      modifies this, dst, Writable(view.chains), Writable(dst.view.chains)
      ensures Same() && (!died ==> dst.Same())
      ensures dst != this && !died ==> DisjointFrom(dst) && dst.GrownWith(old(view.chains))
      ensures forall c :: c in view.chains ==> c in old(view.chains)
      ensures moved == if dst == this || old(dst.freezeEnd || freezeStart) then 0
                       else if datlen < |old(Contents())| then datlen else |old(Contents())|
      ensures r == if dst != this && datlen > 0 && old(dst.freezeEnd || freezeStart) then -1 else AsInt(moved)
      ensures moved <= |old(Contents())| && Contents() == old(Contents())[moved..]
      ensures died <==> old(Dies(dst, datlen))
      ensures old(Losing(dst, datlen)) <= moved
      ensures old(Goes(dst, datlen) || NoneMoves(datlen)) ==>
                && dst.Valid()
                && (dst != this ==>
                      dst.Contents() == old(dst.Contents()) + old(Contents())[..moved - old(Losing(dst, datlen))])
      ensures dst != this && old(Compact(view.pieces) && Compact(dst.view.pieces)) ==>
                Compact(view.pieces) && Compact(dst.view.pieces)
      ensures if old(NoneMoves(datlen) && !Goes(dst, datlen)) then
                Lags() && view.w == 0 && |view.pieces| > 0 && view.pieces[0] == []
              else Valid()
      ensures !old(Goes(dst, datlen) || NoneMoves(datlen)) && !died ==> Strays(dst, datlen)
    {
      hide Compact, Concat, Separate, LastWithData, Chain.Ok, Apart, ApartFrom, AllApart, Sized, Writable, Receiving;
      hide EvBuffer.Links, EvBuffer.Stocked, EvBuffer.Lags, EvBuffer.Linked, Unbroken, Whole, EvBuffer.NoneMoves, Room, EvBuffer.Fails;
      moved, died := 0, false;
      if datlen == 0 || dst == this {
        return 0, 0, false;
      }
      if dst.freezeEnd || freezeStart {
        return -1, 0, false;
      }
      SourceFacts();
      if datlen >= totalLen {
        r, moved := AsInt(totalLen), totalLen;
        ApartSwap(dst.view.chains, view.chains);
        WritableUnion(dst.view.chains, dst.view.chains, view.chains);
        WritableUnion(view.chains, view.chains, dst.view.chains);
        var a := dst.AddBuffer(this);
        ApartSwap(dst.view.chains, view.chains);
      } else {
        moved := datlen;
        if Compact(view.pieces) {
          CompactGoes(dst, datlen);
        }
        died := MoveSome(dst, datlen);
        r := AsInt(datlen);
      }
    }

    // Bytes i to j of chain k, where they are in the contents, and what is behind the chain.
    lemma SliceHere(k: nat, i: nat, j: nat)
      requires Valid() && |view.pieces| == |view.chains| && k < |view.chains| && i <= j <= |view.pieces[k]|
      ensures var c := view.chains[k];
              && c.off == |view.pieces[k]| && c.misalign + j <= c.buffer.Length
              && (k + 1 < |view.chains| ==> c.next == view.chains[k + 1])
              && Before(view, k) + j <= |view.Contents()|
              && c.Part(i, j) == Slice(view.Contents(), Before(view, k) + i, Before(view, k) + j)
      ensures Before(view, k + 1) == Before(view, k) + |view.pieces[k]| <= |view.Contents()|
      ensures k + 1 == |view.chains| ==> Before(view, k + 1) == |view.Contents()|
    {
      hide Compact, Concat, Separate, LastWithData, Before;
      var c := view.chains[k];
      assert c.Ok() && c.data == view.pieces[k];
      assert c.buffer[c.misalign + i..c.misalign + j] == view.pieces[k][i..j];
      SliceAt(view, k, i, j);
      BeforeNext(view, k);
      BeforeEnds(view);
    }

    // The copying loop of evbuffer_copyout_from, from byte pos0 of chain k0 on.
    method CopyFrom(chain0: Chain?, pos0: nat, n: nat, ghost k0: nat) returns (out: Bytes)
      requires Valid() && |view.pieces| == |view.chains| && k0 <= |view.pieces|
      requires Before(view, k0) + pos0 + n <= |view.Contents()|
      requires n > 0 ==> k0 < |view.chains| && chain0 == view.chains[k0] && pos0 <= |view.pieces[k0]|
      ensures out == view.Contents()[Before(view, k0) + pos0..Before(view, k0) + pos0 + n]
    {
      hide EvBuffer.Valid, Before, View.Contents, Chain.Part, Slice;
      var chain, pos, left := chain0, pos0, n;
      ghost var k, start, all := k0, Before(view, k0) + pos0, view.Contents();
      if n > 0 {
        SliceHere(k0, pos0, |view.pieces[k0]|);
      }
      out := [];
      SlicesJoin(all, start, start, start + n);
      while left > 0 && left >= chain.off - pos
        invariant Valid() && 0 <= pos && k <= |view.pieces| && 0 <= left <= n
        invariant left > 0 ==> k < |view.chains| && chain == view.chains[k] && pos <= |view.pieces[k]| == chain.off
        invariant left > 0 ==> Before(view, k) + pos + left == start + n
        invariant left <= n && start + n <= |all| && out == Slice(all, start, start + n - left)
        decreases |view.chains| - k
      {
        var copylen := chain.off - pos;
        SliceHere(k, pos, |view.pieces[k]|);
        SlicesJoin(all, start, start + n - left, start + n - left + copylen);
        out := out + chain.Part(pos, chain.off);
        left := left - copylen;
        chain := chain.next;
        pos := 0;
        k := k + 1;
        if left > 0 {
          SliceHere(k, 0, 0);
        }
      }
      if left > 0 {
        SliceHere(k, pos, pos + left);
        SlicesJoin(all, start, start + n - left, start + n);
        out := out + chain.Part(pos, pos + left);
      }
    }

    // evbuffer_copyout.
    method Copyout(datlen: nat) returns (r: int, out: Bytes)
      requires Valid()
      ensures r == if freezeStart && datlen > 0 && |Contents()| > 0 then -1 else |out|
      ensures out == if r == -1 then [] else if datlen < |Contents()| then Contents()[..datlen] else Contents()
    {
      hide Compact, Concat, Separate, LastWithData, Before, Chain.Ok;
      SourceFacts();
      BeforeEnds(view);
      var n := if datlen > totalLen then totalLen else datlen;
      if n == 0 {
        return 0, [];
      }
      if freezeStart {
        return -1, [];
      }
      FirstIs();
      out := CopyFrom(first, 0, n, 0);
      r := n;
    }

    // evbuffer_remove: copies bytes from the front out and drains them; the number is answered as
    // an int.
    method Remove(datlen: nat) returns (r: int, out: Bytes)
      requires Valid()
      modifies this, ChainSet(view.chains)
      ensures Valid() && Same()
      ensures forall c :: c in view.chains ==> c in old(view.chains)
      ensures out + Contents() == old(Contents())
      ensures |out| == if freezeStart then 0 else if datlen < |old(Contents())| then datlen else |old(Contents())|
      ensures r == if freezeStart && datlen > 0 && |old(Contents())| > 0 then -1 else AsInt(|out|)
      ensures old(Compact(view.pieces)) ==> Compact(view.pieces)
    {
      hide Compact, Concat, Separate, LastWithData, Chain.Ok;
      var n;
      n, out := Copyout(datlen);
      SourceFacts();
      if n > 0 {
        var d := Drain(n);
        if d < 0 {
          n := -1;
        }
      }
      r := if n < 0 then n else AsInt(n);
    }

    lemma FirstIs()
      requires Valid() && totalLen > 0
      ensures |view.chains| == |view.pieces| > 0 && first == view.chains[0]
    {
    }

    // The loop of evbuffer_pullup: copies the chains from chain k0 on that fit as a whole into tmp,
    // and then the beginning of the next one.
    method Absorb(tmp: Chain, start: Chain?, size: nat, ghost k0: nat)
      returns (chain: Chain?, rest: nat, removedLast: bool, removedLastp: bool, ghost k: nat)
      requires view.Sound() && Chained(view.chains) && Absorbing(view, tmp, k0, 0)
      requires start == At(view.chains, k0) && size <= |view.Contents()| && lastWithDatap == At(view.chains, view.w - 1)
      requires !tmp.immutable && 0 < view.w && |tmp.data| <= size && size - |tmp.data| <= tmp.Space()
      modifies tmp`off, tmp`data, tmp.buffer
      ensures k0 <= k <= |view.chains| && chain == At(view.chains, k)
      ensures Absorbing(view, tmp, k, rest) && |tmp.data| == size
      ensures if k < |view.pieces| then rest < |view.pieces[k]| else rest == 0
      ensures removedLast == (k0 <= view.w < k) && removedLastp == (k0 < view.w <= k)
    {
      hide Compact, Concat, Separate, LastWithData, Before, Absorbing, View.Contents;
      AbsorbingSize(tmp, k0);
      var lastWithData := Deref(lastWithDatap);
      var left := size - tmp.off;
      chain, removedLast, removedLastp, k := start, false, false, k0;
      while chain != null && left >= chain.off
        invariant k0 <= k <= |view.chains| && chain == At(view.chains, k)
        invariant Absorbing(view, tmp, k, 0) && 0 <= left == size - |tmp.data|
        invariant tmp.misalign + tmp.off <= tmp.buffer.Length && left <= tmp.Space()
        invariant removedLast == (k0 <= view.w < k) && removedLastp == (k0 < view.w <= k)
        decreases |view.chains| - k
      {
        SeparateAt(view.chains, k);
        PullWhole(tmp, chain, view, k);
        AbsorbingSize(tmp, k + 1);
        left := left - chain.off;
        if chain == lastWithData {
          removedLast := true;
        }
        if chain == lastWithDatap {
          removedLastp := true;
        }
        chain := chain.next;
        k := k + 1;
      }
      rest := left;
      if chain != null {
        AbsorbingNext(view, tmp, k);
        PullBytes(tmp, chain, rest, view, k);
      } else {
        NothingLeft(tmp, size);
      }
    }

    lemma AbsorbingSize(tmp: Chain, k: nat)
      requires Absorbing(view, tmp, k, 0)
      ensures k <= |view.chains| && tmp.misalign + tmp.off <= tmp.buffer.Length && tmp.off == |tmp.data|
    {
      hide Before, Concat;
    }

    // All chains taken, tmp holds all bytes.
    lemma NothingLeft(tmp: Chain, size: nat)
      requires Absorbing(view, tmp, |view.chains|, 0) && |tmp.data| <= size <= |view.Contents()|
      ensures |tmp.data| == size
    {
      BeforeEnds(view);
      hide Before, Concat, Chain.Ok;
    }

    // The pointers after evbuffer_pullup: tmp is the first chain, before what is left of chain k.
    method LinkPulled(tmp: Chain, chain: Chain?, size: nat, removedLast: bool, removedLastp: bool,
                      ghost k0: nat, ghost k: nat, ghost pulled: View)
      requires 0 < view.w < |view.chains| && k0 <= k <= |view.chains| && k0 <= 1 && Chained(view.chains)
      requires k0 == 1 ==> tmp == view.chains[0]
      requires chain == At(view.chains, k) && (chain != null ==> chain.off > 0)
      requires forall i :: k <= i < |view.chains| ==> view.chains[i] != tmp
      requires removedLast == (k0 <= view.w < k) && removedLastp == (k0 < view.w <= k)
      requires lastWithDatap == At(view.chains, view.w - 1) && last == At(view.chains, |view.chains| - 1)
      requires pulled.Sound() && pulled.chains == [tmp] + view.chains[k..]
      requires pulled.w == if view.w < k then 0 else view.w - k + 1
      modifies this`first, this`last, this`lastWithDatap, this`view, tmp`next
      ensures Links() && view == pulled && last == At(view.chains, |view.chains| - 1)
    {
      hide Separate, LastWithData, Concat, Compact, View.Sound;
      tmp.next := chain;
      PulledChained(tmp, view.chains, k);
      PointPulled(tmp, chain, removedLast, removedLastp, k0, k, pulled);
    }

    // The pointers of the buffer.
    method PointPulled(tmp: Chain, chain: Chain?, removedLast: bool, removedLastp: bool,
                       ghost k0: nat, ghost k: nat, ghost pulled: View)
      requires 0 < view.w < |view.chains| && k0 <= k <= |view.chains| && k0 <= 1
      requires k0 == 1 ==> tmp == view.chains[0]
      requires chain == At(view.chains, k) == tmp.next && (chain != null ==> chain.off > 0)
      requires removedLast == (k0 <= view.w < k) && removedLastp == (k0 < view.w <= k)
      requires lastWithDatap == At(view.chains, view.w - 1) && last == At(view.chains, |view.chains| - 1)
      requires pulled.Sound() && pulled.chains == [tmp] + view.chains[k..] && Chained(pulled.chains)
      requires pulled.w == if view.w < k then 0 else view.w - k + 1
      modifies this`first, this`last, this`lastWithDatap, this`view
      ensures Links() && view == pulled && last == At(view.chains, |view.chains| - 1)
    {
      hide Separate, LastWithData, Concat, Compact, View.Sound;
      assert view.w > k ==> pulled.chains[pulled.w - 1] == view.chains[view.w - 1];
      first := tmp;
      if chain == null {
        last := tmp;
      }
      if removedLast {
        lastWithDatap := null;
      } else if removedLastp {
        lastWithDatap := if first.next != null && first.next.off != 0 then first else null;
      }
      view := pulled;
    }

    // The chain that is pulled up in part gives up the bytes that were copied.
    method ShrinkRest(tmp: Chain, chain: Chain?, rest: nat, ghost k: nat)
      requires Separate(view.chains) && k <= |view.chains| == |view.pieces| && chain == At(view.chains, k)
      requires Absorbing(view, tmp, k, rest) && if chain != null then rest < |view.pieces[k]| else rest == 0
      modifies (if chain == null then {} else {chain})`misalign
      modifies (if chain == null then {} else {chain})`off, (if chain == null then {} else {chain})`data
      ensures Stored([tmp] + view.chains[k..], Pulled(view, tmp, k, rest).pieces)
      ensures chain != null ==> chain.off > 0 && chain.next == old(chain.next)
    {
      hide Separate, Concat, Before, ApartFrom, View.Contents;
      if chain != null {
        SeparateAt(view.chains, k);
        chain.Shrink(rest);
      }
      RestStored(tmp, rest, k);
    }

    lemma RestStored(tmp: Chain, rest: nat, k: nat)
      requires k <= |view.chains| == |view.pieces| && tmp.Ok() && Before(view, k) + rest <= |view.Contents()|
      requires tmp.data == view.Contents()[..Before(view, k) + rest]
      requires k < |view.chains| ==>
                 rest < |view.pieces[k]| && view.chains[k].Ok() && view.chains[k].data == view.pieces[k][rest..]
      requires forall i :: k < i < |view.chains| ==>
                 view.chains[i].Ok() && view.chains[i].data == view.pieces[i] && view.chains[i].off == |view.pieces[i]|
      ensures Stored([tmp] + view.chains[k..], Pulled(view, tmp, k, rest).pieces)
    {
      assert tmp.off == |tmp.data| && (k < |view.chains| ==> view.chains[k].off == |view.chains[k].data|);
      hide Chain.Ok, Concat, Before, View.Contents;
    }

    // Copying the first size bytes into tmp and shortening the chain they end in.
    method Gather(tmp: Chain, start: Chain?, size: nat, ghost k0: nat)
      returns (chain: Chain?, removedLast: bool, removedLastp: bool, ghost k: nat, ghost pulled: View)
      requires view.Sound() && Chained(view.chains) && Absorbing(view, tmp, k0, 0)
      requires start == At(view.chains, k0) && 0 < size <= |view.Contents()| && lastWithDatap == At(view.chains, view.w - 1)
      requires !tmp.immutable && 0 < view.w && |tmp.data| <= size && size - |tmp.data| <= tmp.Space()
      modifies ChainSet(view.chains)`misalign, ChainSet(view.chains)`off, ChainSet(view.chains)`data
      modifies tmp`off, tmp`data, tmp.buffer
      ensures k0 <= k <= |view.chains| && chain == At(view.chains, k) && (chain != null ==> chain.off > 0)
      ensures removedLast == (k0 <= view.w < k) && removedLastp == (k0 < view.w <= k)
      ensures forall i :: k <= i < |view.chains| ==> view.chains[i] != tmp
      ensures pulled.Sound() && pulled.chains == [tmp] + view.chains[k..] && Stored(pulled.chains, pulled.pieces)
      ensures pulled.w == if view.w < k then 0 else view.w - k + 1
      ensures pulled.Contents() == view.Contents() && |pulled.pieces[0]| == size
      ensures Compact(view.pieces) ==> Compact(pulled.pieces)
      ensures forall c :: c in pulled.chains ==> c == tmp || c in view.chains
    {
      hide Separate, Concat, Before, Compact, LastWithData, Chain.Ok, Tail;
      ghost var v := view;
      var rest;
      chain, rest, removedLast, removedLastp, k := Absorb(tmp, start, size, k0);
      PulledSound(v, tmp, k, rest);
      ShrinkRest(tmp, chain, rest, k);
      pulled := Pulled(v, tmp, k, rest);
    }

    // The copying part of evbuffer_pullup.
    method PullInto(tmp: Chain, start: Chain?, size: nat, ghost k0: nat)
      requires Valid() && 0 < view.w && k0 <= 1 && start == At(view.chains, k0) && (k0 == 1 ==> tmp == view.chains[0])
      requires Absorbing(view, tmp, k0, 0) && !tmp.immutable
      requires 0 < size <= |view.Contents()| && |tmp.data| <= size && size - |tmp.data| <= tmp.Space()
      modifies this`first, this`last, this`lastWithDatap, this`view, ChainSet(view.chains), tmp, tmp.buffer
      ensures Valid() && Contents() == old(Contents())
      ensures first == tmp && tmp.off == size
      ensures forall c :: c in view.chains ==> c == tmp || c in old(view.chains)
      ensures old(Compact(view.pieces)) ==> Compact(view.pieces)
    {
      hide Separate, Concat, Before, Compact, LastWithData, Chain.Ok, Chained, ChainSet;
      var chain, removedLast, removedLastp;
      ghost var k, pulled;
      hide Absorbing;
      chain, removedLast, removedLastp, k, pulled := Gather(tmp, start, size, k0);
      LinkPulled(tmp, chain, size, removedLast, removedLastp, k0, k, pulled);
    }

    lemma MoreThanFirst(size: nat)
      requires Valid() && 0 < size <= totalLen
      ensures first != null && |view.chains| == |view.pieces| > 0 && first == view.chains[0] && first.Ok()
      ensures first.off < size ==> 0 < view.w
    {
      hide Chain.Ok;
      if view.w == 0 && view.pieces != [] {
        ConcatAt(view.pieces, 0);
        ConcatEmpty(view.pieces[1..]);
      }
    }

    // The first size bytes are next to each other in the memory of the first chain.
    ghost predicate StartsWith(size: nat)
      requires size <= |Contents()|
      reads this, first, if first == null then {} else {first.buffer}
    {
      && first != null && first.misalign + size <= first.buffer.Length
      && forall i :: 0 <= i < size ==> first.buffer[first.misalign + i] == Contents()[i]
    }

    lemma FirstBytes(size: nat)
      requires Valid() && first != null && first.Ok() && size <= first.off
      ensures size <= |Contents()| && StartsWith(size)
    {
      hide Separate, LastWithData, Compact;
      ConcatAt(view.pieces, 0);
      assert view.pieces[..0] == [];
      assert Contents() == view.pieces[0] + Concat(view.pieces[1..]);
    }

    lemma AbsorbingFirst()
      requires Valid() && |view.chains| > 0
      ensures Absorbing(view, view.chains[0], 1, 0)
    {
      hide LastWithData, Compact, Concat, Separate, Chain.Ok;
      SeparateAt(view.chains, 0);
      BeforeEnds(view);
      BeforeNext(view, 0);
      SliceAt(view, 0, 0, |view.pieces[0]|);
    }

    lemma AbsorbingNone(tmp: Chain)
      requires Valid() && tmp.Ok() && tmp.data == [] && ApartFrom(view.chains, tmp)
      ensures Absorbing(view, tmp, 0, 0)
    {
      hide LastWithData, Compact, Concat, Separate, Chain.Ok;
      BeforeEnds(view);
    }

    // evbuffer_pullup of the first size bytes fails though they are there: the first chain neither holds them nor
    // has room for them, and there is no memory for another one.
    ghost predicate PullFails(size: nat)
      reads this`scarce, this`first
      reads (if first == null then {} else {first})`misalign, (if first == null then {} else {first})`off
    {
      && first != null && first.off < size && first.buffer.Length - first.misalign < size
      && (scarce || size > CHAIN_LIMIT)
    }

    // The part of evbuffer_pullup for a first chain that holds less than size bytes.
    method PullMore(size: nat) returns (found: bool)
      requires Valid() && 0 < size <= |view.Contents()| && first != null && first.Ok() && first.off < size && 0 < view.w
      modifies this`first, this`last, this`lastWithDatap, this`view, Writable(view.chains)
      ensures Valid() && Grown() && Contents() == old(Contents())
      ensures found ==> first != null && size == first.off && first.Ok()
      ensures found <==> !old(PullFails(size))
      ensures old(Compact(view.pieces)) ==> Compact(view.pieces)
    {
      hide Separate, Concat, Before, Compact, LastWithData, Absorbing;
      var tmp := first;
      if tmp.buffer.Length - tmp.misalign >= size {
        AbsorbingFirst();
        assert tmp in view.chains;
        PullInto(tmp, tmp.next, size, 1);
      } else {
        tmp := ChainNew(size, scarce);
        if tmp == null {
          return false;
        }
        FreshApart(view.chains, tmp);
        AbsorbingNone(tmp);
        PullInto(tmp, first, size, 0);
      }
      FirstIs();
      ChainAt(0);
      return true;
    }

    // evbuffer_pullup: the bytes at the front are made contiguous; found says that a pointer to
    // them is answered. A negative size stands for all bytes.
    method Pullup(size0: int) returns (found: bool)
      requires Valid()
      modifies this, Writable(view.chains)
      ensures Valid() && Grown() && Same() && Contents() == old(Contents())
      ensures var size := if size0 < 0 then |Contents()| else size0;
              && (found ==> 0 < size <= |Contents()| && StartsWith(size))
              && (found <==> 0 < size <= |Contents()| && !old(PullFails(size)))
      ensures old(Compact(view.pieces)) ==> Compact(view.pieces)
    {
      hide Separate, Concat, Before, Compact, LastWithData, EvBuffer.Links, EvBuffer.Stocked;
      SourceFacts();
      var size := if size0 < 0 then totalLen else size0;
      if size == 0 || size > totalLen {
        return false;
      }
      MoreThanFirst(size);
      found := true;
      if first.off < size {
        found := PullMore(size);
      }
      if found {
        FirstBytes(size);
      }
    }

    // The chain after the last one with data, if that has no room. chainp is the pointer to it.
    method WritableChain() returns (chainp: Chain?, ghost i: nat)
      requires Valid()
      ensures view.w <= i <= view.w + 1 && i <= |view.chains| && chainp == At(view.chains, i - 1)
      ensures Deref(chainp) == At(view.chains, i)
    {
      hide Chain.Ok, Separate, Concat, Compact, LastWithData;
      chainp, i := lastWithDatap, view.w;
      assert i > 0 ==> view.chains[i - 1].next == At(view.chains, i);
      var chain := Deref(chainp);
      if chain != null {
        assert chain.Ok() && chain.next == At(view.chains, i + 1);
        if ChainFull(chain) {
          chainp, i := chain, i + 1;
        }
      }
    }

    // There is no room behind the bytes of the chain.
    static predicate ChainFull(chain: Chain)
      requires chain.Ok()
      reads chain, chain.buffer
    {
      chain.Space() == 0
    }

    // What evbuffer_expand_singlechain promises of chain i: it may be written behind its bytes,
    // which are the last ones of the buffer, and has room for datlen bytes.
    ghost predicate Roomy(chain: Chain, i: nat, datlen: nat)
      reads this`view, chain, chain.buffer
    {
      && view.w <= i < |view.chains| && i <= view.w + 1 && chain == view.chains[i]
      && chain.Ok() && !chain.immutable && chain.Space() >= datlen
    }

    // evbuffer_chain_insert_new.
    method ChainInsertNew(datlen: nat) returns (result: Chain?, ghost i: nat)
      requires Valid()
      modifies this`first, this`last, this`lastWithDatap, this`totalLen, this`view, ChainSet(view.chains)`next
      ensures Valid() && Grown() && Contents() == old(Contents())
      ensures result != null ==> Roomy(result, i, datlen)
      ensures !scarce && datlen <= CHAIN_LIMIT ==> result != null
      ensures old(Compact(view.pieces)) ==> Compact(view.pieces)
    {
      hide Compact, Concat, Separate, LastWithData, Kept, ApartFrom, Chained, At, Chain.Ok, EvBuffer.Contents, View.Contents;
      i := 0;
      result := ChainNew(datlen, scarce);
      if result == null {
        return;
      }
      FreshApart(view.chains, result);
      KeptStays(view.pieces, view.w);
      i := view.Used();
      ChainInsert(result);
    }

    // Puts a chain in the place of the last one with data.
    method Replace(chainp: Chain?, chain: Chain, tmp: Chain, ghost i: nat)
      requires Valid() && i == view.w < |view.chains| && chain == view.chains[i] && chainp == At(view.chains, i - 1)
      requires tmp.Ok() && tmp.data == chain.data && tmp.off == chain.off && ApartFrom(view.chains, tmp)
      modifies this`first, this`last, this`view, tmp`next, ChainSet(view.chains)`next
      ensures Valid() && view == old(Replaced(view, i, tmp))
    {
      hide Compact, Concat, Separate, LastWithData, Chain.Ok;
      ReplacedSound(view, i, tmp);
      LinkReplaced(chainp, chain, tmp, i);
    }

    method LinkReplaced(chainp: Chain?, chain: Chain, tmp: Chain, ghost i: nat)
      requires Links() && i == view.w < |view.chains| && chain == view.chains[i] && chainp == At(view.chains, i - 1)
      requires last == At(view.chains, |view.chains| - 1) && ApartFrom(view.chains, tmp) && Replaced(view, i, tmp).Sound()
      modifies this`first, this`last, this`view, tmp`next, ChainSet(view.chains)`next
      ensures Links() && view == old(Replaced(view, i, tmp)) && last == At(view.chains, |view.chains| - 1)
    {
      hide Compact, Concat, Separate, LastWithData;
      if i > 0 {
        SeparateAt(view.chains, i - 1);
      }
      SeparateAt(view.chains, i);
      if chainp == null {
        first := tmp;
      } else {
        chainp.next := tmp;
      }
      if last == chain {
        last := tmp;
      }
      tmp.next := chain.next;
      view := Replaced(view, i, tmp);
    }

    // A larger chain in the place of the last one with data.
    method Resize(chainp: Chain?, chain: Chain, datlen: nat, ghost i: nat) returns (result: Chain?)
      requires Valid() && i == view.w < |view.chains| && chain == view.chains[i] && chainp == At(view.chains, i - 1)
      modifies this`first, this`last, this`view, ChainSet(view.chains)`next
      ensures Valid() && Grown() && Contents() == old(Contents())
      ensures result != null ==> Roomy(result, i, datlen)
      ensures !scarce && chain.off + datlen <= CHAIN_LIMIT ==> result != null
      ensures old(Compact(view.pieces)) ==> Compact(view.pieces)
    {
      hide Compact, Concat, Separate, LastWithData, ChainSet, At;
      assert chain.Ok();
      result := ChainCopy(chain, chain.off + datlen, scarce);
      if result == null {
        return;
      }
      FreshApart(view.chains, result);
      Replace(chainp, chain, result, i);
    }

    // evbuffer_expand_singlechain, and evbuffer_expand, which fails if no chain is answered.
    method ExpandSinglechain(datlen: nat) returns (result: Chain?, ghost i: nat)
      requires Valid()
      modifies this, Writable(view.chains)
      ensures Valid() && Grown() && Same() && Contents() == old(Contents())
      ensures result != null ==> Roomy(result, i, datlen)
      ensures !scarce && datlen + MAX_TO_COPY_IN_EXPAND <= CHAIN_LIMIT ==> result != null
      ensures old(Compact(view.pieces)) ==> Compact(view.pieces)
    {
      hide Compact, Concat, Separate, LastWithData, EvBuffer.Links, Chain.Ok;
      var chainp;
      chainp, i := WritableChain();
      var chain := Deref(chainp);
      if chain == null || chain.immutable {
        result, i := ChainInsertNew(datlen);
        return;
      }
      ChainAt(i);
      if chain.Space() >= datlen {
        return chain, i;
      }
      if chain.off == 0 {
        result, i := ChainInsertNew(datlen);
        return;
      }
      LastNotAfter(i);
      result, i := ExpandLast(chainp, chain, datlen);
    }

    lemma LastNotAfter(i: nat)
      requires Valid() && i < |view.chains| && view.chains[i].off != 0
      ensures i <= view.w
    {
      hide Separate, Concat, Chain.Ok;
    }

    lemma AfterLast(i: nat)
      requires Valid() && view.w < i < |view.chains|
      ensures view.chains[i].Ok() && !view.chains[i].immutable
    {
      hide Separate, Concat;
    }

    // evbuffer_expand_singlechain when the last chain with data has some room, but too little.
    method ExpandLast(chainp: Chain?, chain: Chain, datlen: nat) returns (result: Chain?, ghost i: nat)
      requires Valid() && view.w < |view.chains| && chain == view.chains[view.w] && chainp == At(view.chains, view.w - 1)
      requires chain.Ok() && !chain.immutable
      modifies this, Writable(view.chains)
      ensures Valid() && Grown() && Same() && Contents() == old(Contents())
      ensures result != null ==> Roomy(result, i, datlen)
      ensures !scarce && datlen + MAX_TO_COPY_IN_EXPAND <= CHAIN_LIMIT ==> result != null
      ensures old(Compact(view.pieces)) ==> Compact(view.pieces)
    {
      hide Compact, Concat, Separate, LastWithData, EvBuffer.Stocked;
      i := view.w;
      assert chain in view.chains;
      if chain.ShouldRealign(datlen) {
        Realign(chain, i);
        ChainAt(i);
        return chain, i;
      }
      if chain.Space() < chain.buffer.Length / 8 || chain.off > MAX_TO_COPY_IN_EXPAND || datlen >= CHAIN_MAX - chain.off {
        assert chain.next == At(view.chains, i + 1);
        if chain.next != null {
          AfterLast(i + 1);
          if chain.next.Space() >= datlen {
            return chain.next, i + 1;
          }
        }
        result, i := ChainInsertNew(datlen);
      } else {
        result := Resize(chainp, chain, datlen, i);
      }
    }
  }
}
