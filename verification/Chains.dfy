/**
  The chains of an evbuffer: blocks of memory that hold some bytes, with free room before and
  behind them (common/libevent/buffer.c and common/libevent/evbuffer-internal.h).
  */
module Chains {
  import opened Pieces

  const SIZE_MAX: nat := 0xffff_ffff_ffff_ffff
  const CHAIN_MAX: nat := 0x7fff_ffff_ffff_ffff
  // sizeof(struct evbuffer_chain).
  const CHAIN_SIZE: nat := 48
  const MIN_BUFFER_SIZE: nat := 1024
  const MAX_AUTO_SIZE: nat := 4096
  // The room in the smallest chain.
  const MIN_ROOM: nat := MIN_BUFFER_SIZE - CHAIN_SIZE
  const MAX_TO_COPY_IN_EXPAND: nat := 4096
  const MAX_TO_REALIGN_IN_EXPAND: nat := 2048

  // Copies bytes into an array.
  method CopyInto(dst: array<byte>, at: nat, src: Bytes)
    requires at + |src| <= dst.Length
    modifies dst
    ensures forall k :: 0 <= k < |src| ==> dst[at + k] == src[k]
    ensures forall k :: 0 <= k < dst.Length && !(at <= k < at + |src|) ==> dst[k] == old(dst[k])
  {
    forall k | 0 <= k < |src| {
      dst[at + k] := src[k];
    }
  }

  // One struct evbuffer_chain. A chain made by evbuffer_add_reference is immutable and full.
  class Chain {
    var next: Chain?
    const buffer: array<byte>
    const immutable: bool
    var misalign: nat
    var off: nat
    // The bytes stored in the chain.
    ghost var data: Bytes

    ghost predicate Ok()
      reads this`misalign, this`off, this`data, buffer
    {
      && misalign + off <= buffer.Length
      && (immutable ==> misalign + off == buffer.Length && off > 0)
      && (!immutable ==> buffer.Length > 0)
      && |data| == off
      && forall k :: 0 <= k < off ==> data[k] == buffer[misalign + k]
    }

    // CHAIN_SPACE_LEN.
    function Space(): nat
      requires misalign + off <= buffer.Length
      reads this`misalign, this`off
    {
      if immutable then 0 else buffer.Length - (misalign + off)
    }

    // Bytes i to j of the data.
    function Part(i: nat, j: nat): Bytes
      requires i <= j && misalign + j <= buffer.Length
      reads this, buffer
    {
      buffer[misalign + i..misalign + j]
    }

    // evbuffer_chain_should_realign.
    predicate ShouldRealign(datlen: nat)
      reads this`off
    {
      buffer.Length - off >= datlen && off < buffer.Length / 2 && off <= MAX_TO_REALIGN_IN_EXPAND
    }

    // The room behind the bytes, or -1 if nothing may be written there.
    ghost function Room(): int
      reads this`misalign, this`off
    {
      if immutable || misalign + off > buffer.Length then -1 else buffer.Length - (misalign + off)
    }

    // The room that evbuffer_prepend uses before the bytes; an empty chain is all room.
    ghost function FrontRoom(): nat
      reads this`misalign, this`off
    {
      if immutable then 0 else if off == 0 then buffer.Length else misalign
    }

    // Whether evbuffer_add puts n bytes behind those of the chain, perhaps after moving them to the start.
    ghost predicate Takes(n: nat)
      reads this`misalign, this`off
    {
      Room() >= n || (Room() >= 0 && ShouldRealign(n))
    }

    constructor Mutable(len: nat)
      requires len > 0
      ensures Ok() && data == [] && !immutable && next == null
      ensures fresh(buffer) && buffer.Length == len && misalign == off == 0
    {
      buffer := new byte[len];
      next, immutable, misalign, off, data := null, false, 0, 0, [];
    }

    constructor Reference(memory: array<byte>)
      requires memory.Length > 0
      ensures Ok() && data == memory[..] && immutable && next == null && buffer == memory
    {
      buffer := memory;
      next, immutable, misalign, off, data := null, true, 0, memory.Length, memory[..];
    }

    // Write bytes at CHAIN_SPACE_PTR.
    method Extend(bytes: Bytes)
      requires Ok() && !immutable && |bytes| <= Space()
      modifies this`off, this`data, buffer
      ensures Ok() && data == old(data) + bytes
    {
      CopyInto(buffer, misalign + off, bytes);
      off, data := off + |bytes|, data + bytes;
    }

    // evbuffer_chain_align.
    method Align()
      requires Ok() && !immutable
      modifies this`misalign, buffer
      ensures Ok() && misalign == 0
    {
      forall k | 0 <= k < off {
        buffer[k] := buffer[misalign + k];
      }
      misalign := 0;
    }

    // Write bytes just before those in the chain.
    method ExtendFront(bytes: Bytes)
      requires Ok() && !immutable && |bytes| <= misalign
      modifies this`misalign, this`off, this`data, buffer
      ensures Ok() && data == bytes + old(data) && misalign == old(misalign) - |bytes|
    {
      CopyInto(buffer, misalign - |bytes|, bytes);
      misalign, off, data := misalign - |bytes|, off + |bytes|, bytes + data;
    }

    // Treat an empty chain as empty at the beginning.
    method Rewind()
      requires Ok() && !immutable && off == 0
      modifies this`misalign
      ensures Ok() && misalign == buffer.Length
    {
      misalign := buffer.Length;
    }

    // Give up bytes at the front.
    method Shrink(n: nat)
      requires Ok() && n < off
      modifies this`misalign, this`off, this`data
      ensures Ok() && data == old(data)[n..]
    {
      misalign, off, data := misalign + n, off - n, data[n..];
    }
  }

  // Requests larger than this get no chain.
  const CHAIN_LIMIT: nat := CHAIN_MAX - CHAIN_SIZE

  // The least memory and its doublings.
  predicate Doubling(n: nat) {
    n == MIN_BUFFER_SIZE || (n > MIN_BUFFER_SIZE && n % 2 == 0 && Doubling(n / 2))
  }

  // evbuffer_chain_new: the least doubling that is enough, header included, unless the request is huge.
  method ChainNew(size: nat, scarce: bool) returns (chain: Chain?)
    ensures chain == null <==> scarce || size > CHAIN_LIMIT
    ensures chain != null ==>
              && fresh(chain) && fresh(chain.buffer)
              && chain.Ok() && chain.data == [] && !chain.immutable && chain.next == null && chain.misalign == 0
              && size <= chain.buffer.Length <= CHAIN_LIMIT && MIN_ROOM <= chain.buffer.Length
              && (size <= MIN_ROOM ==> chain.buffer.Length == MIN_ROOM)
    ensures chain != null ==>
              var total, alloc := size + CHAIN_SIZE, chain.buffer.Length + CHAIN_SIZE;
              if total < CHAIN_MAX / 2 then Doubling(alloc) && (alloc == MIN_BUFFER_SIZE || alloc / 2 < total) else alloc == total
  {
    if size > CHAIN_LIMIT {
      return null;
    }
    var total := size + CHAIN_SIZE;
    var toAlloc;
    if total < CHAIN_MAX / 2 {
      toAlloc := MIN_BUFFER_SIZE;
      while toAlloc < total
        invariant MIN_BUFFER_SIZE <= toAlloc < CHAIN_MAX && (total <= MIN_BUFFER_SIZE ==> toAlloc == MIN_BUFFER_SIZE)
        invariant Doubling(toAlloc) && (toAlloc == MIN_BUFFER_SIZE || toAlloc / 2 < total)
      {
        toAlloc := 2 * toAlloc;
      }
    } else {
      toAlloc := total;
    }
    if scarce {
      return null;
    }
    chain := new Chain.Mutable(toAlloc - CHAIN_SIZE);
  }

  // The room that evbuffer_add asks for in a new chain for n bytes, behind a chain with len bytes of memory.
  function NextSize(len: nat, n: nat): (size: nat)
    ensures size >= n
    ensures n <= CHAIN_LIMIT && len <= CHAIN_LIMIT ==> size <= CHAIN_LIMIT
  {
    var size := if len <= MAX_AUTO_SIZE / 2 then 2 * len else len;
    if n > size then n else size
  }

  // A new chain of the given size with the bytes of a chain.
  method ChainCopy(chain: Chain, size: nat, scarce: bool) returns (tmp: Chain?)
    requires chain.Ok() && chain.off <= size
    ensures tmp == null <==> scarce || size > CHAIN_LIMIT
    ensures tmp != null ==>
              && fresh(tmp) && fresh(tmp.buffer)
              && tmp.Ok() && tmp.data == chain.data && tmp.off == chain.off && !tmp.immutable && tmp.next == null
              && tmp.Space() >= size - chain.off && tmp.buffer.Length <= CHAIN_LIMIT
  {
    tmp := ChainNew(size, scarce);
    if tmp != null {
      assert chain.buffer[chain.misalign..chain.misalign + chain.off] == chain.data;
      tmp.Extend(chain.buffer[chain.misalign..chain.misalign + chain.off]);
    }
  }

  // Two chains are different and share no memory that may be written.
  ghost predicate Apart(c: Chain, d: Chain) {
    c != d && (c.buffer == d.buffer ==> c.immutable && d.immutable)
  }

  // A chain is apart from every chain of a list.
  ghost predicate ApartFrom(cs: seq<Chain>, c: Chain) {
    forall i :: 0 <= i < |cs| ==> Apart(cs[i], c)
  }

  ghost predicate Separate(cs: seq<Chain>) {
    cs == [] || (Separate(cs[..|cs| - 1]) && ApartFrom(cs[..|cs| - 1], cs[|cs| - 1]))
  }

  lemma {:induction false} SeparateAt(cs: seq<Chain>, k: nat)
    requires Separate(cs) && k < |cs|
    ensures forall i :: 0 <= i < |cs| && i != k ==> Apart(cs[i], cs[k])
    ensures Separate(cs[..k])
  {
    var front := cs[..|cs| - 1];
    assert forall i :: 0 <= i < |front| ==> Apart(front[i], cs[|cs| - 1]);
    if k < |front| {
      SeparateAt(front, k);
      assert front[..k] == cs[..k];
    }
  }

  ghost function Buffers(cs: seq<Chain>): set<array<byte>> {
    set c | c in cs :: c.buffer
  }

  // The chains of a buffer and the memory it may write: not the memory added by reference.
  ghost function Writable(cs: seq<Chain>): set<object> {
    ChainSet(cs) + (set c | c in cs && !c.immutable :: c.buffer as object)
  }

  // No chain is too large for another of its size to be allocated.
  ghost predicate Sized(cs: seq<Chain>) {
    forall i :: 0 <= i < |cs| ==> cs[i].buffer.Length <= CHAIN_LIMIT
  }

  ghost function ChainSet(cs: seq<Chain>): set<Chain> {
    set c | c in cs
  }

  // A chain just allocated is apart from every chain that existed.
  twostate lemma FreshApart(cs: seq<Chain>, new c: Chain)
    requires fresh(c) && fresh(c.buffer)
    ensures ApartFrom(cs, c)
  {
    forall i | 0 <= i < |cs|
      ensures Apart(cs[i], c)
    {
      assert old(allocated(cs[i])) && old(allocated(cs[i].buffer));
    }
  }

  twostate lemma ReferenceApart(cs: seq<Chain>, new c: Chain)
    requires fresh(c) && c.immutable
    requires forall i :: 0 <= i < |cs| && cs[i].buffer == c.buffer ==> cs[i].immutable
    ensures ApartFrom(cs, c)
  {
    forall i | 0 <= i < |cs|
      ensures Apart(cs[i], c)
    {
      assert old(allocated(cs[i]));
    }
  }

  lemma {:induction false} SeparatePush(c: Chain, cs: seq<Chain>)
    requires Separate(cs) && ApartFrom(cs, c)
    ensures Separate([c] + cs)
  {
    var all := [c] + cs;
    if cs != [] {
      var front := cs[..|cs| - 1];
      SeparatePush(c, front);
      assert all[..|all| - 1] == [c] + front;
      forall i | 0 <= i < |[c] + front|
        ensures Apart(([c] + front)[i], cs[|cs| - 1])
      {
        assert i > 0 ==> ([c] + front)[i] == front[i - 1];
      }
    }
  }

  lemma {:induction false} SeparateDrop(cs: seq<Chain>, k: nat)
    requires Separate(cs) && k <= |cs|
    ensures Separate(cs[k..])
  {
    if k < |cs| {
      var front, last := cs[..|cs| - 1], cs[|cs| - 1];
      SeparateDrop(front, k);
      SeparateEnd(front[k..], last, front, k);
      assert cs[k..] == front[k..] + [last];
    }
  }

  lemma SeparateEnd(rest: seq<Chain>, last: Chain, front: seq<Chain>, k: nat)
    requires k <= |front| && rest == front[k..] && Separate(rest) && ApartFrom(front, last)
    ensures Separate(rest + [last])
  {
    var all := rest + [last];
    assert all[..|all| - 1] == rest;
    forall i | 0 <= i < |rest|
      ensures Apart(rest[i], last)
    {
      assert rest[i] == front[k + i];
    }
  }

  lemma {:induction false} SeparateReplace(cs: seq<Chain>, k: nat, c: Chain)
    requires Separate(cs) && k < |cs| && ApartFrom(cs, c)
    ensures Separate(cs[k := c])
  {
    var front, d := cs[..|cs| - 1], cs[|cs| - 1];
    var all := cs[k := c];
    if k < |front| {
      SeparateReplace(front, k, c);
      assert all[..|all| - 1] == front[k := c];
      assert Apart(c, d) by {
        assert Apart(cs[|cs| - 1], c);
      }
    } else {
      assert all[..|all| - 1] == front;
    }
  }

  ghost predicate AllApart(cs: seq<Chain>, ds: seq<Chain>) {
    forall j :: 0 <= j < |ds| ==> ApartFrom(cs, ds[j])
  }

  lemma {:induction false} SeparateJoin(cs: seq<Chain>, ds: seq<Chain>)
    requires Separate(cs) && Separate(ds) && AllApart(cs, ds)
    ensures Separate(cs + ds)
  {
    if ds == [] {
      assert cs + ds == cs;
    } else {
      var front, d := ds[..|ds| - 1], ds[|ds| - 1];
      assert forall j :: 0 <= j < |front| ==> front[j] == ds[j];
      SeparateJoin(cs, front);
      assert (cs + ds)[..|cs + ds| - 1] == cs + front;
      assert ApartFrom(cs + front, d) by {
        assert ApartFrom(cs, d) && ApartFrom(front, d);
      }
    }
  }

  lemma ApartDisjoint(cs: seq<Chain>, ds: seq<Chain>)
    requires AllApart(cs, ds)
    ensures ChainSet(cs) !! ChainSet(ds)
    ensures forall c :: c in ds ==> c !in cs
  {
    forall c | c in ds
      ensures c !in cs
    {
      var j :| 0 <= j < |ds| && ds[j] == c;
      assert ApartFrom(cs, ds[j]);
    }
  }

  // Writing to one list of chains leaves a list apart from it alone.
  lemma WritableApart(cs: seq<Chain>, ds: seq<Chain>)
    requires AllApart(cs, ds)
    ensures forall c: Chain :: c in cs ==> c !in Writable(ds) && c.buffer !in Writable(ds)
    ensures forall c :: c in cs ==> c !in ds
  {
    forall c: Chain | c in cs
      ensures c !in Writable(ds) && c.buffer !in Writable(ds)
    {
      var i :| 0 <= i < |cs| && cs[i] == c;
      forall d | d in ds
        ensures Apart(c, d)
      {
        var j :| 0 <= j < |ds| && ds[j] == d;
        assert ApartFrom(cs, ds[j]);
      }
    }
  }

  lemma WritableUnion(es: seq<Chain>, ds: seq<Chain>, cs: seq<Chain>)
    requires forall c :: c in es ==> c in ds || c in cs
    ensures Writable(es) <= Writable(ds) + Writable(cs)
    ensures ChainSet(cs) <= Writable(cs)
  {
  }

  lemma ApartSwap(cs: seq<Chain>, ds: seq<Chain>)
    ensures AllApart(cs, ds) <==> AllApart(ds, cs)
  {
    if AllApart(cs, ds) {
      forall i, j | 0 <= i < |cs| && 0 <= j < |ds|
        ensures Apart(ds[j], cs[i])
      {
        assert ApartFrom(cs, ds[j]) && Apart(cs[i], ds[j]);
      }
    }
    if AllApart(ds, cs) {
      forall i, j | 0 <= i < |cs| && 0 <= j < |ds|
        ensures Apart(cs[i], ds[j])
      {
        assert ApartFrom(ds, cs[i]) && Apart(ds[j], cs[i]);
      }
    }
  }

  lemma SizedAt(cs: seq<Chain>, k: nat)
    requires k < |cs|
    ensures Sized(cs) ==> cs[k].buffer.Length <= CHAIN_LIMIT
  {
  }

  lemma SizedUnion(es: seq<Chain>, ds: seq<Chain>, cs: seq<Chain>)
    requires forall c :: c in es ==> c in ds || c in cs
    ensures Sized(ds) && Sized(cs) ==> Sized(es)
  {
    if Sized(ds) && Sized(cs) {
      assert forall i :: 0 <= i < |es| ==> es[i] in ds || es[i] in cs;
    }
  }
}
