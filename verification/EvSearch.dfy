/**
  Positions in an evbuffer, searching across its chains, and reading lines
  (common/libevent/buffer.c).
  */
module EvSearch {
  import opened Options
  import opened Pieces
  import opened Chains
  import opened Views
  import Ev = EvBuffer

  const SSIZE_MAX: nat := 0x7fff_ffff_ffff_ffff
  const CR: byte := 13
  const LF: byte := 10
  const NUL: byte := 0

  // struct evbuffer_ptr.
  datatype Ptr = Ptr(pos: int, chain: Chain?, posInChain: nat)

  const NOT_FOUND: Ptr := Ptr(-1, null, 0)

  // it is a position in chain k, or the end of the buffer if k is the number of chains.
  ghost predicate OnChain(v: View, it: Ptr, k: nat) {
    && k <= |v.chains| == |v.pieces| && it.chain == At(v.chains, k)
    && it.pos == Before(v, k) + it.posInChain
    && it.posInChain <= if k < |v.pieces| then |v.pieces[k]| else 0
  }

  ghost predicate Points(v: View, it: Ptr) {
    exists k: nat :: OnChain(v, it, k)
  }

  lemma PointsInside(v: View, it: Ptr)
    requires Points(v, it)
    ensures 0 <= it.pos <= |v.Contents()|
  {
    var k: nat :| OnChain(v, it, k);
    BeforeEnds(v);
    if k < |v.pieces| {
      BeforeNext(v, k);
    }
  }

  // The bytes of a chain from byte i on.
  function ChainBytes(chain: Chain, i: nat): Bytes
    requires i <= chain.off && chain.misalign + chain.off <= chain.buffer.Length
    reads chain, chain.buffer
  {
    chain.buffer[chain.misalign + i..chain.misalign + chain.off]
  }

  // What a loop over the chains knows at byte i of chain k.
  lemma OnChainBytes(buf: Ev.EvBuffer, it: Ptr, k: nat)
    requires buf.Valid() && it.chain != null && OnChain(buf.view, it, k)
    ensures k < |buf.view.chains| == |buf.view.pieces| && it.posInChain <= it.chain.off
    ensures it.chain.misalign + it.chain.off <= it.chain.buffer.Length
    ensures var bytes := ChainBytes(it.chain, it.posInChain);
            && it.pos + |bytes| <= |buf.Contents()| && bytes == buf.Contents()[it.pos..it.pos + |bytes|]
            && OnChain(buf.view, Ptr(it.pos + |bytes|, it.chain.next, 0), k + 1)
            && it.posInChain + |bytes| == it.chain.off == |buf.view.pieces[k]|
  {
    hide Separate, LastWithData, Compact, Concat, Before;
    buf.ChainAt(k);
    BeforeNext(buf.view, k);
    SliceAt(buf.view, k, it.posInChain, |buf.view.pieces[k]|);
    assert it.chain.next == At(buf.view.chains, k + 1);
    assert ChainBytes(it.chain, it.posInChain) == buf.view.pieces[k][it.posInChain..|buf.view.pieces[k]|];
  }

  lemma WithinChain(v: View, it: Ptr, k: nat, n: nat)
    requires OnChain(v, it, k) && k < |v.pieces| && it.posInChain + n <= |v.pieces[k]|
    ensures OnChain(v, Ptr(it.pos + n, it.chain, it.posInChain + n), k)
    ensures Points(v, Ptr(it.pos + n, it.chain, it.posInChain + n))
  {
    assert OnChain(v, Ptr(it.pos + n, it.chain, it.posInChain + n), k);
  }

  lemma AtEnd(v: View, it: Ptr, k: nat)
    requires OnChain(v, it, k) && it.chain == null
    ensures k == |v.chains| && it.pos == |v.Contents()|
  {
    BeforeEnds(v);
  }

  // memchr: the index of the first chr, or the length if there is none.
  function Memchr(s: Bytes, chr: byte): (i: nat)
    ensures i <= |s| && (i < |s| ==> s[i] == chr)
    ensures chr !in s[..i]
  {
    if s == [] || s[0] == chr then 0
    else
      var i := 1 + Memchr(s[1..], chr);
      assert s[..i] == [s[0]] + s[1..][..i - 1];
      i
  }

  // Bytes read behind a slice make a longer slice.
  lemma LongerSlice(c: Bytes, from: nat, pos: nat, bytes: Bytes, n: nat)
    requires from <= pos && pos + |bytes| <= |c| && bytes == c[pos..pos + |bytes|] && n <= |bytes|
    ensures c[from..pos + n] == c[from..pos] + bytes[..n]
  {
  }

  lemma PartSlice(c: Bytes, pos: nat, bytes: Bytes, n: nat)
    requires pos + |bytes| <= |c| && bytes == c[pos..pos + |bytes|] && n <= |bytes|
    ensures c[pos..pos + n] == bytes[..n]
  {
  }

  // evbuffer_strchr.
  method Strchr(buf: Ev.EvBuffer, it0: Ptr, chr: byte) returns (r: int, it: Ptr)
    requires buf.Valid() && Points(buf.view, it0)
    ensures r == -1 || (r == it.pos && it0.pos <= r < |buf.Contents()| && Points(buf.view, it))
    ensures r >= 0 ==> buf.Contents()[r] == chr && chr !in buf.Contents()[it0.pos..r]
    ensures r == -1 ==> it0.pos <= |buf.Contents()| && chr !in buf.Contents()[it0.pos..]
  {
    hide Concat, Before, Separate, LastWithData, OnChain, Ev.EvBuffer.Valid, Ev.EvBuffer.Links, Ev.EvBuffer.Stocked;
    it := it0;
    ghost var k: nat :| OnChain(buf.view, it, k);
    PointsInside(buf.view, it);
    while it.chain != null
      invariant buf.Valid() && OnChain(buf.view, it, k) && it0.pos <= it.pos <= |buf.Contents()|
      invariant chr !in buf.Contents()[it0.pos..it.pos]
      decreases |buf.view.chains| - k
    {
      OnChainBytes(buf, it, k);
      var bytes := ChainBytes(it.chain, it.posInChain);
      var n := Memchr(bytes, chr);
      LongerSlice(buf.Contents(), it0.pos, it.pos, bytes, n);
      if n < |bytes| {
        WithinChain(buf.view, it, k, n);
        it := Ptr(it.pos + n, it.chain, it.posInChain + n);
        return it.pos, it;
      }
      it := Ptr(it.pos + |bytes|, it.chain.next, 0);
      k := k + 1;
    }
    AtEnd(buf.view, it, k);
    assert buf.Contents()[it0.pos..] == buf.Contents()[it0.pos..it.pos];
    r := -1;
  }

  const CHUNK_SZ: nat := 128

  ghost predicate NoEolChar(s: Bytes) {
    CR !in s && LF !in s
  }

  // find_eol_char: looks at 128 bytes at a time for the first carriage return or line feed.
  method FindEolChar(s: Bytes) returns (i: nat)
    ensures i <= |s| && (i < |s| ==> s[i] == CR || s[i] == LF)
    ensures NoEolChar(s[..i])
  {
    var at := 0;
    while at < |s|
      invariant at <= |s| ==> NoEolChar(s[..at])
      invariant at > |s| ==> NoEolChar(s)
    {
      var chunk := if at + CHUNK_SZ < |s| then CHUNK_SZ else |s| - at;
      var part := s[at..at + chunk];
      var cr := Memchr(part, CR);
      var lf := Memchr(part, LF);
      i := at + if lf < cr then lf else cr;
      var n := i - at;
      assert part[..n] <= part[..cr] && part[..n] <= part[..lf];
      assert s[..i] == s[..at] + part[..n];
      if n < chunk {
        return;
      }
      at := at + CHUNK_SZ;
      assert at > |s| ==> s[..i] == s;
    }
    assert s[..|s|] == s;
    i := |s|;
  }

  // evbuffer_find_eol_char.
  method FindEol(buf: Ev.EvBuffer, it0: Ptr) returns (r: int, it: Ptr)
    requires buf.Valid() && Points(buf.view, it0)
    ensures r == -1 || (r == it.pos && it0.pos <= r < |buf.Contents()| && Points(buf.view, it))
    ensures r >= 0 ==> (buf.Contents()[r] == CR || buf.Contents()[r] == LF) && NoEolChar(buf.Contents()[it0.pos..r])
    ensures r == -1 ==> it0.pos <= |buf.Contents()| && NoEolChar(buf.Contents()[it0.pos..])
  {
    hide Concat, Before, Separate, LastWithData, OnChain, Ev.EvBuffer.Valid, Ev.EvBuffer.Links, Ev.EvBuffer.Stocked;
    it := it0;
    ghost var k: nat :| OnChain(buf.view, it, k);
    PointsInside(buf.view, it);
    while it.chain != null
      invariant buf.Valid() && OnChain(buf.view, it, k) && it0.pos <= it.pos <= |buf.Contents()|
      invariant NoEolChar(buf.Contents()[it0.pos..it.pos])
      decreases |buf.view.chains| - k
    {
      OnChainBytes(buf, it, k);
      var bytes := ChainBytes(it.chain, it.posInChain);
      label before:
      var n := FindEolChar(bytes);
      buf.StillValid@before();
      LongerSlice(buf.Contents(), it0.pos, it.pos, bytes, n);
      if n < |bytes| {
        WithinChain(buf.view, it, k, n);
        it := Ptr(it.pos + n, it.chain, it.posInChain + n);
        return it.pos, it;
      }
      it := Ptr(it.pos + |bytes|, it.chain.next, 0);
      k := k + 1;
    }
    AtEnd(buf.view, it, k);
    assert buf.Contents()[it0.pos..] == buf.Contents()[it0.pos..it.pos];
    r := -1;
  }

  // The length of the longest beginning of s made of bytes of chrs.
  function Span(s: Bytes, chrs: Bytes): (n: nat)
    ensures n <= |s|
    ensures forall i :: 0 <= i < n ==> s[i] in chrs
    ensures n < |s| ==> s[n] !in chrs
  {
    if s == [] || s[0] !in chrs then 0 else 1 + Span(s[1..], chrs)
  }

  // A beginning made of bytes of chrs that cannot be longer is the longest.
  lemma {:induction false} SpanIs(s: Bytes, chrs: Bytes, n: nat)
    requires n <= |s| && (forall i :: 0 <= i < n ==> s[i] in chrs) && (n < |s| ==> s[n] !in chrs)
    ensures Span(s, chrs) == n
  {
    if n > 0 {
      SpanIs(s[1..], chrs, n - 1);
    }
  }

  // evbuffer_strspn: the number of bytes from it on that belong to chrs.
  method Strspn(buf: Ev.EvBuffer, it: Ptr, chrs: Bytes) returns (count: nat)
    requires buf.Valid() && Points(buf.view, it)
    ensures 0 <= it.pos <= |buf.Contents()| && count == Span(buf.Contents()[it.pos..], chrs)
  {
    hide Concat, Before, Span, Separate, LastWithData, OnChain, Ev.EvBuffer.Valid, Ev.EvBuffer.Links, Ev.EvBuffer.Stocked;
    var chain: Chain?, i: nat := it.chain, it.posInChain;
    count := 0;
    ghost var k: nat :| OnChain(buf.view, it, k);
    PointsInside(buf.view, it);
    while chain != null
      invariant buf.Valid() && OnChain(buf.view, Ptr(it.pos + count, chain, i), k) && it.pos + count <= |buf.Contents()|
      invariant forall j :: it.pos <= j < it.pos + count ==> buf.Contents()[j] in chrs
      decreases |buf.view.chains| - k
    {
      OnChainBytes(buf, Ptr(it.pos + count, chain, i), k);
      ghost var bytes, pos := ChainBytes(chain, i), it.pos + count;
      var at := i;
      while at < chain.off && chain.buffer[chain.misalign + at] in chrs
        invariant i <= at <= chain.off && it.pos + count == pos + at - i
        invariant forall j :: pos <= j < pos + at - i ==> buf.Contents()[j] in chrs
      {
        assert bytes[at - i] == buf.Contents()[pos + at - i];
        count := count + 1;
        at := at + 1;
      }
      if at < chain.off {
        assert bytes[at - i] == buf.Contents()[it.pos + count];
        SpanIs(buf.Contents()[it.pos..], chrs, count);
        return;
      }
      chain, i, k := chain.next, 0, k + 1;
    }
    AtEnd(buf.view, Ptr(it.pos + count, chain, i), k);
    SpanIs(buf.Contents()[it.pos..], chrs, count);
  }

  // it is the position of a byte.
  ghost predicate OnByte(v: View, it: Ptr) {
    exists k: nat :: OnChain(v, it, k) && k < |v.pieces| && it.posInChain < |v.pieces[k]|
  }

  lemma WithinByte(v: View, it: Ptr, k: nat, n: nat)
    requires OnChain(v, it, k) && k < |v.pieces| && it.posInChain + n < |v.pieces[k]|
    ensures OnByte(v, Ptr(it.pos + n, it.chain, it.posInChain + n))
    ensures Points(v, Ptr(it.pos + n, it.chain, it.posInChain + n))
  {
    assert OnChain(v, Ptr(it.pos + n, it.chain, it.posInChain + n), k);
  }

  // The loop of evbuffer_ptr_set: left0 bytes on from it0.
  method Walk(buf: Ev.EvBuffer, it0: Ptr, left0: nat) returns (found: bool, it: Ptr)
    requires buf.Valid() && Points(buf.view, it0)
    ensures 0 <= it0.pos <= |buf.Contents()| && (found <==> it0.pos + left0 <= |buf.Contents()|)
    ensures if found then it.pos == it0.pos + left0 && Points(buf.view, it) else it == NOT_FOUND
    ensures found ==> if it.chain != null then OnByte(buf.view, it) else it.pos == |buf.Contents()|
  {
    hide Concat, Before, Separate, LastWithData, OnChain, Ev.EvBuffer.Links, Ev.EvBuffer.Stocked, Ev.EvBuffer.Valid;
    var left := left0;
    it := it0;
    ghost var k: nat :| OnChain(buf.view, it, k);
    PointsInside(buf.view, it);
    while it.chain != null && it.posInChain + left >= it.chain.off
      invariant buf.Valid() && OnChain(buf.view, it, k)
      invariant 0 <= left <= left0 && it.pos + left == it0.pos + left0 && it.pos <= |buf.Contents()|
      decreases |buf.view.chains| - k
    {
      OnChainBytes(buf, it, k);
      var n := it.chain.off - it.posInChain;
      it, left, k := Ptr(it.pos + n, it.chain.next, 0), left - n, k + 1;
    }
    if it.chain != null {
      OnChainBytes(buf, it, k);
      WithinByte(buf.view, it, k, left);
      it, found := Ptr(it.pos + left, it.chain, it.posInChain + left), true;
    } else {
      AtEnd(buf.view, it, k);
      found := left == 0;
      if !found {
        it := NOT_FOUND;
      }
    }
  }

  // evbuffer_ptr_set with EVBUFFER_PTR_SET.
  method PtrSet(buf: Ev.EvBuffer, position: nat) returns (r: int, it: Ptr)
    requires buf.Valid()
    ensures r == if position <= |buf.Contents()| then 0 else -1
    ensures if r == 0 then it.pos == position && Points(buf.view, it) else it == NOT_FOUND
    ensures r == 0 ==> if it.chain != null then OnByte(buf.view, it) else it.pos == |buf.Contents()|
  {
    StartPoints(buf);
    var found;
    found, it := Walk(buf, Ptr(0, buf.first, 0), position);
    r := if found then 0 else -1;
  }

  lemma StartPoints(buf: Ev.EvBuffer)
    requires buf.Valid()
    ensures Points(buf.view, Ptr(0, buf.first, 0))
  {
    BeforeEnds(buf.view);
    assert OnChain(buf.view, Ptr(0, buf.first, 0), 0);
  }

  // evbuffer_ptr_set with EVBUFFER_PTR_ADD.
  method PtrAdd(buf: Ev.EvBuffer, it0: Ptr, position: nat) returns (r: int, it: Ptr)
    requires buf.Valid() && |buf.Contents()| <= SSIZE_MAX && (it0 == NOT_FOUND || Points(buf.view, it0))
    ensures r == if 0 <= it0.pos && it0.pos + position <= |buf.Contents()| then 0 else -1
    ensures r == 0 ==> it.pos == it0.pos + position && Points(buf.view, it)
    ensures r == -1 ==> it == if it0.pos < 0 || it0.pos + position > SIZE_MAX then it0 else NOT_FOUND
  {
    if it0.pos < 0 || SIZE_MAX - position < it0.pos {
      return -1, it0;
    }
    var found;
    found, it := Walk(buf, it0, position);
    r := if found then 0 else -1;
  }

  // evbuffer_ptr_subtract.
  method PtrSubtract(buf: Ev.EvBuffer, it0: Ptr, howfar: nat) returns (r: int, it: Ptr)
    requires buf.Valid() && (it0 == NOT_FOUND || Points(buf.view, it0))
    ensures r == if 0 <= it0.pos && howfar <= it0.pos then 0 else -1
    ensures if r == 0 then it.pos == it0.pos - howfar && Points(buf.view, it) else it == it0
    ensures r == 0 && howfar > 0 ==> OnByte(buf.view, it)
  {
    if it0.pos < 0 || howfar > it0.pos {
      return -1, it0;
    }
    PointsInside(buf.view, it0);
    if it0.chain != null && howfar <= it0.posInChain {
      it := Ptr(it0.pos - howfar, it0.chain, it0.posInChain - howfar);
      BackInChain(buf.view, it0, howfar);
      r := 0;
    } else {
      r, it := PtrSet(buf, it0.pos - howfar);
    }
  }

  lemma BackInChain(v: View, it: Ptr, n: nat)
    requires Points(v, it) && it.chain != null && n <= it.posInChain
    ensures var back := Ptr(it.pos - n, it.chain, it.posInChain - n); Points(v, back) && (n > 0 ==> OnByte(v, back))
  {
    var k: nat :| OnChain(v, it, k);
    assert OnChain(v, Ptr(it.pos - n, it.chain, it.posInChain - n), k);
  }

  // evbuffer_getchr, on a byte or at the end.
  method Getchr(buf: Ev.EvBuffer, it: Ptr) returns (c: int)
    requires buf.Valid() && (it.chain == null || OnByte(buf.view, it))
    ensures it.chain == null ==> c == -1
    ensures OnByte(buf.view, it) ==> 0 <= it.pos < |buf.Contents()| && c == buf.Contents()[it.pos] as int
  {
    hide View.Contents, Ev.EvBuffer.Contents, View.Sound, Chain.Ok;
    if it.chain == null {
      return -1;
    }
    ghost var k: nat :| OnChain(buf.view, it, k) && k < |buf.view.pieces| && it.posInChain < |buf.view.pieces[k]|;
    OnChainBytes(buf, it, k);
    hide Concat, Before, Separate, LastWithData, OnChain, Ev.EvBuffer.Links, Ev.EvBuffer.Stocked, Ev.EvBuffer.Valid;
    PointsInside(buf.view, it);
    assert ChainBytes(it.chain, it.posInChain)[0] == buf.Contents()[it.pos];
    c := it.chain.buffer[it.chain.misalign + it.posInChain] as int;
  }

  // memcmp: the difference of the first bytes that differ.
  function Memcmp(s: Bytes, t: Bytes): (r: int)
    requires |s| == |t|
    ensures r == 0 <==> s == t
  {
    if s == [] then 0 else if s[0] != t[0] then s[0] as int - t[0] as int else Memcmp(s[1..], t[1..])
  }

  lemma {:induction false} MemcmpInTwo(s: Bytes, t: Bytes, n: nat)
    requires |s| == |t| && n <= |s|
    ensures Memcmp(s, t) == if Memcmp(s[..n], t[..n]) != 0 then Memcmp(s[..n], t[..n]) else Memcmp(s[n..], t[n..])
  {
    if n > 0 {
      assert s[..n][1..] == s[1..][..n - 1] && t[..n][1..] == t[1..][..n - 1];
      assert s[n..] == s[1..][n - 1..] && t[n..] == t[1..][n - 1..];
      if s[0] == t[0] {
        MemcmpInTwo(s[1..], t[1..], n - 1);
      }
    }
  }

  // One turn of the loop that compares mem with the bytes of c from pos on: bytes are those in a
  // chain behind the ones that were equal.
  lemma MemcmpStep(c: Bytes, pos: nat, mem: Bytes, done: nat, bytes: Bytes, n: nat)
    requires pos + |mem| <= |c| && done + n <= |mem| && n <= |bytes|
    requires pos + done + |bytes| <= |c| && bytes == c[pos + done..pos + done + |bytes|]
    ensures var found, r := c[pos..pos + |mem|], Memcmp(bytes[..n], mem[done..done + n]);
            Memcmp(found[done..], mem[done..]) == if r != 0 then r else Memcmp(found[done + n..], mem[done + n..])
  {
    hide Memcmp;
    var found := c[pos..pos + |mem|];
    assert bytes[..n] == found[done..][..n] && mem[done..][..n] == mem[done..done + n];
    MemcmpInTwo(found[done..], mem[done..], n);
    assert found[done..][n..] == found[done + n..] && mem[done..][n..] == mem[done + n..];
  }

  // evbuffer_ptr_memcmp: compares the bytes from it on with mem.
  method PtrMemcmp(buf: Ev.EvBuffer, it: Ptr, mem: Bytes) returns (r: int)
    requires buf.Valid() && |buf.Contents()| <= SSIZE_MAX && (it == NOT_FOUND || Points(buf.view, it))
    ensures r == if it.pos < 0 || it.pos + |mem| > |buf.Contents()| then -1
                 else Memcmp(buf.Contents()[it.pos..it.pos + |mem|], mem)
  {
    hide Concat, Before, Separate, LastWithData, OnChain, Ev.EvBuffer.Links, Ev.EvBuffer.Stocked;
    hide Ev.EvBuffer.Valid, Memcmp;
    buf.SourceFacts();
    if it.pos < 0 || SIZE_MAX - |mem| < it.pos || it.pos + |mem| > buf.totalLen {
      return -1;
    }
    ghost var k: nat :| OnChain(buf.view, it, k);
    ghost var found := buf.Contents()[it.pos..it.pos + |mem|];
    var chain, position: nat, done := it.chain, it.posInChain, 0;
    while done < |mem| && chain != null
      invariant buf.Valid() && done <= |mem|
      invariant done < |mem| ==> OnChain(buf.view, Ptr(it.pos + done, chain, position), k)
      invariant Memcmp(found, mem) == Memcmp(found[done..], mem[done..])
      decreases |mem| - done, |buf.view.chains| - k
    {
      OnChainBytes(buf, Ptr(it.pos + done, chain, position), k);
      var left := |mem| - done;
      var n := if left + position > chain.off then chain.off - position else left;
      var bytes := ChainBytes(chain, position)[..n];
      r := Memcmp(bytes, mem[done..done + n]);
      MemcmpStep(buf.Contents(), it.pos, mem, done, ChainBytes(chain, position), n);
      if r != 0 {
        return;
      }
      done, position, chain, k := done + n, 0, chain.next, k + 1;
    }
    if done < |mem| {
      AtEnd(buf.view, Ptr(it.pos + done, chain, position), k);
    }
    MemcmpNone(found, mem, done);
    r := 0;
  }

  lemma MemcmpNone(s: Bytes, t: Bytes, n: nat)
    requires |s| == |t| == n
    ensures Memcmp(s[n..], t[n..]) == 0
  {
  }

  ghost predicate Occurs(s: Bytes, what: Bytes, i: int) {
    0 <= i && i + |what| <= |s| && s[i..i + |what|] == what
  }

  lemma NoStart(s: Bytes, what: Bytes, from: nat, to: nat)
    requires from <= to <= |s| && |what| > 0 && what[0] !in s[from..to]
    ensures forall i :: from <= i < to ==> !Occurs(s, what, i)
  {
    forall i | from <= i < to
      ensures !Occurs(s, what, i)
    {
      assert s[i] == s[from..to][i - from];
      assert i + |what| <= |s| ==> s[i..i + |what|][0] == s[i];
    }
  }

  // A position in the same chain is not behind the end of that chain.
  lemma SameChain(buf: Ev.EvBuffer, it: Ptr, k: nat, end: Ptr)
    requires buf.Valid() && OnChain(buf.view, it, k) && it.chain != null
    requires Points(buf.view, end) && end.chain == it.chain
    ensures it.posInChain <= it.chain.off && end.pos <= it.pos + it.chain.off - it.posInChain
  {
    hide Before;
    OnChainBytes(buf, it, k);
    var m: nat :| OnChain(buf.view, end, m);
    SeparateAt(buf.view.chains, k);
    hide Separate;
    assert m == k;
  }

  // One turn of the loop of evbuffer_search_range from it on: the next byte like the first one of
  // what is byte n of the rest of the chain.
  lemma Skipped(buf: Ev.EvBuffer, what: Bytes, it: Ptr, k: nat, n: nat)
    requires buf.Valid() && OnChain(buf.view, it, k) && it.chain != null && |what| > 0
    requires it.posInChain <= it.chain.off && it.chain.misalign + it.chain.off <= it.chain.buffer.Length
    requires n == Memchr(ChainBytes(it.chain, it.posInChain), what[0])
    ensures it.pos >= 0 && forall i :: it.pos <= i < it.pos + n ==> !Occurs(buf.Contents(), what, i)
  {
    hide Concat, Before, Separate, LastWithData, OnChain, Ev.EvBuffer.Links, Ev.EvBuffer.Stocked;
    hide Ev.EvBuffer.Valid, Occurs;
    OnChainBytes(buf, it, k);
    assert Points(buf.view, it);
    PointsInside(buf.view, it);
    var bytes := ChainBytes(it.chain, it.posInChain);
    PartSlice(buf.Contents(), it.pos, bytes, n);
    NoStart(buf.Contents(), what, it.pos, it.pos + n);
  }

  lemma ChainOf(v: View, it: Ptr) returns (k: nat)
    requires Points(v, it)
    ensures OnChain(v, it, k)
  {
    k :| OnChain(v, it, k);
  }

  // Whether what is found at a byte like its first one, and the position after that byte.
  method TryAt(buf: Ev.EvBuffer, what: Bytes, at: Ptr, ghost k: nat) returns (same: bool, next: Ptr, ghost k1: nat)
    requires buf.Valid() && |buf.Contents()| <= SSIZE_MAX && OnChain(buf.view, at, k) && Points(buf.view, at)
    requires at.chain != null && at.posInChain < at.chain.off && |what| > 0
    ensures buf.Valid() && (same <==> Occurs(buf.Contents(), what, at.pos))
    ensures same ==> at.pos + |what| <= |buf.Contents()|
    ensures k <= k1 && OnChain(buf.view, next, k1) && next.pos == at.pos + 1 <= |buf.Contents()|
  {
    hide Concat, Before, Separate, LastWithData, OnChain, Points, Ev.EvBuffer.Links, Ev.EvBuffer.Stocked;
    hide Ev.EvBuffer.Valid, Memcmp;
    PointsInside(buf.view, at);
    label before:
    var r := PtrMemcmp(buf, at, what);
    same := r == 0;
    buf.StillValid@before();
    OnChainBytes(buf, at, k);
    WithinChain(buf.view, at, k, 1);
    if at.posInChain + 1 == at.chain.off {
      next, k1 := Ptr(at.pos + 1, at.chain.next, 0), k + 1;
    } else {
      next, k1 := Ptr(at.pos + 1, at.chain, at.posInChain + 1), k;
    }
  }

  // evbuffer_search_range.
  method SearchRange(buf: Ev.EvBuffer, what: Bytes, start: Option<Ptr>, end: Option<Ptr>) returns (it: Ptr)
    requires buf.Valid() && |buf.Contents()| <= SSIZE_MAX
    requires start.Some? ==> start.value == NOT_FOUND || Points(buf.view, start.value)
    requires end.Some? ==> end.value == NOT_FOUND || Points(buf.view, end.value)
    ensures |what| == 0 || |what| > SSIZE_MAX ==> it == if start.Some? then start.value else Ptr(0, buf.first, 0)
    ensures start.Some? && start.value == NOT_FOUND ==> it == NOT_FOUND
    ensures 0 < |what| <= SSIZE_MAX && !(start.Some? && start.value == NOT_FOUND) ==>
              var from := if start.Some? then start.value.pos else 0;
              var limit := if end.Some? then end.value.pos else |buf.Contents()|;
              if it == NOT_FOUND then
                forall i :: from <= i && i + |what| <= limit ==> !Occurs(buf.Contents(), what, i)
              else
                && from <= it.pos && it.pos + |what| <= limit && Points(buf.view, it)
                && Occurs(buf.Contents(), what, it.pos)
                && forall i :: from <= i < it.pos ==> !Occurs(buf.Contents(), what, i)
  {
    hide Concat, Before, Separate, LastWithData, OnChain, Ev.EvBuffer.Links, Ev.EvBuffer.Stocked;
    hide Ev.EvBuffer.Valid, Occurs, Points;
    StartPoints(buf);
    it := if start.Some? then start.value else Ptr(0, buf.first, 0);
    var lastChain := if end.Some? then end.value.chain else null;
    if |what| == 0 || |what| > SSIZE_MAX || it == NOT_FOUND {
      return;
    }
    PointsInside(buf.view, it);
    ghost var from := it.pos;
    ghost var k := ChainOf(buf.view, it);
    if end.Some? && end.value != NOT_FOUND {
      PointsInside(buf.view, end.value);
    }
    while it.chain != null
      invariant buf.Valid() && OnChain(buf.view, it, k) && from <= it.pos <= |buf.Contents()|
      invariant forall i :: from <= i < it.pos ==> !Occurs(buf.Contents(), what, i)
      decreases (|buf.Contents()| - it.pos) + (|buf.view.chains| - k)
    {
      OnChainBytes(buf, it, k);
      var n := Memchr(ChainBytes(it.chain, it.posInChain), what[0]);
      Skipped(buf, what, it, k, n);
      if it.posInChain + n < it.chain.off {
        WithinChain(buf.view, it, k, n);
        it := Ptr(it.pos + n, it.chain, it.posInChain + n);
        var same, next;
        ghost var k1;
        same, next, k1 := TryAt(buf, what, it, k);
        if same {
          if end.Some? && it.pos + |what| > end.value.pos {
            it := NOT_FOUND;
          }
          return;
        }
        it, k := next, k1;
      } else {
        if it.chain == lastChain {
          SameChain(buf, it, k, end.value);
          it := NOT_FOUND;
          return;
        }
        it, k := Ptr(it.pos + n, it.chain.next, 0), k + 1;
      }
    }
    AtEnd(buf.view, it, k);
    it := NOT_FOUND;
  }

  // enum evbuffer_eol_style.
  datatype EolStyle = EolAny | EolCrlf | EolCrlfStrict | EolLf | EolNul

  // The length of the line terminator at byte p, or 0 if none starts there.
  function Terminator(s: Bytes, style: EolStyle, p: nat): (n: nat)
    requires p < |s|
    ensures p + n <= |s|
  {
    match style
    case EolAny => Span(s[p..], [CR, LF])
    case EolCrlf => if s[p] == CR && p + 1 < |s| && s[p + 1] == LF then 2 else if s[p] == LF then 1 else 0
    case EolCrlfStrict => if s[p] == CR && p + 1 < |s| && s[p + 1] == LF then 2 else 0
    case EolLf => if s[p] == LF then 1 else 0
    case EolNul => if s[p] == NUL then 1 else 0
  }

  ghost predicate NoTerminator(s: Bytes, style: EolStyle, from: nat, to: nat)
    requires to <= |s|
  {
    forall i :: from <= i < to ==> Terminator(s, style, i) == 0
  }

  // The first terminator from byte from on has n bytes and starts at byte p.
  ghost predicate FirstTerminator(s: Bytes, style: EolStyle, from: nat, p: int, n: nat) {
    from <= p < |s| && n == Terminator(s, style, p) > 0 && NoTerminator(s, style, from, p)
  }

  lemma NotIn(s: Bytes, c: byte, from: nat, to: nat)
    requires from <= to <= |s| && c !in s[from..to]
    ensures forall i :: from <= i < to ==> s[i] != c
  {
    assert forall i :: from <= i < to ==> s[i] == s[from..to][i - from];
  }

  lemma NoCharNoTerminator(s: Bytes, style: EolStyle, from: nat, to: nat)
    requires from <= to <= |s|
    requires match style
             case EolAny => NoEolChar(s[from..to])
             case EolNul => NUL !in s[from..to]
             case EolLf => LF !in s[from..to]
             case _ => LF !in s[from..to] && (to < |s| ==> to > from ==> s[to] != LF || s[to - 1] != CR)
    ensures NoTerminator(s, style, from, to)
  {
    if style == EolNul {
      NotIn(s, NUL, from, to);
    } else {
      NotIn(s, LF, from, to);
      if style == EolAny {
        NotIn(s, CR, from, to);
      }
    }
  }

  // A line feed without another one between it and from, and the carriage return before it.
  lemma CrlfFirst(s: Bytes, from: nat, q: nat)
    requires from <= q < |s| && s[q] == LF && LF !in s[from..q]
    ensures if q > from && s[q - 1] == CR then FirstTerminator(s, EolCrlf, from, q - 1, 2)
            else FirstTerminator(s, EolCrlf, from, q, 1)
  {
    if q > from && s[q - 1] == CR {
      assert s[from..q - 1] == s[from..q][..q - 1 - from];
      NotIn(s, LF, from, q);
      NoCharNoTerminator(s, EolCrlf, from, q - 1);
    } else {
      NoCharNoTerminator(s, EolCrlf, from, q);
    }
  }

  const CRLF: Bytes := [CR, LF]

  lemma StrictIsOccurrence(s: Bytes, i: nat)
    requires i < |s|
    ensures Terminator(s, EolCrlfStrict, i) > 0 <==> Occurs(s, CRLF, i)
  {
    if i + 2 <= |s| {
      assert s[i..i + 2] == [s[i], s[i + 1]];
    }
  }

  // No strict terminator starts in a range exactly if the two bytes occur nowhere in it.
  lemma StrictFirst(s: Bytes, from: nat, to: nat)
    requires from <= to <= |s|
    ensures NoTerminator(s, EolCrlfStrict, from, to) <==> forall i :: from <= i < to ==> !Occurs(s, CRLF, i)
  {
    hide Occurs, Terminator;
    forall i | from <= i < to
      ensures Terminator(s, EolCrlfStrict, i) == 0 <==> !Occurs(s, CRLF, i)
    {
      StrictIsOccurrence(s, i);
    }
  }

  // The EVBUFFER_EOL_CRLF case of evbuffer_search_eol.
  method SearchCrlf(buf: Ev.EvBuffer, start: Ptr) returns (it: Ptr, eolLen: nat)
    requires buf.Valid() && Points(buf.view, start) && 0 <= start.pos <= |buf.Contents()|
    ensures it == NOT_FOUND || Points(buf.view, it)
    ensures if it == NOT_FOUND then eolLen == 0 && NoTerminator(buf.Contents(), EolCrlf, start.pos, |buf.Contents()|)
            else FirstTerminator(buf.Contents(), EolCrlf, start.pos, it.pos, eolLen)
  {
    hide Concat, Before, Separate, LastWithData, OnChain, Points, OnByte, Ev.EvBuffer.Links, Ev.EvBuffer.Stocked;
    hide Terminator, NoTerminator, FirstTerminator, Ev.EvBuffer.Valid;
    ghost var s := buf.Contents();
    label before:
    var r;
    r, it := Strchr(buf, start, LF);
    buf.StillValid@before();
    if r < 0 {
      assert s[start.pos..] == s[start.pos..|s|];
      NoCharNoTerminator(s, EolCrlf, start.pos, |s|);
      return NOT_FOUND, 0;
    }
    CrlfFirst(s, start.pos, it.pos);
    eolLen := 1;
    if it.pos == start.pos {
      return;
    }
    label after:
    var it2;
    r, it2 := PtrSubtract(buf, it, 1);
    buf.StillValid@after();
    var c := Getchr(buf, it2);
    if c == CR as int {
      it, eolLen := it2, 2;
    }
  }

  // The EVBUFFER_EOL_CRLF_STRICT case of evbuffer_search_eol.
  method SearchStrict(buf: Ev.EvBuffer, start: Ptr) returns (it: Ptr, eolLen: nat)
    requires buf.Valid() && |buf.Contents()| <= SSIZE_MAX
    requires Points(buf.view, start) && 0 <= start.pos <= |buf.Contents()|
    ensures it == NOT_FOUND || Points(buf.view, it)
    ensures if it == NOT_FOUND then eolLen == 0 && NoTerminator(buf.Contents(), EolCrlfStrict, start.pos, |buf.Contents()|)
            else FirstTerminator(buf.Contents(), EolCrlfStrict, start.pos, it.pos, eolLen)
  {
    hide Concat, Before, Separate, LastWithData, OnChain, Points, OnByte, Ev.EvBuffer.Links, Ev.EvBuffer.Stocked;
    hide Terminator, NoTerminator, FirstTerminator, Ev.EvBuffer.Valid, Occurs, Ev.EvBuffer.Contents;
    assert |CRLF| == 2;
    it := SearchRange(buf, CRLF, Some(start), None);
    StrictFound(buf.Contents(), start.pos, it.pos);
    eolLen := if it == NOT_FOUND then 0 else 2;
  }

  // evbuffer_search_eol.
  method SearchEol(buf: Ev.EvBuffer, start: Option<Ptr>, style: EolStyle) returns (it: Ptr, eolLen: nat)
    requires buf.Valid() && |buf.Contents()| <= SSIZE_MAX
    requires start.Some? ==> start.value == NOT_FOUND || Points(buf.view, start.value)
    ensures it == NOT_FOUND || (Points(buf.view, it) && it.pos >= 0)
    ensures start.Some? && start.value == NOT_FOUND ==> it == NOT_FOUND && eolLen == 0
    ensures !(start.Some? && start.value == NOT_FOUND) ==>
              var from := if start.Some? then start.value.pos else 0;
              && 0 <= from <= |buf.Contents()|
              && if it == NOT_FOUND then eolLen == 0 && NoTerminator(buf.Contents(), style, from, |buf.Contents()|)
                 else FirstTerminator(buf.Contents(), style, from, it.pos, eolLen)
  {
    hide Concat, Before, Separate, LastWithData, OnChain, Points, OnByte, Ev.EvBuffer.Links, Ev.EvBuffer.Stocked;
    hide Terminator, NoTerminator, FirstTerminator, Ev.EvBuffer.Valid, NoEolChar;
    StartPoints(buf);
    if start.Some? && start.value.chain == null {
      EndHasNone(buf, start.value, style);
      return NOT_FOUND, 0;
    }
    it := if start.Some? then start.value else Ptr(0, buf.first, 0);
    PointsInside(buf.view, it);
    it, eolLen := SearchStyle(buf, it, style);
    if it != NOT_FOUND {
      PointsInside(buf.view, it);
    }
  }

  lemma EndHasNone(buf: Ev.EvBuffer, it: Ptr, style: EolStyle)
    requires it == NOT_FOUND || Points(buf.view, it)
    requires it.chain == null
    ensures it == NOT_FOUND || (it.pos == |buf.Contents()| && NoTerminator(buf.Contents(), style, it.pos, |buf.Contents()|))
  {
    hide OnChain, Before;
    if it != NOT_FOUND {
      var k := ChainOf(buf.view, it);
      AtEnd(buf.view, it, k);
    }
  }

  // The cases of evbuffer_search_eol.
  method SearchStyle(buf: Ev.EvBuffer, start: Ptr, style: EolStyle) returns (it: Ptr, eolLen: nat)
    requires buf.Valid() && |buf.Contents()| <= SSIZE_MAX
    requires Points(buf.view, start) && 0 <= start.pos <= |buf.Contents()|
    ensures it == NOT_FOUND || Points(buf.view, it)
    ensures if it == NOT_FOUND then eolLen == 0 && NoTerminator(buf.Contents(), style, start.pos, |buf.Contents()|)
            else FirstTerminator(buf.Contents(), style, start.pos, it.pos, eolLen)
  {
    hide Concat, Before, Separate, LastWithData, OnChain, Points, OnByte, Ev.EvBuffer.Links, Ev.EvBuffer.Stocked;
    hide Terminator, NoTerminator, FirstTerminator, Ev.EvBuffer.Valid, NoEolChar, Occurs, Span;
    ghost var s := buf.Contents();
    var r;
    label before:
    match style
    case EolAny =>
      r, it := FindEol(buf, start);
      buf.StillValid@before();
      if r < 0 {
        assert s[start.pos..] == s[start.pos..|s|];
        NoCharNoTerminator(s, style, start.pos, |s|);
        return NOT_FOUND, 0;
      }
      eolLen := Strspn(buf, it, [CR, LF]);
      RunFound(s, start.pos, r, eolLen);
    case EolCrlfStrict =>
      it, eolLen := SearchStrict(buf, start);
    case EolCrlf =>
      it, eolLen := SearchCrlf(buf, start);
    case EolLf =>
      r, it := Strchr(buf, start, LF);
      eolLen := 1;
      CharFound(s, EolLf, LF, start.pos, r);
      if r < 0 {
        it, eolLen := NOT_FOUND, 0;
      }
    case EolNul =>
      r, it := Strchr(buf, start, NUL);
      eolLen := 1;
      CharFound(s, EolNul, NUL, start.pos, r);
      if r < 0 {
        it, eolLen := NOT_FOUND, 0;
      }
  }

  lemma RunFound(s: Bytes, from: nat, p: nat, n: nat)
    requires from <= p < |s| && (s[p] == CR || s[p] == LF) && NoEolChar(s[from..p]) && n == Span(s[p..], [CR, LF])
    ensures FirstTerminator(s, EolAny, from, p, n)
  {
    AnyNone(s, from, p);
    assert s[p..][0] == s[p];
  }

  // A first terminator of any kind is the whole of the first run of carriage returns and line feeds.
  lemma AnyIsRun(s: Bytes, from: nat, p: int, n: nat)
    ensures FirstTerminator(s, EolAny, from, p, n) <==>
              && from <= p && 0 < n && p + n <= |s| && NoEolChar(s[from..p])
              && (forall i :: p <= i < p + n ==> s[i] == CR || s[i] == LF)
              && (p + n < |s| ==> s[p + n] != CR && s[p + n] != LF)
  {
    if from <= p < |s| {
      AnyNone(s, from, p);
      AnyLength(s, p, n);
    }
  }

  lemma AnyNone(s: Bytes, from: nat, p: nat)
    requires from <= p <= |s|
    ensures NoTerminator(s, EolAny, from, p) <==> NoEolChar(s[from..p])
  {
    if NoEolChar(s[from..p]) {
      NoCharNoTerminator(s, EolAny, from, p);
    }
    if NoTerminator(s, EolAny, from, p) {
      forall i | 0 <= i < p - from
        ensures s[from..p][i] != CR && s[from..p][i] != LF
      {
        assert Terminator(s, EolAny, from + i) == 0 && s[from + i..][0] == s[from + i];
      }
    }
  }

  lemma AnyLength(s: Bytes, p: nat, n: nat)
    requires p < |s|
    ensures n == Terminator(s, EolAny, p) <==>
              && p + n <= |s| && (forall i :: p <= i < p + n ==> s[i] == CR || s[i] == LF)
              && (p + n < |s| ==> s[p + n] != CR && s[p + n] != LF)
  {
    var t := s[p..];
    assert forall i :: 0 <= i < |t| ==> t[i] == s[p + i];
    if p + n <= |s| && (forall i :: p <= i < p + n ==> s[i] == CR || s[i] == LF)
       && (p + n < |s| ==> s[p + n] != CR && s[p + n] != LF) {
      SpanIs(t, [CR, LF], n);
    } else if n == Terminator(s, EolAny, p) {
      assert forall i :: p <= i < p + n ==> s[i] == t[i - p];
    }
  }

  lemma StrictFound(s: Bytes, from: nat, p: int)
    requires from <= |s|
    requires if p == -1 then forall i :: from <= i && i + 2 <= |s| ==> !Occurs(s, CRLF, i)
             else from <= p && Occurs(s, CRLF, p) && forall i :: from <= i < p ==> !Occurs(s, CRLF, i)
    ensures if p == -1 then NoTerminator(s, EolCrlfStrict, from, |s|) else FirstTerminator(s, EolCrlfStrict, from, p, 2)
  {
    if p == -1 {
      StrictFirst(s, from, |s|);
    } else {
      StrictFirst(s, from, p);
      StrictIsOccurrence(s, p);
    }
  }

  lemma CharFound(s: Bytes, style: EolStyle, c: byte, from: nat, r: int)
    requires from <= |s| && ((style == EolLf && c == LF) || (style == EolNul && c == NUL))
    requires if r == -1 then c !in s[from..] else from <= r < |s| && s[r] == c && c !in s[from..r]
    ensures if r == -1 then NoTerminator(s, style, from, |s|) else FirstTerminator(s, style, from, r, 1)
  {
    if r == -1 {
      assert s[from..] == s[from..|s|];
      NoCharNoTerminator(s, style, from, |s|);
    } else {
      NoCharNoTerminator(s, style, from, r);
    }
  }

  // evbuffer_readln: takes the first line off the buffer, without its terminator. With no line
  // the buffer is left as it is.
  method Readln(buf: Ev.EvBuffer, style: EolStyle) returns (line: Option<Bytes>)
    requires buf.Valid() && |buf.Contents()| <= SSIZE_MAX
    modifies buf, ChainSet(buf.view.chains)
    ensures buf.Valid() && buf.Same()
    ensures line.Some? ==>
              exists eol: Bytes ::
                && old(buf.Contents()) == line.value + eol + buf.Contents()
                && FirstTerminator(old(buf.Contents()), style, 0, |line.value|, |eol|)
    ensures line.None? ==> buf.Contents() == old(buf.Contents())
    ensures line.None? && !buf.freezeStart && !buf.scarce ==>
              NoTerminator(old(buf.Contents()), style, 0, |old(buf.Contents())|)
    ensures buf.freezeStart ==> line.None?
    ensures forall c :: c in buf.view.chains ==> c in old(buf.view.chains)
    ensures old(Compact(buf.view.pieces)) ==> Compact(buf.view.pieces)
  {
    hide Concat, Before, Separate, LastWithData, OnChain, Points, OnByte, Ev.EvBuffer.Links, Ev.EvBuffer.Stocked;
    hide Terminator, NoTerminator, FirstTerminator, Ev.EvBuffer.Valid, Compact;
    ghost var s := buf.Contents();
    if buf.freezeStart {
      return None;
    }
    label before:
    var it, extra := SearchEol(buf, None, style);
    buf.StillValid@before();
    if it.pos < 0 {
      return None;
    }
    if buf.scarce {
      return None;
    }
    TerminatorFits(s, style, it.pos, extra);
    var r, out := buf.Remove(it.pos);
    SplitLine(s, it.pos, extra, out, buf.Contents());
    buf.SourceFacts();
    var d := buf.Drain(extra);
    line := Some(out);
    LineIs(s, style, out, extra, buf.Contents());
  }

  lemma TerminatorFits(s: Bytes, style: EolStyle, p: int, n: nat)
    requires FirstTerminator(s, style, 0, p, n)
    ensures 0 <= p && p + n <= |s| && n > 0
  {
  }

  lemma SplitLine(s: Bytes, p: nat, n: nat, out: Bytes, rest: Bytes)
    requires p + n <= |s| && out + rest == s && |out| == p
    ensures n <= |rest| && rest[n..] == s[p + n..] && out == s[..p]
    ensures n == |rest| ==> s[p + n..] == []
  {
    assert rest == s[p..];
  }

  lemma LineIs(s: Bytes, style: EolStyle, line: Bytes, n: nat, rest: Bytes)
    requires FirstTerminator(s, style, 0, |line|, n) && |line| + n <= |s| && line == s[..|line|] && rest == s[|line| + n..]
    ensures exists eol: Bytes :: s == line + eol + rest && FirstTerminator(s, style, 0, |line|, |eol|)
  {
    var eol := s[|line|..|line| + n];
    assert s == line + eol + rest;
  }
}
