/**
  What an evbuffer stands for, and what each change of its chains does to its bytes.
  */
module Views {
  import opened Pieces
  import opened Chains

  // Chain i of the list; null after the last one. At(cs, i - 1) also stands for the pointer to
  // the next pointer that points at chain i: null is the address of the first pointer.
  ghost function At(cs: seq<Chain>, i: int): Chain? {
    if 0 <= i < |cs| then cs[i] else null
  }

  // A list of chains linked in order; the next of the last one is null.
  ghost predicate Chained(cs: seq<Chain>)
    reads cs`next
  {
    forall i {:trigger cs[i].next} :: 0 <= i < |cs| ==> cs[i].next == At(cs, i + 1)
  }

  // Each chain of a list holds its bytes.
  ghost predicate Stored(cs: seq<Chain>, ps: seq<Bytes>)
    reads cs`misalign, cs`off, cs`data, Buffers(cs)
  {
    |cs| == |ps| && forall i :: 0 <= i < |cs| ==> cs[i].Ok() && cs[i].data == ps[i] && cs[i].off == |ps[i]|
  }

  lemma StoredParts(cs: seq<Chain>, ps: seq<Bytes>, k: nat)
    requires Stored(cs, ps) && k < |cs| == |ps|
    ensures Stored(cs[..k], ps[..k]) && Stored(cs[k..], [ps[k][0..]] + ps[k + 1..])
  {
    hide Chain.Ok;
    assert [ps[k][0..]] + ps[k + 1..] == ps[k..];
  }

  lemma StoredJoin(cs: seq<Chain>, ps: seq<Bytes>, ds: seq<Chain>, qs: seq<Bytes>)
    requires Stored(cs, ps) && Stored(ds, qs)
    ensures Stored(cs + ds, ps + qs)
  {
    hide Chain.Ok;
  }

  // What a buffer stands for: its chains, their bytes, and the index of *last_with_datap.
  datatype View = View(chains: seq<Chain>, pieces: seq<Bytes>, w: nat) {
    ghost function Contents(): Bytes { Concat(pieces) }

    ghost predicate Sound() {
      match this
      case View(chains, pieces, w) =>
        && |pieces| == |chains| && (w < |chains| || w == |chains| == 0)
        && Separate(chains) && LastWithData(pieces, w)
    }

    // The same without a place for w.
    ghost predicate Shaped() {
      match this
      case View(chains, pieces, w) =>
        |pieces| == |chains| && (w < |chains| || w == |chains| == 0) && Separate(chains)
    }

    // The number of chains before the trailing empty ones.
    ghost function Used(): nat
      requires Sound()
    {
      Kept(pieces, w)
    }
  }

  // Whether evbuffer_add puts n bytes into the chain at last_with_datap.
  ghost predicate Takes(v: View, n: nat)
    reads (if v.w < |v.chains| then {v.chains[v.w]} else {})`misalign
    reads (if v.w < |v.chains| then {v.chains[v.w]} else {})`off
  {
    v.w < |v.chains| && v.chains[v.w].Takes(n)
  }

  // The room behind the bytes of that chain, or -1 if nothing may be written there.
  ghost function Room(v: View): int
    reads (if v.w < |v.chains| then {v.chains[v.w]} else {})`misalign
    reads (if v.w < |v.chains| then {v.chains[v.w]} else {})`off
  {
    if v.w < |v.chains| then v.chains[v.w].Room() else -1
  }

  // The room that it asks for in a new chain otherwise.
  ghost function NewRoom(v: View, n: nat): (size: nat)
    ensures n <= CHAIN_LIMIT && Sized(v.chains) ==> size <= CHAIN_LIMIT
  {
    if v.w < |v.chains| then NextSize(v.chains[v.w].buffer.Length, n) else n
  }

  // The first n chains.
  function Front(v: View, n: nat): View
    requires n <= |v.chains| && n <= |v.pieces|
  {
    View(v.chains[..n], v.pieces[..n], v.w)
  }

  function WithChain(v: View, c: Chain, data: Bytes): View {
    View(v.chains + [c], v.pieces + [data], if data != [] then |v.chains| else v.w)
  }

  // Dropping the trailing empty chains.
  lemma FrontSound(v: View)
    requires v.Sound()
    ensures v.Used() <= |v.chains|
    ensures var f := Front(v, v.Used()); f.Sound() && f.Used() == |f.chains| && f.Contents() == v.Contents()
    ensures Compact(v.pieces) ==> Compact(Front(v, v.Used()).pieces)
  {
    KeptAll(v.pieces, v.w);
    KeptStays(v.pieces, v.w);
    if v.Used() < |v.chains| {
      SeparateAt(v.chains, v.Used());
    } else {
      assert v.chains[..v.Used()] == v.chains;
    }
  }

  // A chain after the last one with data.
  lemma WithChainSound(v: View, c: Chain, data: Bytes)
    requires v.Sound() && v.Used() == |v.chains| && ApartFrom(v.chains, c)
    ensures WithChain(v, c, data).Sound()
    ensures WithChain(v, c, data).Contents() == v.Contents() + data
    ensures Compact(v.pieces) ==> Compact(WithChain(v, c, data).pieces)
  {
    hide Compact, Concat, Separate, LastWithData, Kept;
    WithPieceAtEnd(v.pieces, v.w, data);
    SeparateWith(v.chains, c);
  }

  lemma WithPieceAtEnd(ps: seq<Bytes>, w: nat, data: Bytes)
    requires LastWithData(ps, w) && Kept(ps, w) == |ps|
    ensures LastWithData(ps + [data], if data != [] then |ps| else w)
    ensures Concat(ps + [data]) == Concat(ps) + data
    ensures Compact(ps) ==> Compact(ps + [data])
  {
    hide Compact, Concat, LastWithData;
    InsertAtEnd(ps, w, data);
    assert ps[..|ps|] == ps;
  }

  lemma SeparateWith(cs: seq<Chain>, c: Chain)
    requires Separate(cs) && ApartFrom(cs, c)
    ensures Separate(cs + [c])
  {
  }

  // The same chains with other bytes in chain i.
  function WithPiece(v: View, i: nat, data: Bytes): View
    requires i < |v.pieces|
  {
    View(v.chains, v.pieces[i := data], v.w)
  }

  lemma GrownLast(v: View, data: Bytes)
    requires v.Sound() && v.w < |v.chains|
    ensures v.w < |v.pieces|
    ensures var g := WithPiece(v, v.w, v.pieces[v.w] + data); g.Sound() && g.Contents() == v.Contents() + data
    ensures Compact(v.pieces) ==> Compact(WithPiece(v, v.w, v.pieces[v.w] + data).pieces)
  {
    AppendAtLast(v.pieces, v.w, data);
  }

  lemma GrownLength(v: View, i: nat, data: Bytes)
    requires i < |v.pieces| && v.Shaped()
    ensures var g := WithPiece(v, i, v.pieces[i] + data); g.Shaped() && |g.Contents()| == |v.Contents()| + |data|
  {
    ConcatAt(v.pieces, i);
    ConcatReplace(v.pieces, i, v.pieces[i] + data);
    hide Separate, Concat;
  }

  lemma GrownFront(v: View, bytes: Bytes)
    requires v.Sound() && |v.chains| > 0
    ensures |v.pieces| > 0
    ensures var g := WithPiece(v, 0, bytes + v.pieces[0]); g.Sound() && g.Contents() == bytes + v.Contents()
    ensures Compact(v.pieces) ==> Compact(WithPiece(v, 0, bytes + v.pieces[0]).pieces)
  {
    var ps := v.pieces;
    assert ps[0 := bytes + ps[0]][1..] == ps[1..];
    assert bytes + (ps[0] + Concat(ps[1..])) == bytes + ps[0] + Concat(ps[1..]);
  }

  // The last n bytes.
  function Last(s: Bytes, n: nat): Bytes {
    if n <= |s| then s[|s| - n..] else s
  }

  // Bytes put in front in two steps.
  lemma PutInTwo(bytes: Bytes, n: nat, rest: Bytes)
    requires n <= |bytes|
    ensures bytes[..|bytes| - n] + (Last(bytes, n) + rest) == bytes + rest == Last(bytes, |bytes|) + rest
  {
    Regroup(bytes[..|bytes| - n], Last(bytes, n), rest);
  }

  lemma NothingPut(bytes: Bytes, rest: Bytes)
    ensures Last(bytes, 0) + rest == rest
  {
  }

  lemma LastHasData(v: View)
    requires v.Sound() && |v.pieces| > 0 && v.pieces[0] != []
    ensures v.w < |v.pieces| && v.pieces[v.w] != []
  {
  }

  // One more chain in front.
  function Pushed(v: View, c: Chain, data: Bytes): View {
    View([c] + v.chains, [data] + v.pieces, v.w + 1)
  }

  // In front of a chain with data; only an empty chain leaves the list not compact.
  lemma PushedSound(v: View, c: Chain, data: Bytes)
    requires v.Sound() && v.w < |v.pieces| && v.pieces[v.w] != [] && ApartFrom(v.chains, c)
    ensures Pushed(v, c, data).Sound()
    ensures Pushed(v, c, data).Contents() == data + v.Contents()
    ensures Compact(v.pieces) ==> (Compact(Pushed(v, c, data).pieces) <==> data != [])
  {
    SeparatePush(c, v.chains);
    var ps := [data] + v.pieces;
    assert ps[1..] == v.pieces;
    assert ps[v.w + 1] == v.pieces[v.w];
  }

  function Slice(s: Bytes, i: nat, j: nat): Bytes {
    if i <= j <= |s| then s[i..j] else []
  }

  lemma SlicesJoin(s: Bytes, i: nat, j: nat, k: nat)
    requires i <= j <= k <= |s|
    ensures Slice(s, i, j) + Slice(s, j, k) == Slice(s, i, k) == s[i..k] && Slice(s, i, i) == []
  {
  }

  lemma EmptyIsCompact()
    ensures Compact([]) && Concat([]) == []
  {
  }

  // The number of bytes in the first k chains.
  ghost function Before(v: View, k: nat): nat
    requires k <= |v.pieces|
  {
    |Concat(v.pieces[..k])|
  }

  lemma BeforeNext(v: View, k: nat)
    requires k < |v.pieces|
    ensures Before(v, k + 1) == Before(v, k) + |v.pieces[k]| <= |v.Contents()|
  {
    var ps := v.pieces[..k + 1];
    ConcatAt(ps, k);
    assert ps[..k] == v.pieces[..k] && ps[k + 1..] == [];
    ConcatSplit(v.pieces, k + 1);
  }

  lemma BeforeEnds(v: View)
    ensures Before(v, 0) == 0 && Before(v, |v.pieces|) == |v.Contents()|
  {
    assert v.pieces[..|v.pieces|] == v.pieces;
  }

  // Without the first k chains and the first n bytes of the next one.
  function Rest(v: View, k: nat, n: nat): View
    requires k < |v.pieces| == |v.chains| && n < |v.pieces[k]|
  {
    View(v.chains[k..], [v.pieces[k][n..]] + v.pieces[k + 1..], if v.w >= k then v.w - k else 0)
  }

  function RestPieces(ps: seq<Bytes>, k: nat, n: nat): seq<Bytes>
    requires k < |ps| && n < |ps[k]|
  {
    [ps[k][n..]] + ps[k + 1..]
  }

  lemma RestLast(ps: seq<Bytes>, w: nat, k: nat, n: nat)
    requires LastWithData(ps, w) && k < |ps| && n < |ps[k]|
    ensures k <= w && LastWithData(RestPieces(ps, k, n), w - k)
    ensures Compact(ps) ==> Compact(RestPieces(ps, k, n))
  {
    var qs := RestPieces(ps, k, n);
    assert forall i :: 1 <= i < |qs| ==> qs[i] == ps[k + i];
  }

  lemma RestConcat(ps: seq<Bytes>, k: nat, n: nat)
    requires k < |ps| && n < |ps[k]|
    ensures |Concat(ps[..k])| + n <= |Concat(ps)|
    ensures Concat(RestPieces(ps, k, n)) == Concat(ps)[|Concat(ps[..k])| + n..]
  {
    ConcatAt(ps, k);
    assert RestPieces(ps, k, n)[1..] == ps[k + 1..];
  }

  lemma RestSound(v: View, k: nat, n: nat)
    requires v.Sound() && k < |v.pieces| == |v.chains| && n < |v.pieces[k]|
    ensures k <= v.w && Rest(v, k, n).Sound()
    ensures Before(v, k) + n <= |v.Contents()| && Rest(v, k, n).Contents() == v.Contents()[Before(v, k) + n..]
    ensures Compact(v.pieces) ==> Compact(Rest(v, k, n).pieces)
  {
    hide Separate, LastWithData, Concat, Compact;
    RestLast(v.pieces, v.w, k, n);
    LastInside(v.pieces, v.w);
    RestConcat(v.pieces, k, n);
    SeparateDrop(v.chains, k);
  }

  lemma LastInside(ps: seq<Bytes>, w: nat)
    requires LastWithData(ps, w)
    ensures w < |ps| || w == |ps| == 0
  {
  }

  lemma RestFrom(v: View, k: nat, n: nat)
    requires k < |v.pieces| == |v.chains| && n < |v.pieces[k]|
    ensures forall c :: c in Rest(v, k, n).chains ==> c in v.chains
    ensures v.chains[k] in v.chains
    ensures var cs := Rest(v, k, n).chains; At(cs, |cs| - 1) == At(v.chains, |v.chains| - 1)
  {
  }

  lemma RestFirst(v: View, k: nat)
    requires k < |v.pieces| == |v.chains| && v.pieces[k] != []
    ensures |Rest(v, k, 0).chains| == |Rest(v, k, 0).pieces| > 0
    ensures Rest(v, k, 0).chains[0] == v.chains[k] && Rest(v, k, 0).pieces[0] == v.pieces[k]
  {
    assert v.pieces[k][0..] == v.pieces[k];
  }

  lemma RestInTwo(v: View, k: nat, n: nat)
    requires k < |v.pieces| == |v.chains| && n < |v.pieces[k]|
    ensures var r := Rest(v, k, 0); |r.pieces| > 0 && WithPiece(r, 0, r.pieces[0][n..]) == Rest(v, k, n)
    ensures Rest(v, k, 0).pieces[0] == v.pieces[k]
  {
    assert v.pieces[k][0..] == v.pieces[k];
  }

  // The chains cs, holding ps, behind those of v.
  function Joined(v: View, cs: seq<Chain>, ps: seq<Bytes>, w: nat): View {
    View(v.chains + cs, v.pieces + ps, w)
  }

  lemma JoinedSound(v: View, cs: seq<Chain>, ps: seq<Bytes>, w: nat)
    requires v.Sound() && Separate(cs) && |cs| == |ps| > 0 && AllApart(v.chains, cs)
    requires LastWithData(v.pieces + ps, w)
    ensures Joined(v, cs, ps, w).Sound()
    ensures Joined(v, cs, ps, w).Contents() == v.Contents() + Concat(ps)
  {
    SeparateJoin(v.chains, cs);
    ConcatAppend(v.pieces, ps);
  }

  // A whole buffer with data behind one without trailing empty chains.
  lemma JoinedAll(v: View, u: View)
    requires v.Sound() && u.Sound() && v.Used() == |v.chains| && AllApart(v.chains, u.chains)
    requires u.Contents() != []
    ensures var j := JoinedViews(v, u);
            j.Sound() && j.Contents() == v.Contents() + u.Contents()
            && (Compact(v.pieces) && Compact(u.pieces) ==> Compact(j.pieces))
  {
    hide Separate, AllApart, Concat, LastWithData, Compact, Kept;
    EmptyIsCompact();
    LastJoined(v.pieces, v.w, u.pieces, u.w);
    JoinedSound(v, u.chains, u.pieces, |v.chains| + u.w);
  }

  lemma LastJoined(ps: seq<Bytes>, w: nat, qs: seq<Bytes>, i: nat)
    requires LastWithData(ps, w) && Kept(ps, w) == |ps| && LastWithData(qs, i) && Concat(qs) != []
    ensures LastWithData(ps + qs, |ps| + i)
    ensures Compact(ps) && Compact(qs) ==> Compact(ps + qs)
  {
    hide Compact;
    if qs[i] == [] {
      ConcatEmpty(qs);
    }
    assert (ps + qs)[|ps| + i] == qs[i];
    assert ps == [] || ps[|ps| - 1] != [];
    if Compact(ps) && Compact(qs) {
      JoinedCompact(ps, qs);
    }
  }

  lemma JoinedCompact(ps: seq<Bytes>, qs: seq<Bytes>)
    requires Compact(ps) && Compact(qs) && (ps == [] || ps[|ps| - 1] != [])
    ensures Compact(ps + qs)
  {
    forall i, j | 0 <= i < j < |ps + qs| && (ps + qs)[j] != []
      ensures (ps + qs)[i] != []
    {
      if i >= |ps| {
        assert (ps + qs)[i] == qs[i - |ps|] && (ps + qs)[j] == qs[j - |ps|];
      } else if i < |ps| - 1 {
        assert ps[i] != [];
      }
    }
  }

  ghost function JoinedViews(v: View, u: View): View {
    Joined(v, u.chains, u.pieces, |v.chains| + u.w)
  }

  lemma FrontApart(v: View, cs: seq<Chain>)
    requires v.Sound() && v.Used() <= |v.chains| && AllApart(v.chains, cs)
    ensures AllApart(Front(v, v.Used()).chains, cs)
  {
  }

  // A sound list with data, linked and stored, that is ready to be put behind another one.
  ghost predicate Incoming(head: Chain, tail: Chain, lastp: Chain?, len: nat, from: View)
    reads from.chains, Buffers(from.chains)
  {
    && from.Sound() && Chained(from.chains) && Stored(from.chains, from.pieces)
    && |from.chains| > 0 && head == from.chains[0] && tail == from.chains[|from.chains| - 1]
    && lastp == At(from.chains, from.w - 1)
    && from.Contents() != [] && len == |from.Contents()|
  }

  lemma JoinedEnds(v: View, u: View)
    requires |v.chains| == |v.pieces| && |u.chains| > 0 && u.w < |u.chains|
    ensures var j := JoinedViews(v, u);
            && At(j.chains, |j.chains| - 1) == At(u.chains, |u.chains| - 1)
            && At(j.chains, j.w - 1) == if u.w == 0 then At(v.chains, |v.chains| - 1) else At(u.chains, u.w - 1)
  {
  }

  lemma OneChained(chain: Chain)
    requires chain.next == null
    ensures Chained([chain])
  {
  }

  // Linking a chain behind the last one.
  method LinkLast(chp: Chain, chain: Chain, ghost cs: seq<Chain>)
    requires Separate(cs) && Chained(cs) && cs != [] && chp == cs[|cs| - 1] && chain !in cs && chain.next == null
    modifies chp`next
    ensures Chained(cs + [chain])
  {
    hide Separate;
    SeparateAt(cs, |cs| - 1);
    chp.next := chain;
    assert forall i :: 0 <= i < |cs| - 1 ==> cs[i].next == At(cs, i + 1);
  }

  // A chain before those from chain k on.
  lemma PulledChained(tmp: Chain, cs: seq<Chain>, k: nat)
    requires k <= |cs| && tmp.next == At(cs, k) && forall i :: k <= i < |cs| ==> cs[i].next == At(cs, i + 1)
    ensures Chained([tmp] + cs[k..])
  {
    var ds := [tmp] + cs[k..];
    assert forall i :: 1 <= i < |ds| ==> ds[i] == cs[k + i - 1];
  }

  // Cutting a list after its first k chains.
  method CutAfter(previous: Chain, ghost cs: seq<Chain>, ghost k: nat)
    requires Separate(cs) && Chained(cs) && 0 < k <= |cs| && previous == cs[k - 1]
    modifies previous`next
    ensures Chained(cs[..k]) && Chained(cs[k..])
  {
    hide Separate;
    SeparateAt(cs, k - 1);
    previous.next := null;
    assert forall i :: 0 <= i < |cs| && i != k - 1 ==> cs[i].next == At(cs, i + 1);
  }

  // A list of chains, linked and stored, on its way from one buffer to another.
  ghost predicate Moving(head: Chain, tail: Chain, len: nat, cs: seq<Chain>, ps: seq<Bytes>)
    reads cs, Buffers(cs)
  {
    && Separate(cs) && Chained(cs) && Stored(cs, ps)
    && |cs| > 0 && head == cs[0] && tail == cs[|cs| - 1] && len == |Concat(ps)|
  }

  // The chains of a list behind those of a buffer, with last_with_datap moved on.
  ghost function Spliced(v: View, cs: seq<Chain>, ps: seq<Bytes>): View {
    Joined(v, cs, ps, Advance(v.pieces + ps, v.w))
  }

  lemma JoinedMoving(v: View, head: Chain, tail: Chain, len: nat, cs: seq<Chain>, ps: seq<Bytes>)
    requires v.Sound() && v.Used() == |v.chains| && Moving(head, tail, len, cs, ps) && AllApart(v.chains, cs)
    ensures var j := Spliced(v, cs, ps);
            && j.Shaped() && j.Contents() == v.Contents() + Concat(ps)
            && At(j.chains, |j.chains| - 1) == tail && At(j.chains, v.w - 1) == At(v.chains, v.w - 1)
  {
    hide Separate, Concat, Advance, LastWithData, Kept, AllApart, Chain.Ok, Chained;
    SeparateJoin(v.chains, cs);
    ConcatAppend(v.pieces, ps);
    AdvanceStops(v.pieces + ps, v.w);
  }

  // last_with_datap has stayed behind, just before an empty chain.
  ghost predicate StuckAt(v: View) {
    v.w + 1 < |v.pieces| && v.pieces[v.w + 1] == [] && Stuck(v.pieces, v.w)
  }

  // Where last_with_datap is then.
  lemma SplicedLast(v: View, cs: seq<Chain>, ps: seq<Bytes>)
    requires v.Sound() && v.Used() == |v.chains| && |cs| == |ps| > 0
    ensures var j := Spliced(v, cs, ps);
            && j.w < |j.pieces|
            && if NoGap(ps, v.pieces == []) then LastWithData(j.pieces, j.w) else StuckAt(j)
    ensures (forall i :: 0 <= i < |ps| ==> ps[i] != []) && Compact(v.pieces) ==> Compact(Spliced(v, cs, ps).pieces)
  {
    AdvanceStops(v.pieces + ps, v.w);
    AdvanceReaches(v.pieces, v.w, ps);
    if !NoGap(ps, v.pieces == []) {
      AdvanceIsStuck(v.pieces, v.w, ps);
    }
    hide Separate, Concat, Advance, LastWithData, Stuck, NoGap;
    if forall i :: 0 <= i < |ps| ==> ps[i] != [] {
      SplicedCompact(v, ps);
    }
  }

  lemma SplicedCompact(v: View, ps: seq<Bytes>)
    requires v.Sound() && v.Used() == |v.chains| && ps != [] && forall i :: 0 <= i < |ps| ==> ps[i] != []
    ensures Compact(v.pieces) ==> Compact(v.pieces + ps)
  {
    AdvanceAll(v.pieces, v.w, ps);
  }

  // What the buffer d is when the chains of v that hold its first n bytes as a whole came to it.
  ghost function Receiving(d: View, v: View, n: nat): View {
    var k := Whole(v.pieces, n);
    if Before(v, k) > 0 && d.Sound() && d.Used() <= |d.chains| && k <= |v.chains| then
      Spliced(Front(d, d.Used()), v.chains[..k], v.pieces[..k])
    else d
  }

  // Those of the first n bytes that are not in such a chain.
  ghost function Partial(v: View, n: nat): Bytes {
    var at := Before(v, Whole(v.pieces, n));
    if at <= n <= |v.Contents()| then v.Contents()[at..n] else []
  }

  // The same, with these bytes behind those of the chain at last_with_datap or without them.
  ghost function Moved(d: View, v: View, n: nat, added: bool): View {
    var j := Receiving(d, v, n);
    if added && j.w < |j.pieces| then WithPiece(j, j.w, j.pieces[j.w] + Partial(v, n)) else j
  }

  lemma NothingAdded(j: View)
    requires j.w < |j.pieces|
    ensures WithPiece(j, j.w, j.pieces[j.w] + []) == j
  {
    assert j.pieces[j.w] + [] == j.pieces[j.w];
  }

  // A list that is shaped, with last_with_datap at the last chain with data.
  lemma ShapedSound(v: View)
    ensures v.Sound() <==> v.Shaped() && LastWithData(v.pieces, v.w)
  {
    hide Separate;
  }

  // The first k chains of a list, and those that remain.
  lemma MovingFront(v: View, k: nat, ds: seq<Chain>)
    requires v.Sound() && 0 < k < |v.pieces| && AllApart(v.chains, ds)
    ensures Separate(v.chains[..k])
    ensures AllApart(ds, v.chains[..k]) && AllApart(v.chains[k..], v.chains[..k]) && AllApart(v.chains[k..], ds)
    ensures Before(v, k) == |Concat(v.pieces[..k])|
  {
    SeparateAt(v.chains, k);
    forall i | 0 <= i < k
      ensures ApartFrom(v.chains[k..], v.chains[..k][i])
    {
      SeparateAt(v.chains, i);
    }
  }

  // evbuffer_remove_buffer leaves last_with_datap right in both buffers. It does not if only empty chains
  // are passed over and the chain behind them is the last one with data, or if what is moved has a gap.
  ghost predicate Unbroken(v: View, n: nat, toEmpty: bool) {
    var k := Whole(v.pieces, n);
    if Before(v, k) == 0 then k == 0 || v.w != k else NoGap(v.pieces[..k], toEmpty)
  }

  // It does for every list without gaps.
  lemma CompactUnbroken(v: View, n: nat, toEmpty: bool)
    requires v.Sound() && Compact(v.pieces) && n < |v.Contents()|
    ensures Unbroken(v, n, toEmpty)
    ensures var k := Whole(v.pieces, n); k < |v.pieces| && forall i :: 0 <= i < k ==> v.pieces[i] != []
  {
    WholeSplits(v.pieces, n);
    var k := Whole(v.pieces, n);
    hide Separate, Concat, Whole;
    if k > 0 {
      BeforeNext(v, k - 1);
    }
  }

  // The chain that holds byte n of a list, and the place of the byte in it.
  lemma WholeAt(v: View, n: nat) returns (k: nat, rest: nat)
    requires v.Sound() && n < |v.Contents()|
    ensures k == Whole(v.pieces, n) < |v.pieces| && rest < |v.pieces[k]| && n == Before(v, k) + rest
  {
    hide Separate, LastWithData;
    WholeSplits(v.pieces, n);
    k := Whole(v.pieces, n);
    rest := n - Before(v, k);
  }

  lemma {:induction false} WholeSplits(ps: seq<Bytes>, n: nat)
    requires n < |Concat(ps)|
    ensures var k := Whole(ps, n); k < |ps| && |Concat(ps[..k])| <= n < |Concat(ps[..k])| + |ps[k]|
  {
    if |ps[0]| <= n {
      WholeSplits(ps[1..], n - |ps[0]|);
      var k := Whole(ps, n);
      assert ps[..k][0] == ps[0] && ps[..k][1..] == ps[1..][..k - 1];
    }
  }

  // Shortening a chain behind empty ones, which stay: where last_with_datap is then.
  function Reset(v: View, k: nat): View {
    View(v.chains, v.pieces, if v.w == k then 0 else v.w)
  }

  lemma ShortenedBehind(v: View, k: nat, n: nat)
    requires v.Sound() && 0 < k < |v.pieces| && n < |v.pieces[k]| && Before(v, k) == 0
    ensures var r := WithPiece(Reset(v, k), k, v.pieces[k][n..]);
            && r.Shaped() && n <= |v.Contents()| && r.Contents() == v.Contents()[n..]
            && if v.w != k then LastWithData(r.pieces, r.w) else r.pieces[0] == [] && r.w == 0 && Stuck(r.pieces, r.w)
    ensures !Compact(v.pieces)
  {
    hide Separate, Concat, Before;
    FirstIsEmpty(v, k);
    ShortenedContents(v, k, n);
    var r := WithPiece(Reset(v, k), k, v.pieces[k][n..]);
    assert v.pieces[0] == [] && r.pieces[k] != [] && v.pieces[k] != [];
    assert r.pieces[0] == [];
  }

  lemma FirstIsEmpty(v: View, k: nat)
    requires 0 < k <= |v.pieces| && Before(v, k) == 0
    ensures v.pieces[0] == []
  {
    BeforeNext(v, 0);
    BeforeMonotone(v, 1, k);
    hide Before;
  }

  lemma ShortenedContents(v: View, k: nat, n: nat)
    requires k < |v.pieces| && n < |v.pieces[k]| && Before(v, k) == 0
    ensures n <= |v.Contents()| && Concat(v.pieces[k := v.pieces[k][n..]]) == v.Contents()[n..]
  {
    ConcatAt(v.pieces, k);
    ConcatReplace(v.pieces, k, v.pieces[k][n..]);
    assert Concat(v.pieces[..k]) == [];
    hide Concat;
  }

  // The source when the first k chains and n bytes of the next one have gone: the view that is left.
  ghost function Left(v: View, k: nat, n: nat): View
    requires k < |v.pieces| == |v.chains| && n < |v.pieces[k]|
  {
    if Before(v, k) == 0 then WithPiece(Reset(v, k), k, v.pieces[k][n..]) else Rest(v, k, n)
  }

  lemma LeftIs(v: View, k: nat, n: nat)
    requires v.Sound() && k < |v.pieces| && n < |v.pieces[k]|
    ensures |v.chains| == |v.pieces| && k <= v.w
    ensures Before(v, k) + n <= |v.Contents()| && Left(v, k, n).Contents() == v.Contents()[Before(v, k) + n..]
    ensures Left(v, k, n).Shaped() && (Compact(v.pieces) ==> Compact(Left(v, k, n).pieces))
    ensures if Before(v, k) == 0 && k > 0 && v.w == k then
              var l := Left(v, k, n);
              l.w == 0 && |l.pieces| > 0 && l.pieces[0] == [] && Stuck(l.pieces, l.w)
            else LastWithData(Left(v, k, n).pieces, Left(v, k, n).w)
    ensures forall c :: c in Left(v, k, n).chains ==> c in v.chains
  {
    RestSound(v, k, n);
    RestFrom(v, k, n);
    if Before(v, k) == 0 && k > 0 {
      ShortenedBehind(v, k, n);
    } else if k == 0 {
      assert v.chains[0..] == v.chains && v.pieces[0 := v.pieces[0][n..]] == [v.pieces[0][n..]] + v.pieces[1..];
      BeforeEnds(v);
    }
    hide Separate, LastWithData, Concat, Compact, Before, Stuck;
  }

  // The chain that is shortened, where it is when whole chains have been passed over.
  lemma LeftInTwo(v: View, k: nat, n: nat)
    requires |v.chains| == |v.pieces| && k < |v.pieces| && n < |v.pieces[k]|
    ensures Before(v, k) == 0 ==> WithPiece(Reset(v, k), k, Reset(v, k).pieces[k][n..]) == Left(v, k, n)
    ensures Before(v, k) != 0 ==>
              |Rest(v, k, 0).pieces| > 0 && n <= |Rest(v, k, 0).pieces[0]|
              && WithPiece(Rest(v, k, 0), 0, Rest(v, k, 0).pieces[0][n..]) == Left(v, k, n)
  {
    RestInTwo(v, k, n);
    hide Before;
  }

  // Where the chains that moved are.
  lemma SplicedTo(d: View, v: View, k: nat)
    requires d.Sound() && d.Used() <= |d.chains| && v.Sound() && 0 < k < |v.pieces|
    ensures var f := Front(d, d.Used());
            var j := Spliced(f, v.chains[..k], v.pieces[..k]);
            && j.w < |j.pieces|
            && (if NoGap(v.pieces[..k], d.Contents() == []) then LastWithData(j.pieces, j.w) else StuckAt(j))
            && j.Contents() == d.Contents() + Concat(v.pieces[..k])
            && (Compact(d.pieces) && (forall i :: 0 <= i < k ==> v.pieces[i] != []) ==> Compact(j.pieces))
  {
    FrontSound(d);
    FrontNothing(d);
    var f := Front(d, d.Used());
    SplicedLast(f, v.chains[..k], v.pieces[..k]);
    ConcatAppend(f.pieces, v.pieces[..k]);
    hide Separate, LastWithData, Concat, Compact, Stuck, NoGap, Advance;
  }

  lemma FrontNothing(d: View)
    requires d.Sound()
    ensures d.Used() <= |d.pieces| && (d.Contents() == [] <==> Front(d, d.Used()).pieces == [])
  {
    KeptAll(d.pieces, d.w);
    if d.Used() == 0 {
      assert Front(d, d.Used()).pieces == [];
    }
    hide Separate;
  }

  lemma BeforeIs(v: View, k: nat, n: nat)
    requires k < |v.pieces| && Before(v, k) <= n < Before(v, k) + |v.pieces[k]|
    ensures Whole(v.pieces, n) == k
  {
    WholeIs(v.pieces, n, k);
  }

  lemma {:induction false} BeforeMonotone(v: View, i: nat, k: nat)
    requires i <= k <= |v.pieces|
    ensures Before(v, i) <= Before(v, k)
  {
    if i < k {
      BeforeMonotone(v, i, k - 1);
      BeforeNext(v, k - 1);
    }
  }

  // After the first k chains of cs moved behind chains of ds, the rest is apart from them.
  lemma MovedApart(cs: seq<Chain>, k: nat, ds: seq<Chain>, es: seq<Chain>)
    requires k <= |cs| && AllApart(cs[k..], cs[..k]) && AllApart(cs[k..], ds)
    requires exists n :: 0 <= n <= |ds| && es == ds[..n] + cs[..k]
    ensures AllApart(cs[k..], es)
    ensures forall c :: c in es ==> c in ds || c in cs
  {
  }

  // The bytes of the first k chains and of the beginning of the next one.
  lemma MovedFront(v: View, k: nat, rest: nat)
    requires k < |v.pieces| && rest <= |v.pieces[k]|
    ensures Before(v, k) + rest <= |v.Contents()|
    ensures Concat(v.pieces[..k]) == v.Contents()[..Before(v, k)]
    ensures Concat(v.pieces[..k]) + v.pieces[k][..rest] == v.Contents()[..Before(v, k) + rest]
    ensures Before(v, k) == 0 ==> Concat(v.pieces[..k]) == [] && v.pieces[k][..rest] == v.Contents()[..rest]
  {
    hide Concat;
    ConcatAt(v.pieces, k);
    TakenInTwo(Concat(v.pieces[..k]), v.pieces[k], Concat(v.pieces[k + 1..]), rest);
  }

  lemma TakenInTwo(a: Bytes, p: Bytes, b: Bytes, n: nat)
    requires n <= |p|
    ensures (a + p + b)[..|a|] == a && (a + p + b)[..|a| + n] == a + p[..n]
    ensures |a| == 0 ==> a == [] && p[..n] == (a + p + b)[..n]
  {
  }

  // What evbuffer_remove_buffer makes of the two lists when the first k chains and rest bytes of the next
  // one go: no chain moves if those are empty.
  lemma ReceivingIs(d: View, v: View, k: nat, rest: nat)
    requires d.Sound() && v.Sound() && k < |v.pieces| && rest < |v.pieces[k]|
    ensures d.Used() <= |d.chains| && |v.chains| == |v.pieces|
    ensures Before(v, k) + rest <= |v.Contents()|
    ensures var n := Before(v, k) + rest; var j := Receiving(d, v, n);
            && Whole(v.pieces, n) == k && Partial(v, n) == v.pieces[k][..rest] && j.w <= |j.pieces|
            && j == (if Before(v, k) == 0 then d else Spliced(Front(d, d.Used()), v.chains[..k], v.pieces[..k]))
            && j.Contents() == d.Contents() + v.Contents()[..Before(v, k)]
            && (if Unbroken(v, n, d.Contents() == []) || Before(v, k) == 0 then LastWithData(j.pieces, j.w) else StuckAt(j))
            && (Before(v, k) == 0 ==> (Unbroken(v, n, d.Contents() == []) <==> k == 0 || v.w != k))
            && (Compact(d.pieces) && Compact(v.pieces) ==> Compact(j.pieces))
            && v.Contents()[..Before(v, k)] + v.pieces[k][..rest] == v.Contents()[..n]
  {
    SliceAt(v, k, 0, rest);
    BeforeIs(v, k, Before(v, k) + rest);
    MovedFront(v, k, rest);
    FrontSound(d);
    BeforeEnds(v);
    if Before(v, k) > 0 {
      SplicedTo(d, v, k);
      CompactBefore(v.pieces, k);
    }
    hide Separate, Concat, Compact, Stuck, StuckAt, NoGap, Spliced, Before, Whole, Front, LastWithData;
  }

  // The bytes of the chain that goes in part, once they are added or lost.
  lemma AfterRest(d: View, v: View, k: nat, rest: nat, added: bool)
    requires d.Sound() && v.Sound() && k < |v.pieces| && rest < |v.pieces[k]|
    ensures Before(v, k) + rest <= |v.Contents()|
    ensures var n := Before(v, k) + rest; var j := Receiving(d, v, n);
            var tail := if added then v.pieces[k][..rest] else [];
            && j.Contents() + tail == d.Contents() + v.Contents()[..n - if added then 0 else rest]
            && (StuckAt(j) ==>
                  && Moved(d, v, n, added) == WithPiece(j, j.w, j.pieces[j.w] + tail)
                  && Stuck(j.pieces[j.w := j.pieces[j.w] + tail], j.w))
  {
    hide View.Sound, View.Contents, LastWithData, Stuck, Receiving, Before, Whole, Unbroken, Compact, Partial, Spliced;
    ReceivingIs(d, v, k, rest);
    var j := Receiving(d, v, Before(v, k) + rest);
    var tail := if added then v.pieces[k][..rest] else [];
    if StuckAt(j) {
      NothingAdded(j);
      StuckStays(j.pieces, j.w, j.pieces[j.w] + tail);
    }
  }

  // The bytes i to j of chain k where they stand in the contents.
  lemma SliceAt(v: View, k: nat, i: nat, j: nat)
    requires k < |v.pieces| && i <= j <= |v.pieces[k]|
    ensures Before(v, k) + j <= |v.Contents()|
    ensures v.Contents()[Before(v, k) + i..Before(v, k) + j] == v.pieces[k][i..j]
  {
    ConcatAt(v.pieces, k);
    hide Concat;
    SliceWithin(Concat(v.pieces[..k]), v.pieces[k], Concat(v.pieces[k + 1..]), i, j);
  }

  lemma SliceWithin(a: Bytes, p: Bytes, b: Bytes, i: nat, j: nat)
    requires i <= j <= |p|
    ensures (a + p + b)[|a| + i..|a| + j] == p[i..j]
  {
  }

  // tmp already holds the bytes before byte n of chain k; the chains from chain k on still hold
  // theirs, and tmp is none of them.
  ghost predicate Absorbing(v: View, tmp: Chain, k: nat, n: nat)
    reads v.chains, Buffers(v.chains), tmp, tmp.buffer
  {
    && |v.pieces| == |v.chains| && k <= |v.pieces| && tmp.Ok()
    && Before(v, k) + n <= |v.Contents()| && tmp.data == v.Contents()[..Before(v, k) + n]
    && (forall i :: k <= i < |v.chains| ==> Apart(v.chains[i], tmp))
    && (forall i :: k <= i < |v.chains| ==>
          v.chains[i].Ok() && v.chains[i].data == v.pieces[i] && v.chains[i].off == |v.pieces[i]|)
  }

  // Copies the first n bytes of a chain behind those of tmp.
  method PullBytes(tmp: Chain, chain: Chain, n: nat, ghost v: View, ghost k: nat)
    requires k < |v.chains| && Absorbing(v, tmp, k, 0) && chain == v.chains[k] && n <= chain.off
    requires !tmp.immutable && n <= tmp.Space()
    modifies tmp`off, tmp`data, tmp.buffer
    ensures Absorbing(v, tmp, k, n) && |tmp.data| == old(|tmp.data|) + n && tmp.Space() == old(tmp.Space()) - n
  {
    hide Before, Separate, Concat;
    SliceAt(v, k, 0, n);
    assert chain.buffer[chain.misalign..chain.misalign + n] == v.pieces[k][..n];
    tmp.Extend(chain.buffer[chain.misalign..chain.misalign + n]);
    assert v.Contents()[..Before(v, k)] + v.Contents()[Before(v, k)..Before(v, k) + n]
        == v.Contents()[..Before(v, k) + n];
  }

  lemma AbsorbedWhole(v: View, tmp: Chain, k: nat)
    requires k < |v.chains| && |v.chains| == |v.pieces| && Absorbing(v, tmp, k, |v.pieces[k]|)
    ensures Absorbing(v, tmp, k + 1, 0)
  {
    BeforeNext(v, k);
  }

  // A chain that is taken as a whole.
  method PullWhole(tmp: Chain, chain: Chain, ghost v: View, ghost k: nat)
    requires k < |v.chains| && Absorbing(v, tmp, k, 0) && chain == v.chains[k]
    requires !tmp.immutable && chain.off <= tmp.Space()
    modifies tmp`off, tmp`data, tmp.buffer
    ensures Absorbing(v, tmp, k + 1, 0) && chain != tmp
    ensures |tmp.data| == old(|tmp.data|) + chain.off && tmp.Space() == old(tmp.Space()) - chain.off
  {
    hide Before, Separate, Concat, Chain.Ok;
    PullBytes(tmp, chain, chain.off, v, k);
    AbsorbedWhole(v, tmp, k);
  }

  // The next chain to be taken still holds its bytes.
  lemma AbsorbingNext(v: View, tmp: Chain, k: nat)
    requires k < |v.chains| && Absorbing(v, tmp, k, 0)
    ensures |v.chains| == |v.pieces| && v.chains[k].off == |v.pieces[k]| && tmp.Ok() && tmp.off == |tmp.data|
  {
    hide Before, Separate, Concat;
  }

  // What is left of the chains from chain k on without the first n bytes.
  function Tail(ps: seq<Bytes>, k: nat, n: nat): seq<Bytes>
    requires k < |ps| ==> n <= |ps[k]|
  {
    if k < |ps| then [ps[k][n..]] + ps[k + 1..] else []
  }

  // tmp holds the bytes before byte n of chain k, and the rest follows.
  ghost function Pulled(v: View, tmp: Chain, k: nat, n: nat): View
    requires k <= |v.pieces| == |v.chains| && Before(v, k) + n <= |v.Contents()|
    requires k < |v.pieces| ==> n <= |v.pieces[k]|
  {
    View([tmp] + v.chains[k..], [v.Contents()[..Before(v, k) + n]] + Tail(v.pieces, k, n),
         if v.w < k then 0 else v.w - k + 1)
  }

  lemma TailConcat(v: View, k: nat, n: nat)
    requires k <= |v.pieces| && (if k < |v.pieces| then n < |v.pieces[k]| else n == 0)
    ensures Before(v, k) + n <= |v.Contents()|
    ensures Concat(Tail(v.pieces, k, n)) == v.Contents()[Before(v, k) + n..]
  {
    if k < |v.pieces| {
      ConcatAt(v.pieces, k);
      assert Tail(v.pieces, k, n)[1..] == v.pieces[k + 1..];
    } else {
      BeforeEnds(v);
    }
  }

  // The bytes p, from the first k chains and the beginning of the next one, before the rest.
  lemma TailLast(ps: seq<Bytes>, w: nat, k: nat, n: nat, p: Bytes)
    requires LastWithData(ps, w) && k <= |ps| && (if k < |ps| then n < |ps[k]| else n == 0)
    requires p != [] && ps != []
    ensures LastWithData([p] + Tail(ps, k, n), if w < k then 0 else w - k + 1)
    ensures Compact(ps) ==> Compact([p] + Tail(ps, k, n))
  {
    TailCompact(ps, k, n, p);
    hide Compact;
    if k < |ps| {
      var qs := [p] + ([ps[k][n..]] + ps[k + 1..]);
      assert forall i :: 2 <= i < |qs| ==> qs[i] == ps[k + i - 1];
      assert qs[1] == ps[k][n..] != [];
    }
  }

  lemma TailCompact(ps: seq<Bytes>, k: nat, n: nat, p: Bytes)
    requires k <= |ps| && (k < |ps| ==> n < |ps[k]|) && p != []
    ensures Compact(ps) ==> Compact([p] + Tail(ps, k, n))
  {
    var qs := [p] + Tail(ps, k, n);
    assert forall i :: 2 <= i < |qs| ==> qs[i] == ps[k + i - 1];
    assert k < |ps| ==> qs[1] == ps[k][n..] != [];
  }

  lemma PulledSound(v: View, tmp: Chain, k: nat, n: nat)
    requires v.Sound() && k <= |v.pieces| && (if k < |v.pieces| then n < |v.pieces[k]| else n == 0)
    requires forall i :: k <= i < |v.chains| ==> Apart(v.chains[i], tmp)
    requires Before(v, k) + n > 0
    ensures Before(v, k) + n <= |v.Contents()|
    ensures Pulled(v, tmp, k, n).Sound() && Pulled(v, tmp, k, n).Contents() == v.Contents()
    ensures Compact(v.pieces) ==> Compact(Pulled(v, tmp, k, n).pieces)
  {
    hide Separate, Compact, LastWithData, Before;
    TailConcat(v, k, n);
    SeparateDrop(v.chains, k);
    SeparatePush(tmp, v.chains[k..]);
    var p := v.Contents()[..Before(v, k) + n];
    BeforeEnds(v);
    TailLast(v.pieces, v.w, k, n, p);
    assert ([p] + Tail(v.pieces, k, n))[1..] == Tail(v.pieces, k, n);
    hide Tail;
  }

  // Another chain in the place of chain i.
  function Replaced(v: View, i: nat, tmp: Chain): View
    requires i < |v.chains|
  {
    View(v.chains[i := tmp], v.pieces, v.w)
  }

  lemma ReplacedSound(v: View, i: nat, tmp: Chain)
    requires v.Sound() && i < |v.chains| && ApartFrom(v.chains, tmp)
    ensures Replaced(v, i, tmp).Sound()
  {
    SeparateReplace(v.chains, i, tmp);
  }
}
