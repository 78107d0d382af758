/**
  The bytes of an evbuffer as the list of the bytes of its chains (common/libevent/buffer.c).
  */
module Pieces {
  newtype byte = x: int | 0 <= x < 256

  type Bytes = seq<byte>

  // The bytes of all chains, one after the other.
  function Concat(ps: seq<Bytes>): Bytes {
    if ps == [] then [] else ps[0] + Concat(ps[1..])
  }

  lemma {:induction false} ConcatAppend(ps: seq<Bytes>, qs: seq<Bytes>)
    ensures Concat(ps + qs) == Concat(ps) + Concat(qs)
  {
    if ps == [] {
      assert ps + qs == qs;
    } else {
      ConcatAppend(ps[1..], qs);
      assert (ps + qs)[1..] == ps[1..] + qs;
      Regroup(ps[0], Concat(ps[1..]), Concat(qs));
    }
  }

  lemma Regroup(a: Bytes, b: Bytes, c: Bytes)
    ensures (a + b) + c == a + (b + c)
  {
  }

  lemma {:induction false} ConcatEmpty(ps: seq<Bytes>)
    requires forall i :: 0 <= i < |ps| ==> ps[i] == []
    ensures Concat(ps) == []
  {
    if ps != [] {
      ConcatEmpty(ps[1..]);
    }
  }

  lemma ConcatOne(p: Bytes)
    ensures Concat([p]) == p
  {
    assert [p][1..] == [];
  }

  // The list cut at a chain: what is before it, its own bytes, and what is after it.
  lemma ConcatAt(ps: seq<Bytes>, i: nat)
    requires i < |ps|
    ensures Concat(ps) == Concat(ps[..i]) + ps[i] + Concat(ps[i + 1..])
  {
    ConcatSplit(ps, i);
    assert ps[i..][1..] == ps[i + 1..];
  }

  lemma ConcatSplit(ps: seq<Bytes>, i: nat)
    requires i <= |ps|
    ensures Concat(ps) == Concat(ps[..i]) + Concat(ps[i..])
  {
    assert ps == ps[..i] + ps[i..];
    ConcatAppend(ps[..i], ps[i..]);
  }

  // Replacing the bytes of one chain.
  lemma ConcatReplace(ps: seq<Bytes>, i: nat, p: Bytes)
    requires i < |ps|
    ensures Concat(ps[i := p]) == Concat(ps[..i]) + p + Concat(ps[i + 1..])
  {
    ConcatAt(ps[i := p], i);
    assert ps[i := p][..i] == ps[..i];
    assert ps[i := p][i + 1..] == ps[i + 1..];
  }

  // w is the index of the last chain with data, or 0 if no chain has data.
  predicate LastWithData(ps: seq<Bytes>, w: nat) {
    && (w < |ps| || w == |ps| == 0)
    && (w > 0 ==> ps[w] != [])
    && forall i :: w < i < |ps| ==> ps[i] == []
  }

  // No empty chain comes before a chain with data.
  predicate Compact(ps: seq<Bytes>) {
    forall i, j :: 0 <= i < j < |ps| && ps[j] != [] ==> ps[i] != []
  }

  lemma CompactBefore(ps: seq<Bytes>, k: nat)
    requires k < |ps| && ps[k] != []
    ensures Compact(ps) ==> forall i :: 0 <= i < k ==> ps[i] != []
  {
  }

  // The number of leading chains that remain when the trailing empty ones are freed.
  function Kept(ps: seq<Bytes>, w: nat): nat
    requires LastWithData(ps, w)
  {
    if ps == [] || ps[w] == [] then w else w + 1
  }

  lemma KeptAll(ps: seq<Bytes>, w: nat)
    requires LastWithData(ps, w)
    ensures Kept(ps, w) <= |ps|
    ensures Concat(ps[..Kept(ps, w)]) == Concat(ps)
    ensures Concat(ps) == [] ==> Kept(ps, w) == 0
  {
    var n := Kept(ps, w);
    ConcatSplit(ps, n);
    ConcatEmpty(ps[n..]);
    if n > 0 {
      ConcatAt(ps, n - 1);
    }
  }

  lemma KeptStays(ps: seq<Bytes>, w: nat)
    requires LastWithData(ps, w)
    ensures Kept(ps, w) <= |ps| && LastWithData(ps[..Kept(ps, w)], w)
    ensures w <= Kept(ps, w) <= w + 1
  {
  }

  // Bytes appended to the last chain with data come at the end.
  lemma AppendAtLast(ps: seq<Bytes>, w: nat, data: Bytes)
    requires LastWithData(ps, w) && w < |ps|
    ensures LastWithData(ps[w := ps[w] + data], w)
    ensures Concat(ps[w := ps[w] + data]) == Concat(ps) + data
    ensures Compact(ps) ==> Compact(ps[w := ps[w] + data])
  {
    ConcatAt(ps, w);
    ConcatReplace(ps, w, ps[w] + data);
    ConcatEmpty(ps[w + 1..]);
  }

  // A chain put in the place of the trailing empty ones.
  lemma InsertAtEnd(ps: seq<Bytes>, w: nat, p: Bytes)
    requires LastWithData(ps, w)
    ensures Kept(ps, w) <= |ps|
    ensures LastWithData(ps[..Kept(ps, w)] + [p], if p != [] then Kept(ps, w) else w)
    ensures Concat(ps[..Kept(ps, w)] + [p]) == Concat(ps) + p
    ensures Compact(ps) ==> Compact(ps[..Kept(ps, w)] + [p])
  {
    KeptAll(ps, w);
    var qs := ps[..Kept(ps, w)];
    ConcatAppend(qs, [p]);
    ConcatOne(p);
    assert forall i :: 0 <= i < |qs| ==> (qs + [p])[i] == ps[i];
    assert (qs + [p])[|qs|] == p;
    if Compact(ps) && |qs| > 0 {
      assert ps[w] != [];
    }
  }

  // advance_last_with_data: from the chain w on, as long as the next chain has data.
  function Advance(ps: seq<Bytes>, w: nat): (w': nat)
    decreases |ps| - w
  {
    if w + 1 < |ps| && ps[w + 1] != [] then Advance(ps, w + 1) else w
  }

  // No empty chain of a list is followed by one with data, except that the first chain may be
  // empty if it becomes the first chain of the buffer.
  predicate NoGap(ps: seq<Bytes>, becomesFirst: bool) {
    forall i, j :: 0 <= i < j < |ps| && ps[j] != [] ==> ps[i] != [] || (becomesFirst && i == 0)
  }

  lemma {:induction false} AdvanceStops(ps: seq<Bytes>, w: nat)
    requires w < |ps|
    ensures w <= Advance(ps, w) < |ps|
    ensures forall i :: w < i <= Advance(ps, w) ==> ps[i] != []
    ensures Advance(ps, w) + 1 < |ps| ==> ps[Advance(ps, w) + 1] == []
    decreases |ps| - w
  {
    if w + 1 < |ps| && ps[w + 1] != [] {
      AdvanceStops(ps, w + 1);
    }
  }

  // Splicing the chains ps behind the chains qs of a buffer: advance_last_with_data finds the
  // last chain with data exactly if ps has no gap.
  lemma AdvanceReaches(qs: seq<Bytes>, w: nat, ps: seq<Bytes>)
    requires LastWithData(qs, w) && Kept(qs, w) == |qs| && ps != []
    ensures LastWithData(qs + ps, Advance(qs + ps, w)) <==> NoGap(ps, qs == [])
  {
    if NoGap(ps, qs == []) {
      AdvanceReachesEnd(qs, w, ps);
    } else {
      var i, j :| 0 <= i < j < |ps| && ps[j] != [] && ps[i] == [] && !(qs == [] && i == 0);
      AdvanceStuck(qs, w, ps, i);
      assert (qs + ps)[|qs| + j] != [];
    }
  }

  lemma AdvanceReachesEnd(qs: seq<Bytes>, w: nat, ps: seq<Bytes>)
    requires LastWithData(qs, w) && Kept(qs, w) == |qs| && ps != [] && NoGap(ps, qs == [])
    ensures LastWithData(qs + ps, Advance(qs + ps, w))
  {
    var all := qs + ps;
    var last := Advance(all, w);
    AdvanceStops(all, w);
    hide Advance;
    if last + 1 < |all| {
      var gap := last + 1 - |qs|;
      assert ps[gap] == all[last + 1] == [];
      forall i | last < i < |all|
        ensures all[i] == []
      {
        assert all[i] == ps[i - |qs|];
      }
    }
  }

  lemma AdvanceStuck(qs: seq<Bytes>, w: nat, ps: seq<Bytes>, i: nat)
    requires LastWithData(qs, w) && Kept(qs, w) == |qs| && i < |ps| && ps[i] == [] && (qs == [] ==> i > 0)
    ensures Advance(qs + ps, w) < |qs| + i
  {
    AdvanceStops(qs + ps, w);
    assert (qs + ps)[|qs| + i] == ps[i];
    hide Advance;
  }

  // The first empty chain from chain w on.
  function FirstEmpty(ps: seq<Bytes>, w: nat): (k: nat)
    requires w <= |ps|
    ensures w <= k <= |ps| && (k < |ps| ==> ps[k] == [])
    ensures forall i :: w <= i < k ==> ps[i] != []
    decreases |ps| - w
  {
    if w < |ps| && ps[w] != [] then FirstEmpty(ps, w + 1) else w
  }

  // From chain w on, an empty chain is followed by one with data: what
  // evbuffer_free_trailing_empty_chains asserts not to be.
  ghost predicate Stuck(ps: seq<Bytes>, w: nat)
    requires w <= |ps|
  {
    exists j :: FirstEmpty(ps, w) < j < |ps| && ps[j] != []
  }

  // Bytes behind those of chain w do not change that if the next chain is empty.
  lemma StuckStays(ps: seq<Bytes>, w: nat, p: Bytes)
    requires w + 1 < |ps| && ps[w + 1] == [] && Stuck(ps, w)
    ensures Stuck(ps[w := p], w)
  {
    var qs := ps[w := p];
    var j :| FirstEmpty(ps, w) < j < |ps| && ps[j] != [];
    assert qs[w + 1] == [] && qs[j] == ps[j];
    assert FirstEmpty(qs, w) <= w + 1;
  }

  lemma LastIsNotStuck(ps: seq<Bytes>, w: nat)
    requires LastWithData(ps, w)
    ensures w <= |ps| && !Stuck(ps, w) && FirstEmpty(ps, w) == Kept(ps, w)
  {
  }

  // After a splice with a gap, last_with_datap stays before it.
  lemma AdvanceIsStuck(qs: seq<Bytes>, w: nat, ps: seq<Bytes>)
    requires LastWithData(qs, w) && Kept(qs, w) == |qs| && ps != [] && !NoGap(ps, qs == [])
    ensures Advance(qs + ps, w) + 1 < |qs + ps| && (qs + ps)[Advance(qs + ps, w) + 1] == []
    ensures Stuck(qs + ps, Advance(qs + ps, w))
  {
    var i, j :| 0 <= i < j < |ps| && ps[j] != [] && ps[i] == [] && !(qs == [] && i == 0);
    var all := qs + ps;
    AdvanceStops(all, w);
    AdvanceStuck(qs, w, ps, i);
    hide Advance;
    var last := Advance(all, w);
    assert all[|qs| + i] == [] && all[|qs| + j] != [];
    assert FirstEmpty(all, last) <= last + 1;
  }

  // How many chains go with the first n bytes as a whole, the empty ones before the next byte included.
  function Whole(ps: seq<Bytes>, n: nat): (k: nat)
    ensures k <= |ps|
  {
    if ps == [] || |ps[0]| > n then 0 else 1 + Whole(ps[1..], n - |ps[0]|)
  }

  lemma {:induction false} WholeIs(ps: seq<Bytes>, n: nat, k: nat)
    requires k < |ps| && |Concat(ps[..k])| <= n < |Concat(ps[..k])| + |ps[k]|
    ensures Whole(ps, n) == k
  {
    if k > 0 {
      assert ps[..k][0] == ps[0] && ps[..k][1..] == ps[1..][..k - 1];
      WholeIs(ps[1..], n - |ps[0]|, k - 1);
    }
  }

  // What a gap does: of the bytes 2, 3 moved behind 1 only 2 ends up there in order, because the
  // empty chain before 2 keeps last_with_datap at 1 and the last byte is written behind 1.
  lemma GapReorders()
    ensures var qs: seq<Bytes> := [[1]];
            var ps: seq<Bytes> := [[], [2]];
            var all := qs + ps;
            var w := Advance(all, 0);
            && LastWithData(qs, 0) && !NoGap(ps, false) && w < |all|
            && Concat(all[w := all[w] + [3]]) == [1, 3, 2]
            && Concat(all) + [3] == [1, 2, 3]
  {
    var all: seq<Bytes> := [[1]] + [[], [2]];
    assert all == [[1], [], [2]];
    var ps: seq<Bytes> := [[], [2]];
    assert ps[0] == [] && ps[1] != [];
    assert all[0] + [3] == [1, 3];
    var bad := all[0 := [1, 3]];
    assert bad == [[1, 3], [], [2]];
    assert bad[1..] == [[], [2]] && bad[1..][1..] == [[2]] && bad[1..][1..][1..] == [];
    assert Concat(bad[1..][1..]) == [2];
    assert all[1..] == [[], [2]] && all[1..][1..] == [[2]];
  }

  // Chains with data spliced behind a list: the last of them becomes the last with data.
  lemma AdvanceAll(qs: seq<Bytes>, w: nat, ps: seq<Bytes>)
    requires LastWithData(qs, w) && Kept(qs, w) == |qs| && ps != []
    requires forall i :: 0 <= i < |ps| ==> ps[i] != []
    ensures LastWithData(qs + ps, Advance(qs + ps, w))
    ensures Compact(qs) ==> Compact(qs + ps)
  {
    AdvanceReaches(qs, w, ps);
    assert forall i :: 0 <= i < |qs + ps| ==> (qs + ps)[i] == if i < |qs| then qs[i] else ps[i - |qs|];
    assert qs == [] || qs[|qs| - 1] != [];
  }
}
