/**
  What can be read in a DNS packet, by the places that are passed on the way: from a label to the byte
  behind it and from a pointer to where it leads, up to a zero (section 4.1.4 of RFC 1035).
  */
module DnsWalks {
  import opened Options
  import opened Pieces
  import opened DnsNames
  import opened Sequences

  predicate Follows(p: Bytes, at: nat, next: nat) {
    && at < |p| && p[at] != 0 && next < |p|
    && if p[at] < 64 then next == at + 1 + p[at] as nat else at + 1 < |p| && next == Target(p, at)
  }

  // The places from pos to a zero.
  ghost predicate Way(p: Bytes, pos: nat, at: seq<nat>) {
    && at != [] && at[0] == pos && at[|at| - 1] < |p| && p[at[|at| - 1]] == 0
    && forall i :: 0 <= i < |at| - 1 ==> Follows(p, at[i], at[i + 1])
  }

  // The label at a place, or none at a pointer or a zero.
  function LabelOn(p: Bytes, at: nat): seq<Bytes> {
    if at < |p| && 0 < p[at] < 64 && at + 1 + p[at] as nat <= |p| then [p[at + 1..at + 1 + p[at] as nat]] else []
  }

  // The labels that stand at some places.
  function LabelsAt(p: Bytes, at: seq<nat>): seq<Bytes> {
    if at == [] then [] else LabelOn(p, at[0]) + LabelsAt(p, at[1..])
  }

  // What name_parse reads has a way.
  lemma {:induction false} ParsedWay(p: Bytes, pos: nat, n: nat) returns (at: seq<nat>)
    requires Parsed(p, pos, n).Some?
    ensures Way(p, pos, at) && LabelsAt(p, at) == Parsed(p, pos, n).value
    decreases n, |p| - pos
  {
    var len := p[pos] as nat;
    if len == 0 {
      at := [pos];
      assert LabelsAt(p, at[1..]) == [];
    } else if len >= 64 {
      var rest := ParsedWay(p, Target(p, pos), n - 1);
      at := [pos] + rest;
      WayMore(p, pos, rest);
    } else {
      var rest := ParsedWay(p, pos + 1 + len, n);
      at := [pos] + rest;
      WayMore(p, pos, rest);
    }
  }

  lemma WayMore(p: Bytes, pos: nat, rest: seq<nat>)
    requires rest != [] && Way(p, rest[0], rest) && Follows(p, pos, rest[0])
    ensures Way(p, pos, [pos] + rest)
    ensures LabelsAt(p, [pos] + rest) == LabelOn(p, pos) + LabelsAt(p, rest)
  {
    LabelsMore(p, pos, rest);
    hide Follows, LabelsAt;
    var at := [pos] + rest;
    forall i | 0 <= i < |at| - 1
      ensures Follows(p, at[i], at[i + 1])
    {
      assert i > 0 ==> at[i] == rest[i - 1] && at[i + 1] == rest[i];
    }
  }

  lemma LabelsMore(p: Bytes, pos: nat, rest: seq<nat>)
    ensures LabelsAt(p, [pos] + rest) == LabelOn(p, pos) + LabelsAt(p, rest)
  {
    hide LabelOn;
    assert ([pos] + rest)[1..] == rest;
  }

  lemma WayRest(p: Bytes, pos: nat, at: seq<nat>)
    requires Way(p, pos, at) && |at| > 1
    ensures Follows(p, pos, at[1]) && Way(p, at[1], at[1..])
    ensures LabelsAt(p, at) == LabelOn(p, pos) + LabelsAt(p, at[1..])
  {
    hide Follows, LabelOn;
    var rest := at[1..];
    assert Follows(p, at[0], at[1]);
    forall i | 0 <= i < |rest| - 1
      ensures Follows(p, rest[i], rest[i + 1])
    {
      assert rest[i] == at[i + 1] && rest[i + 1] == at[i + 2];
    }
  }

  // Whoever has a way reads it, if no more pointers lie on it than are allowed.
  lemma {:induction false} WayParsed(p: Bytes, pos: nat, at: seq<nat>, n: nat)
    requires Way(p, pos, at) && |at| <= n + 1
    ensures Parsed(p, pos, n) == Some(LabelsAt(p, at))
    decreases |at|
  {
    if |at| > 1 {
      WayRest(p, pos, at);
      hide Way, LabelsAt;
      if p[pos] >= 64 {
        WayParsed(p, at[1], at[1..], n - 1);
        assert [] + LabelsAt(p, at[1..]) == LabelsAt(p, at[1..]);
      } else {
        WayParsed(p, at[1], at[1..], n);
        assert LabelOn(p, pos) == [p[pos + 1..at[1]]];
      }
    } else {
      assert LabelsAt(p, at[1..]) == [] && [] + [] == LabelsAt(p, at);
    }
  }

  // No place lies twice on a way: from there on it would never end.
  lemma {:induction false} NoReturn(p: Bytes, pos: nat, at: seq<nat>, i: nat, j: nat)
    requires Way(p, pos, at) && i < j < |at|
    ensures at[i] != at[j]
    decreases |at| - j
  {
    assert Follows(p, at[i], at[i + 1]);
    if at[i] == at[j] && j < |at| - 1 {
      assert Follows(p, at[j], at[j + 1]);
      NoReturn(p, pos, at, i + 1, j + 1);
    }
  }

  // Different numbers below n are no more than n.
  lemma {:induction false} Pigeonhole(s: seq<nat>, n: nat)
    requires Distinct(s) && forall x <- s :: x < n
    ensures |s| <= n
  {
    if s != [] {
      assert s[0] in s;
    }
    if n > 0 && n - 1 in s {
      var i :| 0 <= i < |s| && s[i] == n - 1;
      var t := WithoutAt(s, i);
      forall j, k | 0 <= j < k < |t|
        ensures t[j] != t[k]
      {
        assert t[j] == s[if j < i then j else j + 1] && t[k] == s[if k < i then k else k + 1];
      }
      forall x | x in t
        ensures x < n - 1
      {
        var j :| 0 <= j < |t| && t[j] == x;
        var k := if j < i then j else j + 1;
        assert t[j] == s[k] && s[k] != s[i] && s[k] in s;
      }
      Pigeonhole(t, n - 1);
    } else if n > 0 {
      Pigeonhole(s, n - 1);
    }
  }

  // A way has no more places than the packet.
  lemma WayShort(p: Bytes, pos: nat, at: seq<nat>)
    requires Way(p, pos, at)
    ensures |at| <= |p|
  {
    forall i, j | 0 <= i < j < |at|
      ensures at[i] != at[j]
    {
      NoReturn(p, pos, at, i, j);
    }
    forall x | x in at
      ensures x < |p|
    {
      var i :| 0 <= i < |at| && at[i] == x;
      assert i < |at| - 1 ==> Follows(p, at[i], at[i + 1]);
    }
    Pigeonhole(at, |p|);
  }

  // name_parse reads labels at a place exactly if they stand on a way from there to a zero: its limit on
  // the number of pointers, which ends it on a loop, refuses no name that ends.
  lemma ParsedIffWay(p: Bytes, pos: nat, ls: seq<Bytes>)
    ensures Parsed(p, pos, |p|) == Some(ls) <==> exists at :: Way(p, pos, at) && LabelsAt(p, at) == ls
  {
    if Parsed(p, pos, |p|) == Some(ls) {
      var at := ParsedWay(p, pos, |p|);
    }
    if at :| Way(p, pos, at) && LabelsAt(p, at) == ls {
      WayShort(p, pos, at);
      WayParsed(p, pos, at, |p|);
    }
  }

  // The message of section 4.1.4 of RFC 1035, without what lies between its names: F.ISI.ARPA at 0,
  // FOO.F.ISI.ARPA at 12, ARPA at 18 and the root at 20.
  const MESSAGE: Bytes := [1, 70, 3, 73, 83, 73, 4, 65, 82, 80, 65, 0, 3, 70, 79, 79, 192, 0, 192, 6, 0]
  const FOO: Bytes := [70, 79, 79]
  const F: Bytes := [70]
  const ISI: Bytes := [73, 83, 73]
  const ARPA: Bytes := [65, 82, 80, 65]

  lemma KnownNames()
    ensures Parsed(MESSAGE, 0, |MESSAGE|) == Some([F, ISI, ARPA])
    ensures Parsed(MESSAGE, 12, |MESSAGE|) == Some([FOO, F, ISI, ARPA])
    ensures Parsed(MESSAGE, 18, |MESSAGE|) == Some([ARPA])
    ensures Parsed(MESSAGE, 20, |MESSAGE|) == Some([])
  {
    KnownTail(20);
    KnownTail(21);
    assert Target(MESSAGE, 16) == 0 && Target(MESSAGE, 18) == 6;
    KnownLabel(12, 21, FOO, [F, ISI, ARPA]);
    assert [FOO] + [F, ISI, ARPA] == [FOO, F, ISI, ARPA];
  }

  // FOO.F has these labels.
  lemma KnownLabels()
    ensures Labels([70, 79, 79, 46, 70]) == [FOO, F]
  {
    var name: Bytes := [70, 79, 79, 46, 70];
    assert DotAt(name) == 3 by {
      assert name[1..][1..] == [79, 46, 70] && name[1..][1..][1..] == [46, 70];
    }
    assert name[..3] == FOO && name[4..] == F;
  }

  // The first name, with its ends.
  lemma KnownTail(n: nat)
    ensures Parsed(MESSAGE, 0, n) == Some([F, ISI, ARPA]) && Parsed(MESSAGE, 6, n) == Some([ARPA])
  {
    assert [ARPA] + [] == [ARPA];
    KnownLabel(6, n, ARPA, []);
    KnownLabel(2, n, ISI, [ARPA]);
    assert [ISI] + [ARPA] == [ISI, ARPA];
    KnownLabel(0, n, F, [ISI, ARPA]);
    assert [F] + [ISI, ARPA] == [F, ISI, ARPA];
  }

  lemma KnownLabel(pos: nat, n: nat, l: Bytes, ls: seq<Bytes>)
    requires pos + 1 + |l| <= |MESSAGE| && 0 < |l| < 64 && MESSAGE[pos] as nat == |l|
    requires forall k :: 0 <= k < |l| ==> MESSAGE[pos + 1 + k] == l[k]
    requires Parsed(MESSAGE, pos + 1 + |l|, n) == Some(ls)
    ensures Parsed(MESSAGE, pos, n) == Some([l] + ls)
  {
    assert MESSAGE[pos + 1..pos + 1 + |l|] == l;
  }
}
