/**
  Names in DNS messages: dotted strings, their labels, and what stands for them in a packet
  (common/libevent/evdns.c; sections 3.1 and 4.1.4 of RFC 1035).
  */
module DnsNames {
  import opened Options
  import opened Pieces

  const DOT: byte := 46
  const MAX_LABEL: nat := 63

  // strchr for a dot: its place, or the length if there is none.
  function DotAt(name: Bytes): (i: nat)
    ensures i <= |name| && (i < |name| ==> name[i] == DOT)
    ensures DOT !in name[..i]
  {
    if name == [] || name[0] == DOT then 0
    else
      var i := 1 + DotAt(name[1..]);
      assert name[..i] == [name[0]] + name[1..][..i - 1];
      i
  }

  // The labels of a name. A dot at the end does not begin another one.
  function Labels(name: Bytes): seq<Bytes>
    decreases |name|
  {
    if name == [] then []
    else
      var i := DotAt(name);
      if i == |name| then [name] else [name[..i]] + Labels(name[i + 1..])
  }

  function Join(ls: seq<Bytes>): Bytes {
    if ls == [] then [] else if |ls| == 1 then ls[0] else ls[0] + [DOT] + Join(ls[1..])
  }

  // A name without empty labels.
  predicate Good(name: Bytes) {
    forall l <- Labels(name) :: l != []
  }

  predicate EndsInDot(name: Bytes) {
    name != [] && name[|name| - 1] == DOT
  }

  // Joining the labels gives the name back, except for a dot at the end.
  lemma {:induction false} JoinLabels(name: Bytes)
    ensures Join(Labels(name)) + (if EndsInDot(name) then [DOT] else []) == name
    decreases |name|
  {
    if name != [] {
      var i := DotAt(name);
      if i == |name| {
        assert name[..i] == name && name[|name| - 1] in name;
        assert Labels(name) == [name];
      } else {
        var first, rest := name[..i], name[i + 1..];
        JoinLabels(rest);
        JoinFirst(name, first, rest);
      }
    }
  }

  lemma JoinFirst(name: Bytes, first: Bytes, rest: Bytes)
    requires name == first + [DOT] + rest && Labels(name) == [first] + Labels(rest)
    requires Join(Labels(rest)) + (if EndsInDot(rest) then [DOT] else []) == rest
    ensures Join(Labels(name)) + (if EndsInDot(name) then [DOT] else []) == name
  {
    if rest == [] {
      JoinOne(first);
      assert Labels(name) == [first] && first + [DOT] == name;
    } else {
      assert rest[|rest| - 1] == name[|name| - 1];
      assert Labels(rest) != [];
      hide Labels, Join;
      JoinCons(first, Labels(rest));
      JoinRest(first, Join(Labels(rest)), if EndsInDot(rest) then [DOT] else []);
    }
  }

  lemma JoinRest(first: Bytes, joined: Bytes, end: Bytes)
    ensures first + [DOT] + joined + end == first + [DOT] + (joined + end)
  {
  }

  lemma JoinOne(first: Bytes)
    ensures Join([first]) == first
  {
  }

  lemma JoinCons(first: Bytes, ls: seq<Bytes>)
    requires ls != []
    ensures Join([first] + ls) == first + [DOT] + Join(ls)
  {
    assert ([first] + ls)[1..] == ls;
  }

  // A packet: a byte with one of the two high bits set begins a pointer of two bytes.
  function Target(p: Bytes, pos: nat): nat
    requires pos + 1 < |p|
  {
    (p[pos] as nat % 64) * 256 + p[pos + 1] as nat
  }

  // The labels that stand at a place of a packet, if there is a name there that can be read with
  // at most n pointers. This is what name_parse is for, without its limit on the length.
  function Parsed(p: Bytes, pos: nat, n: nat): Option<seq<Bytes>>
    decreases n, |p| - pos
  {
    if pos >= |p| then None
    else
      var len := p[pos] as nat;
      if len == 0 then Some([])
      else if len >= 64 then
        if pos + 1 >= |p| || Target(p, pos) >= |p| || n == 0 then None
        else Parsed(p, Target(p, pos), n - 1)
      else if pos + 1 + len > |p| then None
      else
        match Parsed(p, pos + 1 + len, n)
        case None => None
        case Some(ls) => Some([p[pos + 1..pos + 1 + len]] + ls)
  }

  // The place after the name at pos: after its terminating zero or its first pointer.
  function NameEnd(p: Bytes, pos: nat): nat
    decreases |p| - pos
  {
    if pos >= |p| then pos
    else
      var len := p[pos] as nat;
      if len == 0 then pos + 1 else if len >= 64 then pos + 2 else NameEnd(p, pos + 1 + len)
  }

  // The labels stand in the packet from pos to end, without a terminator.
  predicate Laid(p: Bytes, pos: nat, ls: seq<Bytes>, end: nat)
    decreases |ls|
  {
    if ls == [] then pos == end <= |p|
    else
      var len := |ls[0]|;
      && 0 < len <= MAX_LABEL && pos + 1 + len <= |p| && p[pos] as nat == len
      && p[pos + 1..pos + 1 + len] == ls[0] && Laid(p, pos + 1 + len, ls[1..], end)
  }

  // The labels stand in the packet from pos to end, where every pointer has its two high bits set and
  // leads back before the name it belongs to; bound is the beginning of this one.
  ghost predicate Denotes(p: Bytes, pos: nat, bound: nat, ls: seq<Bytes>, end: nat)
    decreases bound, |ls|
  {
    if pos >= |p| then false
    else if p[pos] == 0 then ls == [] && end == pos + 1
    else if p[pos] >= 64 then
      && p[pos] >= 192 && pos + 1 < |p| && end == pos + 2 && Target(p, pos) < bound
      && exists e :: Denotes(p, Target(p, pos), Target(p, pos), ls, e)
    else
      ls != [] && var len := p[pos] as nat;
      && len == |ls[0]| && pos + 1 + len <= |p| && p[pos + 1..pos + 1 + len] == ls[0]
      && Denotes(p, pos + 1 + len, bound, ls[1..], end)
  }

  // What a packet denotes is what is read there, with no more pointers than there are places before.
  lemma {:induction false} DenotesParsed(p: Bytes, pos: nat, bound: nat, ls: seq<Bytes>, end: nat, n: nat)
    requires Denotes(p, pos, bound, ls, end) && bound <= n && bound <= |p|
    ensures Parsed(p, pos, n) == Some(ls) && NameEnd(p, pos) == end <= |p|
    decreases bound, |ls|
  {
    if p[pos] == 0 {
    } else if p[pos] >= 64 {
      var e :| Denotes(p, Target(p, pos), Target(p, pos), ls, e);
      DenotesParsed(p, Target(p, pos), Target(p, pos), ls, e, n - 1);
    } else {
      var len := p[pos] as nat;
      DenotesParsed(p, pos + 1 + len, bound, ls[1..], end, n);
      assert ls == [ls[0]] + ls[1..];
    }
  }

  // Bytes added at the end of a packet do not change what it denotes.
  lemma {:induction false} DenotesExtended(p: Bytes, q: Bytes, pos: nat, bound: nat, ls: seq<Bytes>, end: nat)
    requires Denotes(p, pos, bound, ls, end) && p <= q
    ensures Denotes(q, pos, bound, ls, end)
    decreases bound, |ls|
  {
    if p[pos] == 0 {
    } else if p[pos] >= 64 {
      var e :| Denotes(p, Target(p, pos), Target(p, pos), ls, e);
      DenotesExtended(p, q, Target(p, pos), Target(p, pos), ls, e);
    } else {
      var len := p[pos] as nat;
      assert q[pos + 1..pos + 1 + len] == p[pos + 1..pos + 1 + len];
      DenotesExtended(p, q, pos + 1 + len, bound, ls[1..], end);
    }
  }

  lemma {:induction false} LaidExtended(p: Bytes, q: Bytes, pos: nat, ls: seq<Bytes>, end: nat)
    requires Laid(p, pos, ls, end) && p <= q
    ensures Laid(q, pos, ls, end)
    decreases |ls|
  {
    if ls != [] {
      var len := |ls[0]|;
      assert q[pos + 1..pos + 1 + len] == p[pos + 1..pos + 1 + len];
      LaidExtended(p, q, pos + 1 + len, ls[1..], end);
    }
  }

  lemma {:induction false} LaidMore(p: Bytes, pos: nat, ls: seq<Bytes>, mid: nat, ms: seq<Bytes>, end: nat)
    requires Laid(p, pos, ls, mid) && Laid(p, mid, ms, end)
    ensures Laid(p, pos, ls + ms, end)
    decreases |ls|
  {
    if ls == [] {
      assert ls + ms == ms;
    } else {
      LaidMore(p, pos + 1 + |ls[0]|, ls[1..], mid, ms, end);
      assert (ls + ms)[1..] == ls[1..] + ms;
    }
  }

  // Labels before a name make a longer name.
  lemma {:induction false} LaidDenotes(p: Bytes, pos: nat, ls: seq<Bytes>, mid: nat, bound: nat, ms: seq<Bytes>, end: nat)
    requires Laid(p, pos, ls, mid) && Denotes(p, mid, bound, ms, end)
    ensures Denotes(p, pos, bound, ls + ms, end)
    decreases |ls|
  {
    if ls == [] {
      assert ls + ms == ms;
    } else {
      LaidDenotes(p, pos + 1 + |ls[0]|, ls[1..], mid, bound, ms, end);
      assert (ls + ms)[1..] == ls[1..] + ms;
    }
  }

  // A name may also be taken to begin later than it does.
  lemma {:induction false} DenotesHigher(p: Bytes, pos: nat, bound: nat, higher: nat, ls: seq<Bytes>, end: nat)
    requires Denotes(p, pos, bound, ls, end) && bound <= higher
    ensures Denotes(p, pos, higher, ls, end)
    decreases |ls|
  {
    if 0 < p[pos] < 64 {
      DenotesHigher(p, pos + 1 + p[pos] as nat, bound, higher, ls[1..], end);
    }
  }

  // The labels before the first empty one.
  function UpToEmpty(ls: seq<Bytes>): seq<Bytes> {
    if ls == [] || ls[0] == [] then [] else [ls[0]] + UpToEmpty(ls[1..])
  }

  lemma {:induction false} UpToEmptyMore(ls: seq<Bytes>, ms: seq<Bytes>)
    requires forall l <- ls :: l != []
    ensures UpToEmpty(ls + ms) == ls + UpToEmpty(ms)
  {
    if ls == [] {
      assert ls + ms == ms;
    } else {
      assert (ls + ms)[1..] == ls[1..] + ms;
      assert ls[0] in ls && forall l <- ls[1..] :: l in ls;
      UpToEmptyMore(ls[1..], ms);
    }
  }

  lemma {:induction false} UpToEmptyAll(ls: seq<Bytes>)
    ensures UpToEmpty(ls) == ls <==> forall l <- ls :: l != []
    ensures |UpToEmpty(ls)| <= |ls| && UpToEmpty(ls) <= ls
  {
    if ls != [] {
      assert ls == [ls[0]] + ls[1..];
      assert ls[0] in ls && (forall l <- ls[1..] :: l in ls) && forall l <- ls :: l == ls[0] || l in ls[1..];
      UpToEmptyAll(ls[1..]);
    }
  }

  lemma {:induction false} JoinMore(ls: seq<Bytes>, l: Bytes)
    ensures Join(ls + [l]) == if ls == [] then l else Join(ls) + [DOT] + l
  {
    if |ls| > 1 {
      assert (ls + [l])[1..] == ls[1..] + [l];
      JoinMore(ls[1..], l);
    } else if |ls| == 1 {
      assert (ls + [l])[1..] == [l];
    }
  }

  // More labels make a longer name.
  lemma {:induction false} JoinLonger(ls: seq<Bytes>, ms: seq<Bytes>)
    requires ms != []
    ensures |Join(ls + ms)| >= |Join(ls)| + (if ls == [] then 0 else 1) + |ms[0]|
  {
    if |ls| > 1 {
      assert (ls + ms)[1..] == ls[1..] + ms;
      JoinLonger(ls[1..], ms);
    } else if |ls| == 1 {
      assert (ls + ms)[1..] == ms;
    } else {
      assert ls + ms == ms;
    }
  }

  // The name that is read back from the labels before the first empty one is the name itself
  // exactly if it has no empty label and no dot at the end.
  lemma ReadBack(name: Bytes)
    ensures Join(UpToEmpty(Labels(name))) == name <==> Good(name) && !EndsInDot(name)
  {
    JoinLabels(name);
    UpToEmptyAll(Labels(name));
    var ls, us := Labels(name), UpToEmpty(Labels(name));
    if !Good(name) {
      var rest := ls[|us|..];
      assert ls == us + rest && rest != [];
      JoinLonger(us, rest);
      FirstEmpty(ls);
      if us == [] {
        NotOnlyEmpty(name);
      }
    }
  }

  lemma {:induction false} FirstEmpty(ls: seq<Bytes>)
    ensures |UpToEmpty(ls)| <= |ls| && (|UpToEmpty(ls)| < |ls| ==> ls[|UpToEmpty(ls)|] == [])
  {
    if ls != [] && ls[0] != [] {
      FirstEmpty(ls[1..]);
    }
  }

  lemma NotOnlyEmpty(name: Bytes)
    requires UpToEmpty(Labels(name)) == [] && !Good(name)
    ensures name != []
  {
  }
}
