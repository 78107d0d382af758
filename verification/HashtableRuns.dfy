/**
  Runs of operations on a hash table (common/jansson/hashtable.c).
  */
module HashtableRuns {
  import opened Entries
  import opened HashLists
  import opened Hashtables

  datatype Command = SetKey(key: Key, value: Value) | DelKey(key: Key) | ClearAll

  function Applied(c: Command, es: seq<Entry>): seq<Entry> {
    match c
    case SetKey(key, value) => Put(es, key, value)
    case DelKey(key) => Without(es, key)
    case ClearAll => []
  }

  function Replay(cs: seq<Command>): seq<Entry> {
    if cs == [] then [] else Applied(cs[|cs| - 1], Replay(cs[..|cs| - 1]))
  }

  // The same on a finite map.
  function AppliedToMap(c: Command, m: map<Key, Value>): map<Key, Value> {
    match c
    case SetKey(key, value) => m[key := value]
    case DelKey(key) => m - {key}
    case ClearAll => map[]
  }

  function ReplayMap(cs: seq<Command>): map<Key, Value> {
    if cs == [] then map[] else AppliedToMap(cs[|cs| - 1], ReplayMap(cs[..|cs| - 1]))
  }

  lemma {:induction false} ReplayIsMap(cs: seq<Command>)
    ensures Unique(Replay(cs)) && ToMap(Replay(cs)) == ReplayMap(cs)
  {
    if cs != [] {
      var es, c := Replay(cs[..|cs| - 1]), cs[|cs| - 1];
      ReplayIsMap(cs[..|cs| - 1]);
      match c
      case SetKey(key, value) => PutIsUpdate(es, key, value);
      case DelKey(key) => WithoutIsRemoval(es, key);
      case ClearAll =>
    }
  }

  // The number of the command that last put a key in that was not there.
  function Born(cs: seq<Command>, key: Key): int {
    if cs == [] then -1
    else
      var front, c := cs[..|cs| - 1], cs[|cs| - 1];
      if c.SetKey? && c.key == key && key !in Keys(Replay(front)) then |cs| - 1 else Born(front, key)
  }

  // Keys in the order in which they came in.
  ghost predicate ByAge(cs: seq<Command>, ks: seq<Key>) {
    && (forall i :: 0 <= i < |ks| ==> Born(cs, ks[i]) < |cs|)
    && (forall i, j :: 0 <= i < j < |ks| ==> Born(cs, ks[i]) < Born(cs, ks[j]))
  }

  // A command does not make the keys that are there younger.
  lemma StillByAge(front: seq<Command>, c: Command, ks: seq<Key>)
    requires ByAge(front, ks) && forall k <- ks :: k in Keys(Replay(front))
    ensures ByAge(front + [c], ks)
  {
    forall k | k in ks
      ensures Born(front + [c], k) == Born(front, k)
    {
      assert (front + [c])[..|front|] == front;
    }
    assert forall i :: 0 <= i < |ks| ==> ks[i] in ks;
  }

  // The order of the table is that of insertion.
  lemma {:induction false} OrderOfInsertion(cs: seq<Command>)
    ensures ByAge(cs, Keys(Replay(cs)))
  {
    if cs != [] {
      var front, c := cs[..|cs| - 1], cs[|cs| - 1];
      var es := Replay(front);
      OrderOfInsertion(front);
      assert cs == front + [c];
      ReplayIsMap(front);
      StillByAge(front, c, Keys(es));
      match c
      case SetKey(key, value) =>
        KeysAfterPut(es, key, value);
        if key !in Keys(es) {
          assert Born(cs, key) == |front|;
          NotYounger(front, c, Keys(es));
        }
      case DelKey(key) =>
        KeysAfterWithout(es, key);
        SomeByAge(cs, Keys(es), Place(es, key));
      case ClearAll =>
    }
  }

  lemma NotYounger(front: seq<Command>, c: Command, ks: seq<Key>)
    requires ByAge(front, ks) && forall k <- ks :: k in Keys(Replay(front))
    ensures forall i :: 0 <= i < |ks| ==> Born(front + [c], ks[i]) < |front|
  {
    forall i | 0 <= i < |ks|
      ensures Born(front + [c], ks[i]) < |front|
    {
      assert ks[i] in ks && (front + [c])[..|front|] == front;
    }
  }

  lemma SomeByAge(cs: seq<Command>, ks: seq<Key>, p: nat)
    requires ByAge(cs, ks)
    ensures p < |ks| ==> ByAge(cs, ks[..p] + ks[p + 1..])
  {
    if p < |ks| {
      var rest := ks[..p] + ks[p + 1..];
      assert forall i :: 0 <= i < |rest| ==> rest[i] == ks[if i < p then i else i + 1];
    }
  }

  // Every run on a new table leaves it with the entries that the commands say.
  method Run(hashStr: Key -> nat, cs: seq<Command>) returns (t: Hashtable)
    ensures t.Valid() && t.Entries() == Replay(cs)
  {
    hide Hashtable.Valid, Hashtable.Links, EntriesOf, Applied, ListNodes, OrderedNodes;
    t := new Hashtable(hashStr, false);
    assert cs[..0] == [];
    for i := 0 to |cs|
      invariant t.Valid() && t.Entries() == Replay(cs[..i]) && !t.scarce
      invariant fresh(t) && fresh(t.list) && fresh(t.ordered)
      invariant forall p <- t.inserted :: fresh(p) && fresh(p.list) && fresh(p.ordered)
    {
      assert cs[..i + 1][..i] == cs[..i] && cs[..i + 1][i] == cs[i];
      t.LinksFrom();
      Apply(t, cs[i]);
    }
    assert cs[..|cs|] == cs;
  }

  method Apply(t: Hashtable, c: Command)
    requires t.Valid() && !t.scarce
    modifies t, t.Links()`next, t.Links()`prev, PairSet(t.inserted)`value
    ensures t.Valid() && t.Grown() && t.Entries() == Applied(c, old(t.Entries()))
  {
    hide Hashtable.Valid, EntriesOf, Put, Without, Place;
    match c
    case SetKey(key, value) => var r := t.Set(key, value);
    case DelKey(key) => var r := t.Del(key);
    case ClearAll => t.Clear();
  }
}
