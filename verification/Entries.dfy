/**
  What a hash table stands for: its keys in the order of their insertion, each with its value
  (common/jansson/hashtable.h).
  */
module Entries {
  import opened Sequences
  import opened Options

  type Key = string

  // The address of a json_t.
  type Value = nat

  datatype Entry = Entry(key: Key, value: Value)

  predicate Unique(es: seq<Entry>) {
    forall i, j :: 0 <= i < j < |es| ==> es[i].key != es[j].key
  }

  // The place of a key, or the number of entries if it has none.
  function Place(es: seq<Entry>, key: Key): (i: nat)
    ensures i <= |es| && (i < |es| ==> es[i].key == key)
    ensures forall j :: 0 <= j < i ==> es[j].key != key
  {
    if es == [] || es[0].key == key then 0 else 1 + Place(es[1..], key)
  }

  lemma PlaceIs(es: seq<Entry>, key: Key, i: nat)
    requires Unique(es) && i <= |es| && (if i < |es| then es[i].key == key else forall e <- es :: e.key != key)
    ensures Place(es, key) == i
  {
    var j := Place(es, key);
    assert j < |es| ==> es[j] in es;
  }

  function Lookup(es: seq<Entry>, key: Key): Option<Value> {
    var i := Place(es, key);
    if i < |es| then Some(es[i].value) else None
  }

  // A key that is there keeps its place; a new one comes last.
  function Put(es: seq<Entry>, key: Key, value: Value): seq<Entry> {
    var i := Place(es, key);
    if i < |es| then es[i := Entry(key, value)] else es + [Entry(key, value)]
  }

  function Without(es: seq<Entry>, key: Key): seq<Entry> {
    var i := Place(es, key);
    if i < |es| then WithoutAt(es, i) else es
  }

  // The entries as a finite map.
  function ToMap(es: seq<Entry>): (m: map<Key, Value>) {
    if es == [] then map[] else ToMap(es[..|es| - 1])[es[|es| - 1].key := es[|es| - 1].value]
  }

  function Keys(es: seq<Entry>): (ks: seq<Key>)
    ensures |ks| == |es| && forall i :: 0 <= i < |ks| ==> ks[i] == es[i].key
  {
    seq(|es|, i requires 0 <= i < |es| => es[i].key)
  }

  lemma {:induction false} ToMapIsLookup(es: seq<Entry>, k: Key)
    requires Unique(es)
    ensures Lookup(es, k) == if k in ToMap(es) then Some(ToMap(es)[k]) else None
  {
    hide Place;
    if es == [] {
      PlaceIs(es, k, 0);
    } else {
      var front := es[..|es| - 1];
      ToMapIsLookup(front, k);
      var i := Place(front, k);
      assert forall e <- front :: exists j :: 0 <= j < |front| && es[j] == e;
      if es[|es| - 1].key == k {
        PlaceIs(es, k, |es| - 1);
      } else if i < |front| {
        PlaceIs(es, k, i);
      } else {
        assert forall j :: 0 <= j < |es| ==> es[j].key != k;
        PlaceIs(es, k, |es|);
      }
    }
  }

  lemma LookupPut(es: seq<Entry>, key: Key, value: Value, k: Key)
    requires Unique(es)
    ensures Unique(Put(es, key, value))
    ensures Lookup(Put(es, key, value), k) == if k == key then Some(value) else Lookup(es, k)
  {
    hide Place;
    var i, j, ps := Place(es, key), Place(es, k), Put(es, key, value);
    assert forall m :: 0 <= m < |ps| && m != i ==> ps[m] == es[m];
    if k == key {
      PlaceIs(ps, k, i);
    } else if j < |es| {
      PlaceIs(ps, k, j);
    } else {
      PlaceIs(ps, k, |ps|);
    }
  }

  lemma LookupWithout(es: seq<Entry>, key: Key, k: Key)
    requires Unique(es)
    ensures Unique(Without(es, key))
    ensures Lookup(Without(es, key), k) == if k == key then None else Lookup(es, k)
  {
    hide Place;
    var i, j, ws := Place(es, key), Place(es, k), Without(es, key);
    assert forall m :: 0 <= m < |ws| ==> ws[m] == es[if m < i then m else m + 1];
    if k != key && j < |es| {
      PlaceIs(ws, k, if j < i then j else j - 1);
    } else {
      PlaceIs(ws, k, |ws|);
    }
  }

  // The value of a key in a map.
  function Find(m: map<Key, Value>, k: Key): Option<Value> {
    if k in m then Some(m[k]) else None
  }

  lemma SameMap(m: map<Key, Value>, n: map<Key, Value>)
    requires forall k :: Find(m, k) == Find(n, k)
    ensures m == n
  {
    forall k
      ensures (k in m <==> k in n) && (k in m && k in n ==> m[k] == n[k])
    {
      assert Find(m, k) == Find(n, k);
    }
  }

  // The entries are a map: Lookup, Put and Without are its operations.
  lemma LookupIsMap(es: seq<Entry>, key: Key)
    requires Unique(es)
    ensures Lookup(es, key) == Find(ToMap(es), key)
  {
    ToMapIsLookup(es, key);
  }

  lemma PutIsUpdate(es: seq<Entry>, key: Key, value: Value)
    requires Unique(es)
    ensures Unique(Put(es, key, value)) && ToMap(Put(es, key, value)) == ToMap(es)[key := value]
  {
    hide ToMap, Lookup, Put, Unique;
    LookupPut(es, key, value, key);
    forall k
      ensures Find(ToMap(Put(es, key, value)), k) == Find(ToMap(es)[key := value], k)
    {
      LookupIsMap(es, k);
      LookupPut(es, key, value, k);
      LookupIsMap(Put(es, key, value), k);
    }
    SameMap(ToMap(Put(es, key, value)), ToMap(es)[key := value]);
  }

  lemma WithoutIsRemoval(es: seq<Entry>, key: Key)
    requires Unique(es)
    ensures Unique(Without(es, key)) && ToMap(Without(es, key)) == ToMap(es) - {key}
  {
    hide ToMap, Lookup, Without, Unique;
    LookupWithout(es, key, key);
    forall k
      ensures Find(ToMap(Without(es, key)), k) == Find(ToMap(es) - {key}, k)
    {
      LookupIsMap(es, k);
      LookupWithout(es, key, k);
      LookupIsMap(Without(es, key), k);
    }
    SameMap(ToMap(Without(es, key)), ToMap(es) - {key});
  }

  // Setting a key that is there keeps the order of the keys, and a new key comes last.
  lemma KeysAfterPut(es: seq<Entry>, key: Key, value: Value)
    ensures Keys(Put(es, key, value)) == if key in Keys(es) then Keys(es) else Keys(es) + [key]
  {
    var i := Place(es, key);
    if i < |es| {
      assert Keys(es)[i] == key;
    }
  }

  // Deleting a key keeps the order of the others.
  lemma KeysAfterWithout(es: seq<Entry>, key: Key)
    requires Unique(es)
    ensures var i := Place(es, key);
            Keys(Without(es, key)) == if i < |es| then Keys(es)[..i] + Keys(es)[i + 1..] else Keys(es)
    ensures key !in Keys(Without(es, key))
  {
    hide Place;
    var i, ws := Place(es, key), Without(es, key);
    assert forall m :: 0 <= m < |ws| ==> ws[m] == es[if m < i then m else m + 1];
  }
}
