/** Python dictionaries with string keys: a finite map together with the
    insertion order of its keys, which Python preserves and iterates in. */
module Dicts {
  import opened Seqs

  datatype Dict<V> = Dict(keys: seq<string>, items: map<string, V>) {
    /** Every key is listed once, and the listed keys are exactly the mapped ones. */
    ghost predicate Valid() {
      && Distinct(keys)
      && forall k :: k in keys <==> k in items
    }
  }

  function Empty<V>(): (d: Dict<V>)
    ensures d.Valid() && d.items == map[]
  {
    Dict([], map[])
  }

  /** `d[k] = v`: an existing key keeps its position, a new key goes last. */
  function Put<V>(d: Dict<V>, k: string, v: V): (r: Dict<V>)
    requires d.Valid()
    ensures r.Valid()
    ensures r.items == d.items[k := v]
    ensures k in d.items ==> r.keys == d.keys
    ensures k !in d.items ==> r.keys == d.keys + [k]
  {
    if k in d.items then Dict(d.keys, d.items[k := v])
    else
      assert multiset(d.keys + [k]) == multiset(d.keys) + multiset{k};
      Dict(d.keys + [k], d.items[k := v])
  }

  /** The test `k not in keys`. */
  function NotIn(keys: set<string>): string -> bool {
    k => k !in keys
  }

  /** `{k: v for k, v in d.items() if k not in drop}`. */
  function Without<V>(d: Dict<V>, drop: set<string>): (r: Dict<V>)
    requires d.Valid()
    ensures r.Valid()
    ensures r.items == d.items - drop
    ensures IsSubsequence(r.keys, d.keys)
    ensures d.items.Keys !! drop ==> r == d
  {
    var keep := NotIn(drop);
    assert d.items.Keys !! drop ==> Filter(d.keys, keep) == d.keys && d.items - drop == d.items by {
      if d.items.Keys !! drop {
        FilterKeepsAll(d.keys, keep);
      }
    }
    Dict(Filter(d.keys, keep), d.items - drop)
  }

  /** Assigns `m[k]` to every key of `ks`, first to last. */
  function PutEach<V>(d: Dict<V>, ks: seq<string>, m: map<string, V>): (r: Dict<V>)
    requires d.Valid()
    requires forall k :: k in ks ==> k in m
    ensures r.Valid()
    ensures r.items.Keys == d.items.Keys + (set k | k in ks)
    ensures forall k :: k in ks ==> r.items[k] == m[k]
    ensures forall k :: k in d.items && k !in ks ==> r.items[k] == d.items[k]
    decreases |ks|
  {
    if ks == [] then d
    else PutEach(Put(d, ks[0], m[ks[0]]), ks[1..], m)
  }

  /** One assignment followed by the new keys of `rest` is the new keys of the whole list. */
  lemma PutThenNew<V>(d: Dict<V>, k0: string, v: V, rest: seq<string>)
    requires d.Valid() && k0 !in rest
    ensures Put(d, k0, v).keys + Filter(rest, NotIn(Put(d, k0, v).items.Keys))
         == d.keys + Filter([k0] + rest, NotIn(d.items.Keys))
  {
    var d' := Put(d, k0, v);
    var isNew, isNew' := NotIn(d.items.Keys), NotIn(d'.items.Keys);
    assert Filter(rest, isNew') == Filter(rest, isNew) by {
      forall x | x in rest
        ensures isNew'(x) == isNew(x)
      {
        assert x != k0;
      }
      FilterCongruent(rest, isNew', isNew);
    }
    assert d'.keys == if isNew(k0) then d.keys + [k0] else d.keys;
    AppendFiltered(d.keys, k0, rest, isNew);
  }

  /** Assigning distinct keys in order keeps the existing key order and appends the keys
      that were not there yet, in the order they were assigned. */
  lemma {:induction false} PutEachKeys<V>(d: Dict<V>, ks: seq<string>, m: map<string, V>)
    requires d.Valid() && Distinct(ks)
    requires forall k :: k in ks ==> k in m
    ensures PutEach(d, ks, m).keys == d.keys + Filter(ks, NotIn(d.items.Keys))
    decreases |ks|
  {
    if ks != [] {
      var k0, rest := ks[0], ks[1..];
      var d' := Put(d, k0, m[k0]);
      DistinctTail(ks);
      calc {
        PutEach(d, ks, m).keys;
        PutEach(d', rest, m).keys;
        { PutEachKeys(d', rest, m); }
        d'.keys + Filter(rest, NotIn(d'.items.Keys));
        { PutThenNew(d, k0, m[k0], rest); }
        d.keys + Filter([k0] + rest, NotIn(d.items.Keys));
        { assert ks == [k0] + rest; }
        d.keys + Filter(ks, NotIn(d.items.Keys));
      }
    }
  }

  /** `d.update(other)`: the entries of `other` are added, overwriting equal keys. */
  function Update<V>(d: Dict<V>, other: Dict<V>): (r: Dict<V>)
    requires d.Valid() && other.Valid()
    ensures r.Valid()
    ensures r.items == d.items + other.items
  {
    var r := PutEach(d, other.keys, other.items);
    assert r.items.Keys == (d.items + other.items).Keys;
    r
  }

  /** The keys `d` already had keep their place; the new keys follow in `other`'s order. */
  lemma UpdateKeys<V>(d: Dict<V>, other: Dict<V>)
    requires d.Valid() && other.Valid()
    ensures Update(d, other).keys == d.keys + Filter(other.keys, NotIn(d.items.Keys))
  {
    PutEachKeys(d, other.keys, other.items);
  }
}
