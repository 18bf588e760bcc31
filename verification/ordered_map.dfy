/**
 `std::map<std::string, V>`: a map whose iteration visits the keys in ascending
 `LexOrder.Less` order. It is kept as the sequence of (key, value) pairs in
 iteration order; `ToMap` is the plain key/value view of that sequence.
 */
module OrderedMap {
  import opened Common
  import opened LexOrder

  type Entries<V> = seq<(string, V)>

  /** The key/value view. An earlier pair wins over a later one with the same key. */
  function ToMap<V>(es: Entries<V>): map<string, V>
  {
    if |es| == 0 then map[] else ToMap(es[1..])[es[0].0 := es[0].1]
  }

  /** `k` sorts strictly before every key of `m`. */
  predicate Below<V>(k: string, m: map<string, V>)
  {
    forall j | j in m :: Less(k, j)
  }

  /** The iteration order of a `std::map`: keys strictly ascending, hence unique. */
  predicate Sorted<V>(es: Entries<V>)
  {
    |es| == 0 || (Below(es[0].0, ToMap(es[1..])) && Sorted(es[1..]))
  }

  /** The first entry visited by a range-for over the map holds its least key. */
  lemma FirstIsLeast<V>(es: Entries<V>)
    requires Sorted(es) && |es| > 0
    ensures es[0].0 in ToMap(es) && ToMap(es)[es[0].0] == es[0].1
    ensures forall k | k in ToMap(es) && k != es[0].0 :: Less(es[0].0, k)
  {
  }

  /** Keys are unique: the second entry's key differs from the first's. */
  lemma SecondDiffers<V>(es: Entries<V>)
    requires Sorted(es) && |es| > 1
    ensures es[1].0 != es[0].0
  {
    assert es[1..][0] == es[1];
    assert es[1].0 in ToMap(es[1..]);
    Irreflexive(es[0].0);
  }

  /** `map::find` / `map::at`: the value stored under `k`, if any. */
  function Get<V>(es: Entries<V>, k: string): (r: Option<V>)
    ensures r.Some? <==> k in ToMap(es)
    ensures r.Some? ==> r.value == ToMap(es)[k]
  {
    if |es| == 0 then None
    else if es[0].0 == k then Some(es[0].1)
    else Get(es[1..], k)
  }

  /** Proof step only: a pair put in front of a sorted list whose keys all
      follow it. */
  lemma ConsSorted<V>(e: (string, V), tail: Entries<V>)
    requires Below(e.0, ToMap(tail)) && Sorted(tail)
    ensures Sorted([e] + tail) && ToMap([e] + tail) == ToMap(tail)[e.0 := e.1]
  {
    assert ([e] + tail)[1..] == tail;
  }

  /** Proof step only: inserting before the least key. */
  lemma InsertFront<V>(es: Entries<V>, k: string, v: V)
    requires Sorted(es) && |es| > 0 && Less(k, es[0].0)
    ensures Sorted([(k, v)] + es) && ToMap([(k, v)] + es) == ToMap(es)[k := v]
  {
    forall j | j in ToMap(es) ensures Less(k, j) {
      if j != es[0].0 {
        Transitive(k, es[0].0, j);
      }
    }
    ConsSorted((k, v), es);
  }

  /** Proof step only: overwriting the least key. */
  lemma OverwriteFront<V>(es: Entries<V>, v: V)
    requires Sorted(es) && |es| > 0
    ensures Sorted([(es[0].0, v)] + es[1..]) && ToMap([(es[0].0, v)] + es[1..]) == ToMap(es)[es[0].0 := v]
  {
    ConsSorted((es[0].0, v), es[1..]);
  }

  /** Proof step only: the least key stays in front of a later assignment. */
  lemma AssignBehind<V>(es: Entries<V>, k: string, v: V, tail: Entries<V>)
    requires Sorted(es) && |es| > 0 && k != es[0].0 && !Less(k, es[0].0)
    requires Sorted(tail) && ToMap(tail) == ToMap(es[1..])[k := v]
    ensures Sorted([es[0]] + tail) && ToMap([es[0]] + tail) == ToMap(es)[k := v]
  {
    Total(k, es[0].0);
    ConsSorted(es[0], tail);
  }

  /** `m[k] = v`: assigns under an existing key or inserts at the sorted position. */
  function Assign<V>(es: Entries<V>, k: string, v: V): (r: Entries<V>)
    requires Sorted(es)
    ensures Sorted(r)
    ensures ToMap(r) == ToMap(es)[k := v]
    ensures |r| > 0 && (r[0].0 == k || (|es| > 0 && r[0].0 == es[0].0))
  {
    if |es| == 0 then
      [(k, v)]
    else if Less(k, es[0].0) then
      InsertFront(es, k, v);
      [(k, v)] + es
    else if k == es[0].0 then
      OverwriteFront(es, v);
      [(k, v)] + es[1..]
    else
      var tail := Assign(es[1..], k, v);
      AssignBehind(es, k, v, tail);
      [es[0]] + tail
  }

  /** `m.erase(k)`: removes the entry under `k`, if present. */
  function Erase<V>(es: Entries<V>, k: string): (r: Entries<V>)
    requires Sorted(es)
    ensures Sorted(r)
    ensures ToMap(r) == ToMap(es) - {k}
    ensures |r| > 0 ==> |es| > 0 && (r[0].0 == es[0].0 || (|es| > 1 && r[0].0 == es[1].0))
  {
    if |es| == 0 then
      []
    else if es[0].0 == k then
      Irreflexive(k);
      es[1..]
    else
      var tail := Erase(es[1..], k);
      var r := [es[0]] + tail;
      assert r[1..] == tail;
      r
  }
}
