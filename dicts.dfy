/**
 A Python dict (or the pair of lists `list(d.keys())`, `list(d.values())`) seen
 in iteration order: a sequence of key/value pairs in which no key occurs twice.
 */
module Dicts {
  import opened Wrappers

  /** No key occurs twice, as in every Python dict. */
  ghost predicate UniqueKeys<K, V>(entries: seq<(K, V)>) {
    forall i, j | 0 <= i < j < |entries| :: entries[i].0 != entries[j].0
  }

  /** `d[key]`: the value of the first entry with that key, or None where Python raises KeyError. */
  function Get<K(==), V>(entries: seq<(K, V)>, key: K): (r: Option<V>)
    ensures r.None? <==> forall i | 0 <= i < |entries| :: entries[i].0 != key
    ensures r.Some? ==> exists i | 0 <= i < |entries| ::
              entries[i].0 == key && entries[i].1 == r.value &&
              forall j | 0 <= j < i :: entries[j].0 != key
  {
    if entries == [] then None
    else if entries[0].0 == key then Some(entries[0].1)
    else Get(entries[1..], key)
  }

  /** In a dict, looking up the key of any entry yields that entry's value. */
  lemma GetEntry<K, V>(entries: seq<(K, V)>, i: nat)
    requires UniqueKeys(entries) && i < |entries|
    ensures Get(entries, entries[i].0) == Some(entries[i].1)
  {
  }

  /** `list(d.keys())`. */
  function Keys<K, V>(entries: seq<(K, V)>): seq<K>
  {
    seq(|entries|, i requires 0 <= i < |entries| => entries[i].0)
  }

  /** `list(d.values())`. */
  function Values<K, V>(entries: seq<(K, V)>): seq<V>
  {
    seq(|entries|, i requires 0 <= i < |entries| => entries[i].1)
  }

  /**
   `list(d.keys())` and `list(d.values())` line up: in a dict, the key at any
   position of the one list looks up the value at the same position of the other.
   */
  lemma KeyValueAtSamePosition<K, V>(entries: seq<(K, V)>, i: nat)
    requires UniqueKeys(entries) && i < |entries|
    ensures Get(entries, Keys(entries)[i]) == Some(Values(entries)[i])
  {
    GetEntry(entries, i);
  }

  /** `xs.index(x)`: the position of the first occurrence of `x`. */
  function IndexOf<T(==)>(xs: seq<T>, x: T): (i: nat)
    requires x in xs
    ensures i < |xs| && xs[i] == x
    ensures forall j | 0 <= j < i :: xs[j] != x
  {
    if xs[0] == x then 0 else 1 + IndexOf(xs[1..], x)
  }

  /** The slice `xs[n:]`, which is empty when `xs` has at most `n` elements. */
  function Drop<T>(xs: seq<T>, n: nat): (ys: seq<T>)
    ensures |ys| == if n <= |xs| then |xs| - n else 0
    ensures forall j | 0 <= j < |ys| :: ys[j] == xs[n + j]
  {
    if n <= |xs| then xs[n..] else []
  }
}
