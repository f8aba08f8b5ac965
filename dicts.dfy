/**
 * The dictionaries the two collections keep their records in. A Python dict
 * remembers the order in which its keys were inserted (a key deleted and
 * added again goes last), and the bulk saver writes records in that order,
 * so the model keeps that order next to the map.
 */
module Dicts {

  /** No key occurs twice. */
  ghost predicate Distinct(s: seq<string>) {
    forall i, j :: 0 <= i < j < |s| ==> s[i] != s[j]
  }

  /** The keys of s other than k, in their original order. */
  function Without(s: seq<string>, k: string): (r: seq<string>)
    ensures forall x :: x in r <==> x in s && x != k
    ensures Distinct(s) ==> Distinct(r)
    ensures |r| <= |s|
  {
    if s == [] then []
    else if s[0] == k then Without(s[1..], k)
    else
      var rest := Without(s[1..], k);
      assert Distinct(s) ==> Distinct(s[1..]) && s[0] !in s[1..];
      [s[0]] + rest
  }

  /** Cutting out a key that does not occur changes nothing. */
  lemma {:induction false} WithoutAbsent(s: seq<string>, k: string)
    requires k !in s
    ensures Without(s, k) == s
  {
    if s != [] {
      WithoutAbsent(s[1..], k);
      assert [s[0]] + s[1..] == s;
    }
  }

  /**
   * From distinct keys, Without cuts out the one occurrence of k, at p, and
   * keeps the keys before and after it in place.
   */
  lemma {:induction false} WithoutAt(s: seq<string>, k: string, p: int)
    requires Distinct(s) && 0 <= p < |s| && s[p] == k
    ensures Without(s, k) == s[..p] + s[p + 1..]
  {
    var tail := s[1..];
    assert Distinct(tail);
    if p == 0 {
      assert k !in tail;
      WithoutAbsent(tail, k);
    } else {
      assert s[0] != k;
      WithoutAt(tail, k, p - 1);
      assert s[..p] == [s[0]] + tail[..p - 1];
      assert s[p + 1..] == tail[p..];
    }
  }

  /** WithoutAt for whichever position k occupies. */
  lemma WithoutAtAny(s: seq<string>, k: string)
    ensures forall p :: Distinct(s) && 0 <= p < |s| && s[p] == k ==> Without(s, k) == s[..p] + s[p + 1..]
  {
    forall p | Distinct(s) && 0 <= p < |s| && s[p] == k
      ensures Without(s, k) == s[..p] + s[p + 1..]
    {
      WithoutAt(s, k, p);
    }
  }

  /** A dict with string keys: its entries, and its keys in insertion order. */
  datatype Dict<V> = Dict(keys: seq<string>, entries: map<string, V>) {

    /** The order lists every key of the map exactly once. */
    ghost predicate Valid() {
      && Distinct(keys)
      && forall k :: k in entries <==> k in keys
    }

    /** `d[k] = v`: a new key goes last in the order, a present key keeps its place. */
    function Put(k: string, v: V): (d: Dict<V>)
      ensures d.entries == entries[k := v]
      ensures k in entries ==> d.keys == keys
      ensures k !in entries ==> d.keys == keys + [k]
      ensures Valid() ==> d.Valid()
    {
      if k in entries then Dict(keys, entries[k := v]) else Dict(keys + [k], entries[k := v])
    }

    /** Store v under k unless k is already present, in which case nothing changes. */
    function Add(k: string, v: V): (d: Dict<V>)
      ensures k in entries ==> d == this
      ensures k !in entries ==> d.entries == entries[k := v] && d.keys == keys + [k]
      ensures Valid() ==> d.Valid()
    {
      if k in entries then this else Put(k, v)
    }

    /** `del d[k]`: the other keys keep their values and their relative order. */
    function Remove(k: string): (d: Dict<V>)
      requires k in entries
      ensures d.entries == entries - {k}
      ensures d.keys == Without(keys, k)
      ensures Valid() ==> d.Valid() && k !in d.keys
      ensures forall p :: Valid() && 0 <= p < |keys| && keys[p] == k ==> d.keys == keys[..p] + keys[p + 1..]
    {
      WithoutAtAny(keys, k);
      Dict(Without(keys, k), entries - {k})
    }
  }

  /** `{}`. */
  function EmptyDict<V>(): (d: Dict<V>)
    ensures d.Valid() && d.entries == map[] && d.keys == []
  {
    Dict([], map[])
  }
}
