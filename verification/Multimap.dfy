/** Maps from keys to lists of values that keep only the first few keys and the first few
    values of each key. */
module Multimap {

  datatype Pair<K, V> = Pair(key: K, value: V)

  function First<T>(s: seq<T>, n: nat): seq<T> {
    if |s| <= n then s else s[..n]
  }

  lemma FirstOf<T>(head: seq<T>, tail: seq<T>, n: nat)
    requires |head| == n || (|head| <= n && tail == [])
    ensures First(head + tail, n) == head
  {}

  lemma Regroup<T>(a: seq<T>, x: T, b: seq<T>)
    ensures a + ([x] + b) == (a + [x]) + b
  {}

  /** The keys in the order of their first occurrence. */
  function Keys<K(==), V>(pairs: seq<Pair<K, V>>): seq<K> {
    if pairs == [] then [] else
    var before, k := Keys(pairs[..|pairs| - 1]), pairs[|pairs| - 1].key;
    if k in before then before else before + [k]
  }

  /** The values of a key in order. */
  function ValuesOf<K(==), V>(pairs: seq<Pair<K, V>>, key: K): seq<V> {
    if pairs == [] then [] else
    var before, p := ValuesOf(pairs[..|pairs| - 1], key), pairs[|pairs| - 1];
    if p.key == key then before + [p.value] else before
  }

  /** The first `maxKeys` keys, each with its first `maxValues` values. */
  function Kept<K, V>(pairs: seq<Pair<K, V>>, maxKeys: nat, maxValues: nat): map<K, seq<V>> {
    map k | k in First(Keys(pairs), maxKeys) :: First(ValuesOf(pairs, k), maxValues)
  }

  /** Adding one pair under the two limits. */
  function Add<K, V>(params: map<K, seq<V>>, p: Pair<K, V>, maxKeys: nat, maxValues: nat): map<K, seq<V>> {
    if p.key in params then
      if |params[p.key]| >= maxValues then params else params[p.key := params[p.key] + [p.value]]
    else if |params| >= maxKeys then params
    else params[p.key := [p.value]]
  }

  lemma {:induction false} KeysAreKeys<K, V>(pairs: seq<Pair<K, V>>, k: K)
    ensures k in Keys(pairs) <==> ValuesOf(pairs, k) != []
  {
    if pairs != [] {
      KeysAreKeys(pairs[..|pairs| - 1], k);
    }
  }

  ghost predicate Distinct<K(!new)>(s: seq<K>) {
    forall i, j | 0 <= i < j < |s| :: s[i] != s[j]
  }

  lemma {:induction false} KeysAreDistinct<K(!new), V>(pairs: seq<Pair<K, V>>)
    ensures Distinct(Keys(pairs))
  {
    if pairs != [] {
      KeysAreDistinct(pairs[..|pairs| - 1]);
    }
  }

  lemma {:induction false} DistinctSize<K(!new)>(s: seq<K>)
    requires Distinct(s)
    ensures |set k | k in s| == |s|
  {
    if s != [] {
      var front, last := s[..|s| - 1], s[|s| - 1];
      DistinctSize(front);
      assert (set k | k in s) == (set k | k in front) + {last};
    }
  }

  lemma KeptSize<K(!new), V>(pairs: seq<Pair<K, V>>, maxKeys: nat, maxValues: nat)
    ensures |Kept(pairs, maxKeys, maxValues)| == |First(Keys(pairs), maxKeys)|
  {
    KeysAreDistinct(pairs);
    var keys := First(Keys(pairs), maxKeys);
    DistinctSize(keys);
    assert Kept(pairs, maxKeys, maxValues).Keys == set k | k in keys;
  }

  lemma AppendPair<K(!new), V>(pairs: seq<Pair<K, V>>, p: Pair<K, V>)
    ensures Keys(pairs + [p]) == if p.key in Keys(pairs) then Keys(pairs) else Keys(pairs) + [p.key]
    ensures ValuesOf(pairs + [p], p.key) == ValuesOf(pairs, p.key) + [p.value]
    ensures forall k | k != p.key :: ValuesOf(pairs + [p], k) == ValuesOf(pairs, k)
  {
    assert (pairs + [p])[..|pairs|] == pairs;
  }

  lemma FirstAppend<T>(s: seq<T>, x: T, n: nat)
    ensures First(s + [x], n) == if |s| < n then s + [x] else First(s, n)
  {}

  /** A pair that does not bring in a new key. */
  lemma AddToKept<K(!new), V>(pairs: seq<Pair<K, V>>, p: Pair<K, V>, maxKeys: nat, maxValues: nat)
    requires maxValues > 0 && (p.key in Keys(pairs) || |Keys(pairs)| >= maxKeys)
    ensures Add(Kept(pairs, maxKeys, maxValues), p, maxKeys, maxValues) == Kept(pairs + [p], maxKeys, maxValues)
  {
    hide Keys, ValuesOf, First;
    AppendPair(pairs, p);
    KeptSize(pairs, maxKeys, maxValues);
    FirstSize(Keys(pairs), maxKeys);
    FirstSize(ValuesOf(pairs, p.key), maxValues);
    FirstAppend(Keys(pairs), p.key, maxKeys);
    FirstAppend(ValuesOf(pairs, p.key), p.value, maxValues);
  }

  lemma FirstSize<T>(s: seq<T>, n: nat)
    ensures |First(s, n)| == if |s| <= n then |s| else n
    ensures |s| <= n ==> First(s, n) == s
    ensures forall x | x in First(s, n) :: x in s
  {}

  lemma AddNew<K(!new), V>(pairs: seq<Pair<K, V>>, p: Pair<K, V>, maxKeys: nat, maxValues: nat)
    requires maxValues > 0 && p.key !in Keys(pairs) && |Keys(pairs)| < maxKeys
    ensures Add(Kept(pairs, maxKeys, maxValues), p, maxKeys, maxValues) == Kept(pairs + [p], maxKeys, maxValues)
  {
    hide Keys, ValuesOf, First;
    AppendPair(pairs, p);
    KeysAreKeys(pairs, p.key);
    KeptSize(pairs, maxKeys, maxValues);
    FirstSize(Keys(pairs), maxKeys);
    FirstAppend(Keys(pairs), p.key, maxKeys);
    FirstSize([p.value], maxValues);
    assert ValuesOf(pairs + [p], p.key) == [p.value];
  }

  /** Adding pair by pair keeps exactly the first keys and the first values. */
  lemma AddKeeps<K(!new), V>(pairs: seq<Pair<K, V>>, p: Pair<K, V>, maxKeys: nat, maxValues: nat)
    requires maxValues > 0
    ensures Add(Kept(pairs, maxKeys, maxValues), p, maxKeys, maxValues) == Kept(pairs + [p], maxKeys, maxValues)
  {
    hide Keys, Kept, Add;
    if p.key in Keys(pairs) || |Keys(pairs)| >= maxKeys {
      AddToKept(pairs, p, maxKeys, maxValues);
    } else {
      AddNew(pairs, p, maxKeys, maxValues);
    }
  }
}
