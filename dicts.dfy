/**
 * Python's insertion-ordered `dict`, as a list of key/value pairs.
 *
 * Order matters to the model: the progress computation iterates a syllabus
 * in insertion order and its outcome depends on that order.
 */
module Dicts {
  import opened Wrappers

  type Dict<K, V> = seq<(K, V)>

  /** `list(d.keys())`. */
  function Keys<K, V>(d: Dict<K, V>): (ks: seq<K>)
    ensures |ks| == |d|
    ensures forall i :: 0 <= i < |d| ==> ks[i] == d[i].0
  {
    if d == [] then [] else [d[0].0] + Keys(d[1..])
  }

  /** What every Python dict satisfies: no key occurs twice. */
  predicate UniqueKeys<K(==), V>(d: Dict<K, V>) {
    forall i, j :: 0 <= i < j < |d| ==> d[i].0 != d[j].0
  }

  /** `d.get(k)`: the value stored under `k`, or `None`. */
  function Get<K(==), V>(d: Dict<K, V>, k: K): (r: Option<V>)
    ensures r.Some? <==> k in Keys(d)
    ensures r.Some? ==> (k, r.value) in d
  {
    if d == [] then None
    else if d[0].0 == k then Some(d[0].1)
    else Get(d[1..], k)
  }

  /** `d.get(k, default)`. */
  function GetOr<K(==), V>(d: Dict<K, V>, k: K, default: V): V {
    Get(d, k).GetOr(default)
  }

  /** `d.get(k, default)` where the key itself may be Python's `None`, which no key table here holds. */
  function GetOptOr<K(==), V>(d: Dict<K, V>, k: Option<K>, default: V): V {
    if k.None? then default else GetOr(d, k.value, default)
  }

  /** `d[k] = v`: an existing key keeps its position and takes the new value, a new key goes last. */
  function Set<K(==), V>(d: Dict<K, V>, k: K, v: V): (r: Dict<K, V>)
    ensures Keys(r) == if k in Keys(d) then Keys(d) else Keys(d) + [k]
    ensures forall p :: p in r ==> p == (k, v) || p in d
  {
    if d == [] then [(k, v)]
    else if d[0].0 == k then [(k, v)] + d[1..]
    else
      var r := [d[0]] + Set(d[1..], k, v);
      assert Keys(r) == [d[0].0] + Keys(Set(d[1..], k, v));
      r
  }

  /** After `d[k] = v`, `k` holds `v` and every other key holds what it held before. */
  lemma {:induction false} SetGet<K, V>(d: Dict<K, V>, k: K, v: V, k': K)
    ensures Get(Set(d, k, v), k') == if k' == k then Some(v) else Get(d, k')
  {
    if d != [] && d[0].0 != k {
      SetGet(d[1..], k, v, k');
      assert Set(d, k, v)[1..] == Set(d[1..], k, v);
    }
  }

  /** `d[k] = v` keeps the keys of a dict unique. */
  lemma SetUnique<K, V>(d: Dict<K, V>, k: K, v: V)
    requires UniqueKeys(d)
    ensures UniqueKeys(Set(d, k, v))
  {
    var r := Set(d, k, v);
    forall i, j | 0 <= i < j < |r| ensures r[i].0 != r[j].0 {
      assert Keys(r)[i] == r[i].0 && Keys(r)[j] == r[j].0;
      if k !in Keys(d) && j == |d| {
        assert Keys(r)[i] == Keys(d)[i];
      } else {
        assert Keys(r)[i] == Keys(d)[i] && Keys(r)[j] == Keys(d)[j];
      }
    }
  }

  /** A dict literal `{k0: v0, k1: v1, ...}`: the pairs are assigned one after the other. */
  function FromPairs<K(==), V>(ps: seq<(K, V)>): (r: Dict<K, V>)
    ensures UniqueKeys(r)
  {
    if ps == [] then []
    else
      var init := FromPairs(ps[..|ps| - 1]);
      SetUnique(init, ps[|ps| - 1].0, ps[|ps| - 1].1);
      Set(init, ps[|ps| - 1].0, ps[|ps| - 1].1)
  }

  /** The keys of a sequence of pairs, each kept at its first occurrence. */
  function FirstOccurrences<K(==)>(ks: seq<K>): seq<K> {
    if ks == [] then []
    else
      var seen := FirstOccurrences(ks[..|ks| - 1]);
      if ks[|ks| - 1] in seen then seen else seen + [ks[|ks| - 1]]
  }

  /** `a` is a sub-map of `b`: every entry of `a` is an entry of `b`. */
  predicate SubDict<K(==), V(==)>(a: Dict<K, V>, b: Dict<K, V>) {
    forall i :: 0 <= i < |a| ==> Get(b, a[i].0) == Some(a[i].1)
  }

  /** In a dict with unique keys, looking up the key at position `i` finds the value at position `i`. */
  lemma {:induction false} GetAt<K, V>(d: Dict<K, V>, i: nat)
    requires UniqueKeys(d) && i < |d|
    ensures Get(d, d[i].0) == Some(d[i].1)
  {
    if i > 0 {
      assert UniqueKeys(d[1..]) by {
        forall a, b | 0 <= a < b < |d[1..]| ensures d[1..][a].0 != d[1..][b].0 {
          assert d[1..][a] == d[a + 1] && d[1..][b] == d[b + 1];
        }
      }
      assert d[0].0 != d[i].0;
      GetAt(d[1..], i - 1);
      assert d[1..][i - 1] == d[i];
    }
  }

  /** A dict literal with a repeated key keeps the key at its first position. */
  lemma {:induction false} FromPairsKeyOrder<K, V>(ps: seq<(K, V)>)
    ensures Keys(FromPairs(ps)) == FirstOccurrences(Keys(ps))
  {
    if ps != [] {
      var init := ps[..|ps| - 1];
      FromPairsKeyOrder(init);
      assert Keys(ps)[..|ps| - 1] == Keys(init);
    }
  }

  /** Building a dict literal one more pair at a time. */
  lemma FromPairsSnoc<K, V>(ps: seq<(K, V)>, i: nat)
    requires i < |ps|
    ensures FromPairs(ps[..i + 1]) == Set(FromPairs(ps[..i]), ps[i].0, ps[i].1)
  {
    assert ps[..i + 1][..i] == ps[..i];
  }

  /** Without repeated keys, every key is a first occurrence. */
  lemma {:induction false} FirstOccurrencesUnique<K>(ks: seq<K>)
    requires forall i, j :: 0 <= i < j < |ks| ==> ks[i] != ks[j]
    ensures FirstOccurrences(ks) == ks
  {
    if ks != [] {
      var init := ks[..|ks| - 1];
      FirstOccurrencesUnique(init);
      assert ks[|ks| - 1] !in init;
      assert init + [ks[|ks| - 1]] == ks;
    }
  }

  /** A dict literal with a repeated key holds the value of the last pair with that key. */
  lemma {:induction false} FromPairsLastWins<K, V>(ps: seq<(K, V)>, i: nat)
    requires i < |ps|
    requires forall j :: i < j < |ps| ==> ps[j].0 != ps[i].0
    ensures Get(FromPairs(ps), ps[i].0) == Some(ps[i].1)
  {
    var init := ps[..|ps| - 1];
    SetGet(FromPairs(init), ps[|ps| - 1].0, ps[|ps| - 1].1, ps[i].0);
    if i < |ps| - 1 {
      FromPairsLastWins(init, i);
    }
  }
}
