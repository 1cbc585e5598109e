/**
 * A JavaScript `Map`: entries kept in insertion order with distinct keys;
 * `set` on a present key replaces the value in place.
 */
module OrderedMap {

  import opened Options

  predicate KeysDistinct<K(==), V>(m: seq<(K, V)>) {
    forall i, j :: 0 <= i < j < |m| ==> m[i].0 != m[j].0
  }

  function Keys<K, V>(m: seq<(K, V)>): (ks: seq<K>)
    ensures |ks| == |m| && forall i :: 0 <= i < |m| ==> ks[i] == m[i].0
  {
    seq(|m|, i requires 0 <= i < |m| => m[i].0)
  }

  /** `Array.from(m.values())`. */
  function Values<K, V>(m: seq<(K, V)>): (vs: seq<V>)
    ensures |vs| == |m| && forall i :: 0 <= i < |m| ==> vs[i] == m[i].1
  {
    seq(|m|, i requires 0 <= i < |m| => m[i].1)
  }

  /** Position of key `k`, if present. */
  function IndexOf<K(==,!new), V>(m: seq<(K, V)>, k: K): (r: Option<nat>)
    ensures r.None? <==> forall i :: 0 <= i < |m| ==> m[i].0 != k
    ensures r.Some? ==> r.value < |m| && m[r.value].0 == k && forall j :: 0 <= j < r.value ==> m[j].0 != k
  {
    if |m| == 0 then None
    else if m[0].0 == k then Some(0)
    else
      match IndexOf(m[1..], k)
      case None => None
      case Some(i) => Some(i + 1)
  }

  /** `m.get(k)`. */
  function Get<K(==,!new), V>(m: seq<(K, V)>, k: K): (r: Option<V>)
    ensures r.None? <==> forall i :: 0 <= i < |m| ==> m[i].0 != k
    ensures KeysDistinct(m) ==> forall i :: 0 <= i < |m| && m[i].0 == k ==> r == Some(m[i].1)
  {
    match IndexOf(m, k)
    case None => None
    case Some(i) => Some(m[i].1)
  }

  /** `m.set(k, v)`: a present key keeps its position and takes the new value,
      an absent key is appended. */
  function Set<K(==,!new), V>(m: seq<(K, V)>, k: K, v: V): (r: seq<(K, V)>)
    ensures KeysDistinct(m) ==> KeysDistinct(r)
    ensures KeysDistinct(m) ==> Get(r, k) == Some(v)
    ensures KeysDistinct(m) ==> forall k' :: k' != k ==> Get(r, k') == Get(m, k')
    ensures Get(m, k).Some? ==> Keys(r) == Keys(m)
    ensures Get(m, k).None? ==> r == m + [(k, v)]
    ensures |r| >= |m| && (KeysDistinct(m) ==> forall i :: 0 <= i < |r| ==> r[i] == if i < |m| && m[i].0 != k then m[i] else (k, v))
  {
    match IndexOf(m, k)
    case None =>
      GetAppended(m, k, v);
      m + [(k, v)]
    case Some(i) =>
      var r := m[i := (k, v)];
      assert Keys(r) == Keys(m);
      r
  }

  /** Looking up a key after appending a fresh entry. */
  lemma GetAppended<K(!new), V>(m: seq<(K, V)>, k: K, v: V)
    requires forall i :: 0 <= i < |m| ==> m[i].0 != k
    ensures KeysDistinct(m) ==> KeysDistinct(m + [(k, v)])
    ensures KeysDistinct(m) ==> Get(m + [(k, v)], k) == Some(v)
    ensures KeysDistinct(m) ==> forall k' :: k' != k ==> Get(m + [(k, v)], k') == Get(m, k')
  {
    var r := m + [(k, v)];
    assert r[|m|].0 == k;
    forall k' | KeysDistinct(m) && k' != k
      ensures Get(r, k') == Get(m, k')
    {
      match IndexOf(m, k')
      case None =>
      case Some(i) =>
        assert r[i] == m[i];
    }
  }

  /** The keys after `set`: unchanged when the key is present, one more at the end otherwise. */
  lemma KeysAfterSet<K(!new), V>(m: seq<(K, V)>, k: K, v: V)
    ensures Keys(Set(m, k, v)) == Keys(m) + if k in Keys(m) then [] else [k]
  {
    if k in Keys(m) {
      var j :| 0 <= j < |m| && Keys(m)[j] == k;
      assert m[j].0 == k;
    } else {
      assert forall i :: 0 <= i < |m| ==> m[i].0 != k by {
        forall i | 0 <= i < |m| ensures m[i].0 != k {
          assert Keys(m)[i] == m[i].0;
        }
      }
      assert Keys(m + [(k, v)]) == Keys(m) + [k];
    }
  }
}
