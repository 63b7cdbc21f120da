/**
 A Python `dict` as an insertion-ordered association list: iteration follows the
 order in which keys were first inserted, and assigning to an existing key replaces
 its value without moving it.
 */
module OrderedDict {
  import opened Wrappers

  type Dict<K, V> = seq<(K, V)>

  /** The keys in iteration order. */
  function Keys<K, V>(d: Dict<K, V>): seq<K>
  {
    seq(|d|, i requires 0 <= i < |d| => d[i].0)
  }

  ghost predicate Distinct<T>(s: seq<T>)
  {
    forall i, j :: 0 <= i < j < |s| ==> s[i] != s[j]
  }

  /** `d.get(k)`. */
  function Get<K(==), V>(d: Dict<K, V>, k: K): Option<V>
  {
    if |d| == 0 then None
    else if d[|d| - 1].0 == k then Some(d[|d| - 1].1)
    else Get(d[..|d| - 1], k)
  }

  /** `d.get(k)` finds a value exactly when `k` is a key, and the value is one stored under `k`. */
  lemma {:induction false} GetSpec<K, V>(d: Dict<K, V>, k: K)
    ensures Get(d, k).Some? <==> k in Keys(d)
    ensures Get(d, k).Some? ==> (k, Get(d, k).value) in d
    decreases |d|
  {
    if |d| > 0 {
      var p := d[..|d| - 1];
      assert Keys(d) == Keys(p) + [d[|d| - 1].0];
      GetSpec(p, k);
    }
  }

  /** Replaces the value of every entry with key `k`, keeping positions; no key is added. */
  function SetExisting<K(==), V>(d: Dict<K, V>, k: K, v: V): Dict<K, V>
  {
    seq(|d|, i requires 0 <= i < |d| => if d[i].0 == k then (k, v) else d[i])
  }

  /** Replacing existing values keeps the keys; `k` then maps to `v` if it was a key, and nothing else changes. */
  lemma {:induction false} GetSetExisting<K, V>(d: Dict<K, V>, k: K, v: V, k': K)
    ensures Keys(SetExisting(d, k, v)) == Keys(d)
    ensures Get(SetExisting(d, k, v), k') == if k' == k && k in Keys(d) then Some(v) else Get(d, k')
    decreases |d|
  {
    if |d| > 0 {
      var p := d[..|d| - 1];
      assert SetExisting(d, k, v)[..|d| - 1] == SetExisting(p, k, v);
      assert Keys(d) == Keys(p) + [d[|d| - 1].0];
      GetSetExisting(p, k, v, k');
    }
  }

  /** `d[k] = v`. */
  function Insert<K(==), V>(d: Dict<K, V>, k: K, v: V): Dict<K, V>
  {
    if k in Keys(d) then SetExisting(d, k, v) else d + [(k, v)]
  }

  /**
   After `d[k] = v`, `k` maps to `v` and every other key keeps its value; an existing
   key keeps its position, a new key goes last, and distinct keys stay distinct.
   */
  lemma InsertSpec<K, V>(d: Dict<K, V>, k: K, v: V)
    ensures Get(Insert(d, k, v), k) == Some(v)
    ensures forall k' :: k' != k ==> Get(Insert(d, k, v), k') == Get(d, k')
    ensures Keys(Insert(d, k, v)) == if k in Keys(d) then Keys(d) else Keys(d) + [k]
    ensures Distinct(Keys(d)) ==> Distinct(Keys(Insert(d, k, v)))
  {
    if k in Keys(d) {
      forall k' | true
        ensures Get(SetExisting(d, k, v), k') == if k' == k then Some(v) else Get(d, k')
      {
        GetSetExisting(d, k, v, k');
      }
      GetSetExisting(d, k, v, k);
    } else {
      var r := d + [(k, v)];
      assert r[..|d|] == d;
      assert Keys(r) == Keys(d) + [k];
    }
  }

  /** The elements of `s` in the order of their first occurrence, each once. */
  function FirstOccurrences<T(==)>(s: seq<T>): seq<T>
  {
    if |s| == 0 then []
    else
      var p := FirstOccurrences(s[..|s| - 1]);
      if s[|s| - 1] in p then p else p + [s[|s| - 1]]
  }

  /** The first occurrences hold every element of `s` and no element twice. */
  lemma {:induction false} FirstOccurrencesSpec<T>(s: seq<T>)
    ensures forall x :: x in FirstOccurrences(s) <==> x in s
    ensures Distinct(FirstOccurrences(s))
    decreases |s|
  {
    if |s| > 0 {
      var p := s[..|s| - 1];
      FirstOccurrencesSpec(p);
      assert s == p + [s[|s| - 1]];
    }
  }
}
