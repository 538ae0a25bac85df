/** Python dictionaries where iteration order matters: a sequence of (key, value) pairs in
    insertion order, with `Put` for `d[k] = v` (an existing key keeps its place). */
module Dicts {
  import opened Common

  type Dict<K, V> = seq<(K, V)>

  /** Python's `list(d.keys())`. */
  function Keys<K, V>(d: Dict<K, V>): (ks: seq<K>)
    ensures |ks| == |d|
    ensures forall i :: 0 <= i < |d| ==> ks[i] == d[i].0
  {
    seq(|d|, i requires 0 <= i < |d| => d[i].0)
  }

  /** The values of `d`, in key order. */
  function Values<K, V>(d: Dict<K, V>): (vs: seq<V>)
    ensures |vs| == |d|
    ensures forall i :: 0 <= i < |d| ==> vs[i] == d[i].1
  {
    seq(|d|, i requires 0 <= i < |d| => d[i].1)
  }

  /** No key occurs twice: what every Python dict satisfies. */
  predicate DistinctKeys<K(==), V>(d: Dict<K, V>)
  {
    forall i, j :: 0 <= i < j < |d| ==> d[i].0 != d[j].0
  }

  /** Position of `k` among the keys. */
  function IndexOf<K(==), V>(d: Dict<K, V>, k: K): (r: Option<nat>)
    ensures r.None? <==> k !in Keys(d)
    ensures r.Some? ==> r.value < |d| && d[r.value].0 == k
    ensures r.Some? ==> forall j :: 0 <= j < r.value ==> d[j].0 != k
  {
    if d == [] then None
    else if d[0].0 == k then Some(0)
    else match IndexOf(d[1..], k)
      case None => None
      case Some(i) => Some(i + 1)
  }

  /** Two dicts with the same keys in the same order find a key at the same position. */
  lemma {:induction false} IndexOfSameKeys<K, V, W>(a: Dict<K, V>, b: Dict<K, W>, k: K)
    requires Keys(a) == Keys(b)
    ensures IndexOf(a, k) == IndexOf(b, k)
  {
    if a != [] {
      assert a[0].0 == Keys(a)[0] == Keys(b)[0] == b[0].0;
      assert Keys(a[1..]) == Keys(a)[1..] == Keys(b)[1..] == Keys(b[1..]);
      IndexOfSameKeys(a[1..], b[1..], k);
    }
  }

  /** Python's `d.get(k)`; `None` where `d[k]` raises KeyError. */
  function Get<K(==), V>(d: Dict<K, V>, k: K): (r: Option<V>)
    ensures r.Some? <==> k in Keys(d)
  {
    match IndexOf(d, k)
    case None => None
    case Some(i) => Some(d[i].1)
  }

  /** Python's `d[k] = v`. */
  function Put<K(==), V>(d: Dict<K, V>, k: K, v: V): Dict<K, V>
  {
    match IndexOf(d, k)
    case None => d + [(k, v)]
    case Some(i) => d[i := (k, v)]
  }

  /** Python's `dict(ps)` or `{k: v for (k, v) in ps}`: later pairs overwrite earlier ones. */
  function FromPairs<K(==), V>(ps: seq<(K, V)>): Dict<K, V>
  {
    if ps == [] then [] else Put(FromPairs(ps[..|ps| - 1]), ps[|ps| - 1].0, ps[|ps| - 1].1)
  }

  /** Reference meaning of a dict built from pairs: the value given LAST for the key. */
  function LastValue<K(==), V>(ps: seq<(K, V)>, k: K): Option<V>
  {
    if ps == [] then None
    else if ps[|ps| - 1].0 == k then Some(ps[|ps| - 1].1)
    else LastValue(ps[..|ps| - 1], k)
  }

  /** The value found for a key is the value of one of the pairs given for it. */
  lemma {:induction false} LastValueSource<K, V>(ps: seq<(K, V)>, k: K)
    ensures LastValue(ps, k).Some? ==> exists i :: 0 <= i < |ps| && ps[i] == (k, LastValue(ps, k).value)
  {
    if ps != [] && ps[|ps| - 1].0 != k {
      var init := ps[..|ps| - 1];
      LastValueSource(init, k);
      if LastValue(init, k).Some? {
        var i :| 0 <= i < |init| && init[i] == (k, LastValue(init, k).value);
        assert ps[i] == init[i];
      }
    }
  }

  /** The pairs with key and value swapped. */
  function Swap<K, V>(d: Dict<K, V>): (r: Dict<V, K>)
    ensures |r| == |d|
    ensures forall i :: 0 <= i < |d| ==> r[i] == (d[i].1, d[i].0)
  {
    seq(|d|, i requires 0 <= i < |d| => (d[i].1, d[i].0))
  }

  /** Python's `{value: key for key, value in d.items()}`. */
  function Invert<K(==), V(==)>(d: Dict<K, V>): Dict<V, K>
  {
    FromPairs(Swap(d))
  }

  lemma PutKeys<K, V>(d: Dict<K, V>, k: K, v: V)
    ensures Keys(Put(d, k, v)) == if k in Keys(d) then Keys(d) else Keys(d) + [k]
  {
    var r := Put(d, k, v);
    if k in Keys(d) {
      assert Keys(r) == Keys(d);
    } else {
      assert Keys(r) == Keys(d) + [k];
    }
  }

  lemma PutGet<K, V>(d: Dict<K, V>, k: K, v: V, k': K)
    requires DistinctKeys(d)
    ensures DistinctKeys(Put(d, k, v))
    ensures Get(Put(d, k, v), k') == if k' == k then Some(v) else Get(d, k')
  {
    var r := Put(d, k, v);
    PutKeys(d, k, v);
    match IndexOf(d, k)
    case None =>
      assert r == d + [(k, v)];
      assert DistinctKeys(r) by {
        forall j | 0 <= j < |d| ensures d[j].0 != k {
          assert Keys(d)[j] == d[j].0;
        }
      }
      if k' == k {
        IndexOfAt(r, k, |d|);
      } else if k' in Keys(d) {
        var j := IndexOf(d, k').value;
        IndexOfAt(r, k', j);
      }
    case Some(i) =>
      assert r == d[i := (k, v)];
      assert DistinctKeys(r) by {
        assert Keys(r) == Keys(d);
      }
      if k' == k {
        IndexOfAt(r, k, i);
      } else if k' in Keys(d) {
        var j := IndexOf(d, k').value;
        IndexOfAt(r, k', j);
      }
  }

  /** The first position holding a key is where `IndexOf` finds it. */
  lemma {:induction false} IndexOfAt<K, V>(d: Dict<K, V>, k: K, i: nat)
    requires i < |d| && d[i].0 == k && forall j :: 0 <= j < i ==> d[j].0 != k
    ensures IndexOf(d, k) == Some(i)
  {
    if i > 0 {
      IndexOfAt(d[1..], k, i - 1);
    }
  }

  /** A dict built from pairs has distinct keys, holds exactly the keys given, and maps each to
      the value given last for it. */
  lemma {:induction false} FromPairsMeaning<K, V>(ps: seq<(K, V)>, k: K)
    ensures DistinctKeys(FromPairs(ps))
    ensures k in Keys(FromPairs(ps)) <==> exists i :: 0 <= i < |ps| && ps[i].0 == k
    ensures Get(FromPairs(ps), k) == LastValue(ps, k)
  {
    if ps != [] {
      var init := ps[..|ps| - 1];
      var (lk, lv) := ps[|ps| - 1];
      var d := FromPairs(init);
      assert FromPairs(ps) == Put(d, lk, lv);
      FromPairsMeaning(init, k);
      PutGet(d, lk, lv, k);
      PutKeys(d, lk, lv);
      assert (exists i :: 0 <= i < |ps| && ps[i].0 == k) <==> (exists i :: 0 <= i < |init| && init[i].0 == k) || lk == k by {
        if exists i :: 0 <= i < |ps| && ps[i].0 == k {
          var i :| 0 <= i < |ps| && ps[i].0 == k;
          if i < |init| { assert init[i] == ps[i]; }
        }
        if exists i :: 0 <= i < |init| && init[i].0 == k {
          var i :| 0 <= i < |init| && init[i].0 == k;
          assert ps[i] == init[i];
        }
      }
    }
  }

  /** The reference answer for an inverted dict: the last key holding the value. */
  function LastKeyOf<K, V(==)>(d: Dict<K, V>, v: V): Option<K>
  {
    if d == [] then None
    else if d[|d| - 1].1 == v then Some(d[|d| - 1].0)
    else LastKeyOf(d[..|d| - 1], v)
  }

  /** The inverted dict maps each value of the original to the last key that held it, and has
      no other keys. */
  lemma {:induction false} InvertMeaning<K, V>(d: Dict<K, V>, v: V)
    ensures DistinctKeys(Invert(d))
    ensures v in Keys(Invert(d)) <==> v in Values(d)
    ensures Get(Invert(d), v) == LastKeyOf(d, v)
  {
    FromPairsMeaning(Swap(d), v);
    SwapLast(d, v);
    if v in Values(d) {
      var i :| 0 <= i < |d| && Values(d)[i] == v;
      assert Swap(d)[i].0 == v;
    }
  }

  lemma {:induction false} SwapLast<K, V>(d: Dict<K, V>, v: V)
    ensures LastValue(Swap(d), v) == LastKeyOf(d, v)
  {
    if d != [] {
      assert Swap(d)[..|d| - 1] == Swap(d[..|d| - 1]);
      SwapLast(d[..|d| - 1], v);
    }
  }
}
