/**
 * A PHP array used as a dictionary: entries kept in insertion order, one per key.
 * Writing `$a[$k] = $v` replaces the value in place when `$k` is already a key
 * (the entry keeps its position) and appends a new entry otherwise.
 */
module PhpArray {
  import opened Wrappers

  /** The keys of an entry list, in order. */
  function KeysOf<K, V>(a: seq<(K, V)>): (ks: seq<K>)
    ensures |ks| == |a|
    decreases |a|
  {
    if |a| == 0 then [] else [a[0].0] + KeysOf(a[1..])
  }

  predicate DistinctKeys<K(==), V>(a: seq<(K, V)>) {
    forall i, j :: 0 <= i < j < |a| ==> a[i].0 != a[j].0
  }

  /** Reading `$a[$k]`: the value of the first entry with key `k`. */
  function Lookup<K(==), V>(a: seq<(K, V)>, k: K): Option<V>
    decreases |a|
  {
    if |a| == 0 then None
    else if a[0].0 == k then Some(a[0].1)
    else Lookup(a[1..], k)
  }

  /** Writing `$a[$k] = $v`: the array then holds the written pair, and every other entry was there before. */
  function Put<K(==), V>(a: seq<(K, V)>, k: K, v: V): (r: seq<(K, V)>)
    ensures (k, v) in r
    ensures forall p :: p in r ==> p == (k, v) || p in a
    decreases |a|
  {
    if |a| == 0 then [(k, v)]
    else if a[0].0 == k then [(k, v)] + a[1..]
    else [a[0]] + Put(a[1..], k, v)
  }

  /** The array after writing every pair of `ps` into `a`, first to last: each entry is an old one or a written one. */
  function PutAll<K(==), V>(a: seq<(K, V)>, ps: seq<(K, V)>): (r: seq<(K, V)>)
    ensures forall p :: p in r ==> p in a || p in ps
    decreases |ps|
  {
    if |ps| == 0 then a
    else
      var last := ps[|ps| - 1];
      Put(PutAll(a, ps[..|ps| - 1]), last.0, last.1)
  }

  /** The value of the last pair of `ps` with key `k`, if any. */
  function LastValue<K(==), V>(ps: seq<(K, V)>, k: K): Option<V>
    decreases |ps|
  {
    if |ps| == 0 then None
    else if ps[|ps| - 1].0 == k then Some(ps[|ps| - 1].1)
    else LastValue(ps[..|ps| - 1], k)
  }

  /** The elements of `ks` in order of first occurrence, each once. */
  function Dedup<K(==)>(ks: seq<K>): seq<K>
    decreases |ks|
  {
    if |ks| == 0 then []
    else
      var front := ks[..|ks| - 1];
      if ks[|ks| - 1] in front then Dedup(front) else Dedup(front) + [ks[|ks| - 1]]
  }

  lemma {:induction false} KeysOfAppend<K, V>(a: seq<(K, V)>, p: (K, V))
    ensures KeysOf(a + [p]) == KeysOf(a) + [p.0]
    decreases |a|
  {
    if |a| > 0 {
      assert (a + [p])[1..] == a[1..] + [p];
      KeysOfAppend(a[1..], p);
    }
  }

  lemma {:induction false} KeysOfIndex<K, V>(a: seq<(K, V)>, i: nat)
    requires i < |a|
    ensures KeysOf(a)[i] == a[i].0
    decreases |a|
  {
    if i > 0 {
      KeysOfIndex(a[1..], i - 1);
    }
  }

  /** A key is present exactly when some entry carries it. */
  lemma KeysOfHas<K, V>(a: seq<(K, V)>, k: K)
    ensures k in KeysOf(a) <==> exists i :: 0 <= i < |a| && a[i].0 == k
  {
    forall i | 0 <= i < |a| {
      KeysOfIndex(a, i);
    }
  }

  /** Reading a key gives a value exactly when the key is present. */
  lemma {:induction false} LookupPresent<K, V>(a: seq<(K, V)>, k: K)
    ensures Lookup(a, k).Some? <==> k in KeysOf(a)
    decreases |a|
  {
    if |a| > 0 && a[0].0 != k {
      LookupPresent(a[1..], k);
    }
  }

  /** After `$a[$k] = $v`, key `k` reads `v` and every other key reads what it read before. */
  lemma {:induction false} PutLookup<K, V>(a: seq<(K, V)>, k: K, v: V, k': K)
    ensures Lookup(Put(a, k, v), k') == if k' == k then Some(v) else Lookup(a, k')
    decreases |a|
  {
    if |a| > 0 && a[0].0 != k {
      assert ([a[0]] + Put(a[1..], k, v))[1..] == Put(a[1..], k, v);
      PutLookup(a[1..], k, v, k');
    } else if |a| > 0 {
      assert ([(k, v)] + a[1..])[1..] == a[1..];
    }
  }

  /** `$a[$k] = $v` keeps the key order; a new key goes to the end. */
  lemma {:induction false} PutKeys<K, V>(a: seq<(K, V)>, k: K, v: V)
    ensures KeysOf(Put(a, k, v)) == if k in KeysOf(a) then KeysOf(a) else KeysOf(a) + [k]
    ensures k !in KeysOf(a) ==> Put(a, k, v) == a + [(k, v)]
    decreases |a|
  {
    if |a| > 0 {
      assert KeysOf(a) == [a[0].0] + KeysOf(a[1..]);
      if a[0].0 == k {
        assert ([(k, v)] + a[1..])[1..] == a[1..];
      } else {
        assert ([a[0]] + Put(a[1..], k, v))[1..] == Put(a[1..], k, v);
        PutKeys(a[1..], k, v);
        assert a == [a[0]] + a[1..];
      }
    }
  }

  /** `$a[$k] = $v` never creates a second entry for a key. */
  lemma PutDistinct<K, V>(a: seq<(K, V)>, k: K, v: V)
    requires DistinctKeys(a)
    ensures DistinctKeys(Put(a, k, v))
  {
    var r := Put(a, k, v);
    PutKeys(a, k, v);
    forall i, j | 0 <= i < j < |r|
      ensures r[i].0 != r[j].0
    {
      KeysOfIndex(r, i);
      KeysOfIndex(r, j);
      if i < |a| {
        KeysOfIndex(a, i);
      }
      if j < |a| {
        KeysOfIndex(a, j);
      } else {
        KeysOfHas(a, k);
      }
    }
  }

  /** Writing any list of pairs into an empty array leaves one entry per key. */
  lemma {:induction false} PutAllDistinctKeys<K, V>(ps: seq<(K, V)>)
    ensures DistinctKeys(PutAll([], ps))
    decreases |ps|
  {
    if |ps| > 0 {
      PutAllDistinctKeys(ps[..|ps| - 1]);
      PutDistinct(PutAll([], ps[..|ps| - 1]), ps[|ps| - 1].0, ps[|ps| - 1].1);
    }
  }

  /** After writing a list of pairs into an empty array, each key holds the last value written for it. */
  lemma {:induction false} PutAllLookup<K, V>(ps: seq<(K, V)>, k: K)
    ensures Lookup(PutAll([], ps), k) == LastValue(ps, k)
    decreases |ps|
  {
    if |ps| > 0 {
      PutAllLookup(ps[..|ps| - 1], k);
      PutLookup(PutAll([], ps[..|ps| - 1]), ps[|ps| - 1].0, ps[|ps| - 1].1, k);
    }
  }

  /** After writing a list of pairs into an empty array, the keys stand in order of first write. */
  lemma {:induction false} PutAllKeys<K, V>(ps: seq<(K, V)>)
    ensures KeysOf(PutAll([], ps)) == Dedup(KeysOf(ps))
    decreases |ps|
  {
    if |ps| > 0 {
      var front := ps[..|ps| - 1];
      var last := ps[|ps| - 1];
      PutAllKeys(front);
      assert front + [last] == ps;
      KeysOfAppend(front, last);
      assert KeysOf(ps)[..|ps| - 1] == KeysOf(front);
      PutKeys(PutAll([], front), last.0, last.1);
      DedupHas(KeysOf(front), last.0);
    }
  }

  /** An element survives de-duplication exactly when it was there. */
  lemma {:induction false} DedupHas<K>(ks: seq<K>, k: K)
    ensures k in Dedup(ks) <==> k in ks
    decreases |ks|
  {
    if |ks| > 0 {
      var front := ks[..|ks| - 1];
      DedupHas(front, k);
      assert ks == front + [ks[|ks| - 1]];
    }
  }

  /** Writing pairs with pairwise distinct keys into an empty array gives exactly those pairs, in order. */
  lemma {:induction false} PutAllDistinct<K, V>(ps: seq<(K, V)>)
    requires DistinctKeys(ps)
    ensures PutAll([], ps) == ps
    decreases |ps|
  {
    if |ps| > 0 {
      var front := ps[..|ps| - 1];
      var last := ps[|ps| - 1];
      PutAllDistinct(front);
      KeysOfHas(front, last.0);
      PutKeys(front, last.0, last.1);
      assert front + [last] == ps;
    }
  }
}
