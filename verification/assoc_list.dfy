/**
 * Insertion-ordered dictionaries, the way Python's `dict` behaves: a key keeps the
 * position of its first insertion, and assigning to an existing key replaces the
 * value in place.
 */
module AssocList {
  import opened Wrappers
  import opened Seqs

  /** An association list; well-formed (`Valid`) when no key occurs twice. */
  type Dict<K, V> = seq<(K, V)>

  /** The keys in iteration order. */
  function Keys<K, V>(d: Dict<K, V>): (ks: seq<K>)
    ensures |ks| == |d|
    ensures forall i :: 0 <= i < |d| ==> ks[i] == d[i].0
  {
    if |d| == 0 then [] else [d[0].0] + Keys(d[1..])
  }

  ghost predicate Valid<K, V>(d: Dict<K, V>) {
    Distinct(Keys(d))
  }

  /** `d.get(k)`: the value stored under `k`, if any. */
  function Get<K(==), V>(d: Dict<K, V>, k: K): (r: Option<V>)
    ensures r.Some? <==> k in Keys(d)
    ensures r.Some? ==> (k, r.value) in d
  {
    if |d| == 0 then None
    else if d[0].0 == k then Some(d[0].1)
    else Get(d[1..], k)
  }

  /** `d[k] = v`. */
  function Put<K(==,!new), V>(d: Dict<K, V>, k: K, v: V): (r: Dict<K, V>)
    ensures Keys(r) == if k in Keys(d) then Keys(d) else Keys(d) + [k]
    ensures forall k' :: Get(r, k') == if k' == k then Some(v) else Get(d, k')
  {
    if |d| == 0 then
      ConsFacts((k, v), d);
      assert [(k, v)] + d == [(k, v)];
      [(k, v)]
    else
      var rest := d[1..];
      ConsFacts(d[0], rest);
      assert [d[0]] + rest == d;
      if d[0].0 == k then
        ConsFacts((k, v), rest);
        [(k, v)] + rest
      else
        var t := Put(rest, k, v);
        ConsFacts(d[0], t);
        assert Keys([d[0]] + t) == if k in Keys(d) then Keys(d) else Keys(d) + [k] by {
          if k !in Keys(rest) {
            assert [d[0].0] + (Keys(rest) + [k]) == [d[0].0] + Keys(rest) + [k];
          }
        }
        [d[0]] + t
  }

  /** Assignment keeps the keys distinct. */
  lemma PutValid<K(!new), V>(d: Dict<K, V>, k: K, v: V)
    requires Valid(d)
    ensures Valid(Put(d, k, v))
  {
    if k !in Keys(d) {
      DistinctSnoc(Keys(d), k);
    }
  }

  /** How `Keys` and `Get` see an entry put in front. */
  lemma ConsFacts<K, V>(e: (K, V), d: Dict<K, V>)
    ensures Keys([e] + d) == [e.0] + Keys(d)
    ensures forall k :: Get([e] + d, k) == if e.0 == k then Some(e.1) else Get(d, k)
  {
    assert ([e] + d)[1..] == d;
  }

  /**
   * The dictionary built by the loop `for x in xs: if key(x) is not None: d[key(x)] = val(x)`,
   * starting from `{}`. Every dictionary the index builder fills is of this shape.
   */
  function Gather<X, K(==,!new), V>(xs: seq<X>, key: X -> Option<K>, val: X -> V): (d: Dict<K, V>)
    ensures Valid(d)
    ensures forall k :: k in Keys(d) <==> exists i :: 0 <= i < |xs| && key(xs[i]) == Some(k)
  {
    if |xs| == 0 then []
    else
      var p := xs[..|xs| - 1];
      var d := Gather(p, key, val);
      var x := xs[|xs| - 1];
      assert forall k :: (exists i :: 0 <= i < |xs| && key(xs[i]) == Some(k)) <==>
          (exists i :: 0 <= i < |p| && key(p[i]) == Some(k)) || key(x) == Some(k) by {
        forall k
          ensures (exists i :: 0 <= i < |xs| && key(xs[i]) == Some(k)) <==>
            (exists i :: 0 <= i < |p| && key(p[i]) == Some(k)) || key(x) == Some(k)
        {
          KeyedSnoc(xs, p, key, k);
        }
      }
      match key(x)
      case None => d
      case Some(k) =>
        PutValid(d, k, val(x));
        Put(d, k, val(x))
  }

  /** Some element of `xs` carries `k` iff some element before the last does or the last one does. */
  lemma KeyedSnoc<X, K>(xs: seq<X>, p: seq<X>, key: X -> Option<K>, k: K)
    requires |xs| > 0 && p == xs[..|xs| - 1]
    ensures (exists i :: 0 <= i < |xs| && key(xs[i]) == Some(k)) <==>
      (exists i :: 0 <= i < |p| && key(p[i]) == Some(k)) || key(xs[|xs| - 1]) == Some(k)
  {
    if exists i :: 0 <= i < |xs| && key(xs[i]) == Some(k) {
      var i :| 0 <= i < |xs| && key(xs[i]) == Some(k);
      if i < |p| {
        assert p[i] == xs[i];
      }
    }
    if exists i :: 0 <= i < |p| && key(p[i]) == Some(k) {
      var i :| 0 <= i < |p| && key(p[i]) == Some(k);
      assert xs[i] == p[i];
    }
  }

  /** Last write wins: the value stored under a key comes from the last element carrying it. */
  lemma {:induction false} GatherLastWins<X, K(!new), V>(xs: seq<X>, key: X -> Option<K>, val: X -> V, i: int)
    requires 0 <= i < |xs| && key(xs[i]).Some?
    requires forall j :: i < j < |xs| ==> key(xs[j]) != key(xs[i])
    ensures Get(Gather(xs, key, val), key(xs[i]).value) == Some(val(xs[i]))
  {
    if i < |xs| - 1 {
      var p := xs[..|xs| - 1];
      assert p[i] == xs[i];
      GatherLastWins(p, key, val, i);
    }
  }

  /** Every stored value was computed from an element carrying its key. */
  lemma {:induction false} GatherGet<X, K(!new), V>(xs: seq<X>, key: X -> Option<K>, val: X -> V, k: K, v: V)
    requires Get(Gather(xs, key, val), k) == Some(v)
    ensures exists i :: 0 <= i < |xs| && key(xs[i]) == Some(k) && val(xs[i]) == v
  {
    var p := xs[..|xs| - 1];
    var x := xs[|xs| - 1];
    if key(x) == Some(k) && val(x) == v {
      assert key(xs[|xs| - 1]) == Some(k);
    } else {
      assert Get(Gather(p, key, val), k) == Some(v);
      GatherGet(p, key, val, k, v);
      var i :| 0 <= i < |p| && key(p[i]) == Some(k) && val(p[i]) == v;
      assert p[i] == xs[i];
    }
  }

  /** `i` is the position of the first element whose key is `k`. */
  ghost predicate FirstAt<X, K>(xs: seq<X>, key: X -> Option<K>, k: K, i: int) {
    0 <= i < |xs| && key(xs[i]) == Some(k) && forall j :: 0 <= j < i ==> key(xs[j]) != Some(k)
  }

  /**
   * Keys are ordered by first occurrence: a key that overwrites keeps its original
   * position, so the key order never depends on the later duplicates.
   */
  lemma {:induction false} GatherKeyOrder<X, K(!new), V>(xs: seq<X>, key: X -> Option<K>, val: X -> V, p: int, q: int, i: int, j: int)
    requires 0 <= p < q < |Keys(Gather(xs, key, val))|
    requires FirstAt(xs, key, Keys(Gather(xs, key, val))[p], i)
    requires FirstAt(xs, key, Keys(Gather(xs, key, val))[q], j)
    ensures i < j
  {
    var ks := Keys(Gather(xs, key, val));
    var pre := xs[..|xs| - 1];
    var kp := Keys(Gather(pre, key, val));
    GatherSnocKeys(xs, key, val);
    FirstInPrefix(xs, key, val, p, i);
    if q < |kp| {
      FirstInPrefix(xs, key, val, q, j);
      GatherKeyOrder(pre, key, val, p, q, i, j);
    } else {
      AppendedKeyFirstAtEnd(xs, key, val, q, j);
    }
  }

  /** A key appended by the last element first occurs at that element. */
  lemma AppendedKeyFirstAtEnd<X, K(!new), V>(xs: seq<X>, key: X -> Option<K>, val: X -> V, q: int, j: int)
    requires |xs| > 0
    requires |Keys(Gather(xs[..|xs| - 1], key, val))| <= q < |Keys(Gather(xs, key, val))|
    requires FirstAt(xs, key, Keys(Gather(xs, key, val))[q], j)
    ensures j == |xs| - 1
  {
    var pre := xs[..|xs| - 1];
    var kq := Keys(Gather(xs, key, val))[q];
    GatherSnocKeys(xs, key, val);
    assert kq !in Keys(Gather(pre, key, val));
    forall a | 0 <= a < |pre|
      ensures key(xs[a]) != Some(kq)
    {
      assert pre[a] == xs[a];
    }
  }

  /** A key already present before the last element has its first occurrence in the prefix. */
  lemma FirstInPrefix<X, K(!new), V>(xs: seq<X>, key: X -> Option<K>, val: X -> V, p: int, i: int)
    requires |xs| > 0
    requires 0 <= p < |Keys(Gather(xs[..|xs| - 1], key, val))|
    requires FirstAt(xs, key, Keys(Gather(xs[..|xs| - 1], key, val))[p], i)
    ensures FirstAt(xs[..|xs| - 1], key, Keys(Gather(xs[..|xs| - 1], key, val))[p], i)
    ensures p < |Keys(Gather(xs, key, val))| && Keys(Gather(xs, key, val))[p] == Keys(Gather(xs[..|xs| - 1], key, val))[p]
  {
    var pre := xs[..|xs| - 1];
    var kp := Keys(Gather(pre, key, val));
    GatherSnocKeys(xs, key, val);
    assert kp[p] in kp;
    var a :| 0 <= a < |pre| && key(pre[a]) == Some(kp[p]);
    assert pre[a] == xs[a];
    assert i <= a;
  }

  /** One more element either appends a new key or leaves the key order as it was. */
  lemma GatherSnocKeys<X, K(!new), V>(xs: seq<X>, key: X -> Option<K>, val: X -> V)
    requires |xs| > 0
    ensures
      var kp := Keys(Gather(xs[..|xs| - 1], key, val));
      var x := xs[|xs| - 1];
      Keys(Gather(xs, key, val)) == if key(x).Some? && key(x).value !in kp then kp + [key(x).value] else kp
  {
  }
}
