/**
 * The "append to the parent's list" pattern: each element is appended, in input
 * order, to the list kept under its key. The index builder uses it for root and
 * child locations, for equipment under locations and for points.
 */
module Grouping {
  import opened Seqs

  /** The ordered sub-sequence of `xs` whose key is `k` (a reference filter). */
  function Select<X(==,!new), K(==,!new)>(xs: seq<X>, key: X -> K, k: K): (ys: seq<X>)
    ensures forall y :: y in ys <==> y in xs && key(y) == k
    ensures |ys| <= |xs|
    ensures Distinct(xs) ==> Distinct(ys)
  {
    if |xs| == 0 then []
    else
      var rest := Select(xs[1..], key, k);
      assert Distinct(xs) ==> Distinct(xs[1..]) && xs[0] !in xs[1..];
      (if key(xs[0]) == k then [xs[0]] else []) + rest
  }

  /** Filtering distributes over appending one element. */
  lemma {:induction false} SelectSnoc<X(!new), K(!new)>(xs: seq<X>, key: X -> K, x: X, k: K)
    ensures Select(xs + [x], key, k) == Select(xs, key, k) + (if key(x) == k then [x] else [])
  {
    var t := if key(x) == k then [x] else [];
    if |xs| > 0 {
      var h := if key(xs[0]) == k then [xs[0]] else [];
      assert (xs + [x])[0] == xs[0];
      assert (xs + [x])[1..] == xs[1..] + [x];
      assert Select(xs + [x], key, k) == h + Select(xs[1..] + [x], key, k);
      SelectSnoc(xs[1..], key, x, k);
      var s := Select(xs[1..], key, k);
      assert Select(xs, key, k) == h + s;
      ConcatAssoc(h, s, t);
    } else {
      assert [x][1..] == [];
      assert Select([x], key, k) == t + Select([], key, k);
    }
  }

  /** The list kept under `k`; a key never appended to has the empty list. */
  function Bucket<K, X>(g: map<K, seq<X>>, k: K): seq<X> {
    if k in g then g[k] else []
  }

  /**
   * The lists built by `for x in xs: lists[key(x)].append(x)`: every bucket is the
   * ordered filter of the input by that key.
   */
  function Group<X(==,!new), K(==,!new)>(xs: seq<X>, key: X -> K): (g: map<K, seq<X>>)
    ensures forall k :: Bucket(g, k) == Select(xs, key, k)
  {
    if |xs| == 0 then map[]
    else
      var p := xs[..|xs| - 1];
      var x := xs[|xs| - 1];
      var g := Group(p, key);
      assert p + [x] == xs;
      assert forall k :: Select(xs, key, k) == Select(p, key, k) + (if key(x) == k then [x] else []) by {
        forall k ensures Select(xs, key, k) == Select(p, key, k) + (if key(x) == k then [x] else []) {
          SelectSnoc(p, key, x, k);
        }
      }
      g[key(x) := Bucket(g, key(x)) + [x]]
  }
}
