/**
 * Descents in a forest given by a parent function: a chain starts at a root (no
 * parent) and each later element is a child of the one before it. Because every node
 * has at most one parent, a chain never revisits a node, so its length is bounded by
 * the number of nodes; nodes on a parent cycle lie on no chain.
 */
module Chains {
  import opened Wrappers
  import opened Seqs

  ghost predicate IsChainOf<T>(up: T -> Option<T>, u: set<T>, path: seq<T>) {
    && |path| > 0
    && Distinct(path)
    && (forall i :: 0 <= i < |path| ==> path[i] in u)
    && up(path[0]) == None
    && (forall i :: 0 < i < |path| ==> up(path[i]) == Some(path[i - 1]))
  }

  /** A root on its own is a chain. */
  lemma Single<T>(up: T -> Option<T>, u: set<T>, r: T)
    requires r in u && up(r) == None
    ensures IsChainOf(up, u, [r])
  {
  }

  /** Appending a child of the last node keeps a chain, and the chain was not yet as long as `u`. */
  lemma Extend<T>(up: T -> Option<T>, u: set<T>, path: seq<T>, c: T)
    requires IsChainOf(up, u, path)
    requires c in u && up(c) == Some(path[|path| - 1])
    ensures IsChainOf(up, u, path + [c])
    ensures |path| < |u|
  {
    forall j | 0 <= j < |path|
      ensures path[j] != c
    {
      if 0 < j {
        assert up(path[j]) == Some(path[j - 1]);
        assert path[j - 1] != path[|path| - 1];
      }
    }
    var q := path + [c];
    assert forall i :: 0 <= i < |path| ==> q[i] == path[i];
    assert Distinct(q);
    DistinctWithin(q, u);
  }

  /** Every prefix of a chain is a chain. */
  lemma Prefix<T>(up: T -> Option<T>, u: set<T>, path: seq<T>, k: int)
    requires IsChainOf(up, u, path) && 0 < k <= |path|
    ensures IsChainOf(up, u, path[..k])
  {
    var p := path[..k];
    assert forall i :: 0 <= i < k ==> p[i] == path[i];
  }

  /**
   * `cy` is a parent cycle: every element's parent is the element before it, and the
   * first element's parent is the last.
   */
  ghost predicate IsCycleOf<T>(up: T -> Option<T>, cy: seq<T>) {
    && |cy| > 0
    && up(cy[0]) == Some(cy[|cy| - 1])
    && (forall i :: 0 < i < |cy| ==> up(cy[i]) == Some(cy[i - 1]))
  }

  /** No chain ends on a cycle. */
  lemma {:induction false} NoChainToCycle<T>(up: T -> Option<T>, u: set<T>, cy: seq<T>, ch: seq<T>, k: int)
    requires IsCycleOf(up, cy) && 0 <= k < |cy|
    requires IsChainOf(up, u, ch)
    ensures ch[|ch| - 1] != cy[k]
    decreases |ch|
  {
    var pk := if k == 0 then |cy| - 1 else k - 1;
    assert up(cy[k]) == Some(cy[pk]);
    if |ch| > 1 {
      // the parents differ by induction, so the nodes differ
      assert up(ch[|ch| - 1]) == Some(ch[|ch| - 2]);
      Prefix(up, u, ch, |ch| - 1);
      NoChainToCycle(up, u, cy, ch[..|ch| - 1], pk);
    }
  }
}
