/** Sequence facts shared by the index builder: distinctness and first-match search. */
module Seqs {
  import opened Wrappers

  /** No element occurs twice. */
  ghost predicate Distinct<T>(s: seq<T>) {
    forall i, j :: 0 <= i < j < |s| ==> s[i] != s[j]
  }

  /** Concatenation is associative. */
  lemma ConcatAssoc<T>(a: seq<T>, b: seq<T>, c: seq<T>)
    ensures a + (b + c) == (a + b) + c
  {
  }

  /** A non-empty sequence is its front followed by its last element. */
  lemma DropLast<T>(s: seq<T>)
    requires |s| > 0
    ensures s == s[..|s| - 1] + [s[|s| - 1]]
  {
  }

  /** A prefix one element longer is the shorter prefix followed by that element. */
  lemma TakeOneMore<T>(s: seq<T>, k: int)
    requires 0 <= k < |s|
    ensures s[..k + 1] == s[..k] + [s[k]]
  {
  }

  /** A prefix that ends in `p + [c]` has `p` as its prefix one shorter. */
  lemma PrefixShrinks<T>(s: seq<T>, p: seq<T>, c: T)
    requires |p| + 1 <= |s| && s[..|p| + 1] == p + [c]
    ensures s[..|p|] == p
  {
    assert s[..|p|] == s[..|p| + 1][..|p|];
  }

  /** Appending a new element keeps a sequence free of repetitions. */
  lemma DistinctSnoc<T>(s: seq<T>, x: T)
    requires Distinct(s) && x !in s
    ensures Distinct(s + [x])
  {
    var t := s + [x];
    forall i, j | 0 <= i < j < |t|
      ensures t[i] != t[j]
    {
      assert t[i] == s[i];
    }
  }

  /** A sequence without repetitions has as many elements as its set of elements. */
  lemma {:induction false} DistinctCardinality<T>(s: seq<T>)
    requires Distinct(s)
    ensures |set x | x in s| == |s|
  {
    if |s| > 0 {
      var t := s[..|s| - 1];
      assert Distinct(t);
      DistinctCardinality(t);
      assert (set x | x in s) == (set x | x in t) + {s[|s| - 1]};
      assert s[|s| - 1] !in (set x | x in t);
    }
  }

  /** A sequence without repetitions drawn from `u` is no longer than `u` is large. */
  lemma DistinctWithin<T>(s: seq<T>, u: set<T>)
    requires Distinct(s)
    requires forall i :: 0 <= i < |s| ==> s[i] in u
    ensures |s| <= |u|
  {
    DistinctCardinality(s);
    var e := set x | x in s;
    assert e <= u;
    assert u == e + (u - e);
    assert e * (u - e) == {};
  }

  /**
   * The first element of `xs` (in order) that belongs to `s`, as in Python's
   * `next((g for g in xs if g in s), None)` and `[g for g in xs if g in s][0]`.
   */
  function FirstIn<T>(xs: seq<T>, s: set<T>): (r: Option<T>)
    ensures r.None? <==> forall i :: 0 <= i < |xs| ==> xs[i] !in s
    ensures r.Some? ==> r.value in s && r.value in xs
    ensures r.Some? ==> exists i :: 0 <= i < |xs| && xs[i] == r.value && forall j :: 0 <= j < i ==> xs[j] !in s
  {
    if |xs| == 0 then None
    else if xs[0] in s then Some(xs[0])
    else
      var r := FirstIn(xs[1..], s);
      assert r.Some? ==> exists i :: 0 <= i < |xs[1..]| && xs[1..][i] == r.value && forall j :: 0 <= j < i ==> xs[1..][j] !in s;
      r
  }

  /** The first match is determined by position: an element in `s` preceded by no element in `s`. */
  lemma FirstInAt<T>(xs: seq<T>, s: set<T>, i: int)
    requires 0 <= i < |xs| && xs[i] in s
    requires forall j :: 0 <= j < i ==> xs[j] !in s
    ensures FirstIn(xs, s) == Some(xs[i])
  {
    var r := FirstIn(xs, s);
    var k :| 0 <= k < |xs| && xs[k] == r.value && forall j :: 0 <= j < k ==> xs[j] !in s;
  }

  /** `x` is the first element of `xs` that belongs to `s`. */
  ghost predicate FirstMatch<T>(xs: seq<T>, s: set<T>, x: T) {
    exists i :: 0 <= i < |xs| && xs[i] == x && x in s && forall j :: 0 <= j < i ==> xs[j] !in s
  }

  /** `FirstIn` finds exactly the first match. */
  lemma FirstInIsFirstMatch<T>(xs: seq<T>, s: set<T>, x: T)
    ensures FirstIn(xs, s) == Some(x) <==> FirstMatch(xs, s, x)
  {
    if FirstMatch(xs, s, x) {
      var i :| 0 <= i < |xs| && xs[i] == x && x in s && forall j :: 0 <= j < i ==> xs[j] !in s;
      FirstInAt(xs, s, i);
    }
  }
}
