/** Sequence helpers shared by the page's derivations: the order-preserving
    filter that `Array.prototype.filter` performs, and what it means for one
    sequence to be picked out of another without reordering. */
module Seqs {

  function Min(a: int, b: int): int
  {
    if a <= b then a else b
  }

  /** Keeps, in their original order, the elements of `s` that satisfy `p`. */
  function Filter<T>(s: seq<T>, p: T -> bool): (r: seq<T>)
    ensures |r| <= |s|
    ensures forall i :: 0 <= i < |r| ==> p(r[i])
  {
    if |s| == 0 then []
    else if p(s[0]) then [s[0]] + Filter(s[1..], p)
    else Filter(s[1..], p)
  }

  /** `Filter` keeps every copy of each element that satisfies `p` and nothing else. */
  lemma {:induction false} FilterCounts<T(!new)>(s: seq<T>, p: T -> bool)
    ensures forall x :: multiset(Filter(s, p))[x] == if p(x) then multiset(s)[x] else 0
    ensures forall x :: x in Filter(s, p) <==> x in s && p(x)
  {
    if |s| > 0 {
      FilterCounts(s[1..], p);
      assert s == [s[0]] + s[1..];
    }
  }

  /** `a` is `b` with some elements deleted: `idx` gives, in strictly increasing
      order, the position in `b` that each element of `a` was taken from. */
  ghost predicate SubsequenceVia<T>(a: seq<T>, b: seq<T>, idx: seq<nat>)
  {
    && |idx| == |a|
    && (forall k :: 0 <= k < |idx| ==> idx[k] < |b| && b[idx[k]] == a[k])
    && (forall k, l :: 0 <= k < l < |idx| ==> idx[k] < idx[l])
  }

  /** Putting an element in front of `b` keeps `a` a subsequence of it. */
  lemma SubsequenceOfCons<T>(a: seq<T>, b: seq<T>, idx: seq<nat>, x: T) returns (idx': seq<nat>)
    requires SubsequenceVia(a, b, idx)
    ensures SubsequenceVia(a, [x] + b, idx')
    ensures forall k :: 0 <= k < |idx'| ==> idx'[k] > 0
  {
    idx' := seq(|idx|, k requires 0 <= k < |idx| => idx[k] + 1);
    assert forall k :: 0 <= k < |idx'| ==> ([x] + b)[idx'[k]] == b[idx[k]];
  }

  /** Putting the same element in front of both keeps the relation. */
  lemma SubsequenceConsCons<T>(a: seq<T>, b: seq<T>, idx: seq<nat>, x: T) returns (idx': seq<nat>)
    requires SubsequenceVia(a, b, idx)
    ensures SubsequenceVia([x] + a, [x] + b, idx')
  {
    var shifted := SubsequenceOfCons(a, b, idx, x);
    idx' := [0] + shifted;
    assert forall k :: 0 < k < |idx'| ==> idx'[k] == shifted[k - 1] && ([x] + a)[k] == a[k - 1];
  }

  /** Filtering neither adds nor reorders elements. */
  lemma {:induction false} FilterIsSubsequence<T>(s: seq<T>, p: T -> bool) returns (idx: seq<nat>)
    ensures SubsequenceVia(Filter(s, p), s, idx)
  {
    if |s| == 0 {
      idx := [];
    } else {
      var rest := FilterIsSubsequence(s[1..], p);
      assert s == [s[0]] + s[1..];
      if p(s[0]) {
        idx := SubsequenceConsCons(Filter(s[1..], p), s[1..], rest, s[0]);
      } else {
        idx := SubsequenceOfCons(Filter(s[1..], p), s[1..], rest, s[0]);
      }
    }
  }

  /** The first element kept by `Filter` is the first element of `s` that satisfies `p`. */
  lemma {:induction false} FilterHead<T(!new)>(s: seq<T>, p: T -> bool)
    requires |Filter(s, p)| > 0
    ensures exists i :: 0 <= i < |s| && s[i] == Filter(s, p)[0] && forall j :: 0 <= j < i ==> !p(s[j])
  {
    if p(s[0]) {
      assert s[0] == Filter(s, p)[0];
    } else {
      FilterHead(s[1..], p);
      var i :| 0 <= i < |s[1..]| && s[1..][i] == Filter(s[1..], p)[0] && forall j :: 0 <= j < i ==> !p(s[1..][j]);
      assert s[i + 1] == Filter(s, p)[0];
      assert forall j :: 0 <= j < i + 1 ==> !p(s[j]) by {
        forall j | 0 <= j < i + 1 ensures !p(s[j]) {
          if j > 0 { assert s[j] == s[1..][j - 1]; }
        }
      }
    }
  }

  /** A prefix holds no more copies of anything than the whole sequence. */
  lemma PrefixMultiset<T>(s: seq<T>, k: nat)
    requires k <= |s|
    ensures multiset(s[..k]) <= multiset(s)
  {
    assert s == s[..k] + s[k..];
  }
}
