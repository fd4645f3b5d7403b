/**
 * The JavaScript array operations the photo pipeline uses: `Array.prototype.filter`
 * and `Array.from(new Set(xs))`, whose result lists the distinct elements of `xs`
 * in insertion (first-occurrence) order.
 */
module JsArrays {

  /** `s.filter(p)`: the elements of `s` that satisfy `p`, in their original order. */
  function Filter<T(==)>(s: seq<T>, p: T -> bool): (r: seq<T>)
    ensures |r| <= |s|
    ensures forall k :: 0 <= k < |r| ==> p(r[k]) && r[k] in s
    ensures forall x :: x in s && p(x) ==> x in r
    decreases |s|
  {
    if |s| == 0 then []
    else
      var n := |s| - 1;
      var front := Filter(s[..n], p);
      assert s == s[..n] + [s[n]];
      if p(s[n]) then front + [s[n]] else front
  }

  /** The indices of `s` whose elements satisfy `p`, in increasing order. */
  function FilterIndices<T>(s: seq<T>, p: T -> bool): (idx: seq<nat>)
    ensures forall k :: 0 <= k < |idx| ==> idx[k] < |s| && p(s[idx[k]])
    ensures forall j, k :: 0 <= j < k < |idx| ==> idx[j] < idx[k]
    ensures forall i :: 0 <= i < |s| && p(s[i]) ==> i in idx
    decreases |s|
  {
    if |s| == 0 then []
    else
      var n := |s| - 1;
      var front := FilterIndices(s[..n], p);
      if p(s[n]) then front + [n] else front
  }

  /**
   * `filter` is an order-preserving selection: its k-th element is the element
   * of `s` at the k-th index that satisfies `p`.
   */
  lemma {:induction false} FilterAtIndices<T>(s: seq<T>, p: T -> bool)
    ensures |Filter(s, p)| == |FilterIndices(s, p)|
    ensures forall k :: 0 <= k < |Filter(s, p)| ==> Filter(s, p)[k] == s[FilterIndices(s, p)[k]]
    decreases |s|
  {
    if |s| > 0 {
      var n := |s| - 1;
      FilterAtIndices(s[..n], p);
      var front, idx := Filter(s[..n], p), FilterIndices(s[..n], p);
      if p(s[n]) {
        assert Filter(s, p) == front + [s[n]];
        assert FilterIndices(s, p) == idx + [n];
        AppendAtIndices(s, n, front, idx);
      } else {
        assert Filter(s, p) == front;
        assert FilterIndices(s, p) == idx;
        PrefixAtIndices(s, n, front, idx);
      }
    }
  }

  /** Helper of FilterAtIndices: a selection from a prefix is a selection from the whole. */
  lemma PrefixAtIndices<T>(s: seq<T>, n: nat, front: seq<T>, idx: seq<nat>)
    requires n <= |s| && |front| == |idx|
    requires forall k :: 0 <= k < |idx| ==> idx[k] < n
    requires forall k :: 0 <= k < |front| ==> front[k] == s[..n][idx[k]]
    ensures forall k :: 0 <= k < |front| ==> front[k] == s[idx[k]]
  {
  }

  /** Helper of FilterAtIndices: appending the element at `n` and the index `n` keeps the selection aligned. */
  lemma AppendAtIndices<T>(s: seq<T>, n: nat, front: seq<T>, idx: seq<nat>)
    requires n < |s| && |front| == |idx|
    requires forall k :: 0 <= k < |idx| ==> idx[k] < n
    requires forall k :: 0 <= k < |front| ==> front[k] == s[..n][idx[k]]
    ensures forall k :: 0 <= k < |front| + 1 ==> (front + [s[n]])[k] == s[(idx + [n])[k]]
  {
    PrefixAtIndices(s, n, front, idx);
  }

  /** Filtering a sequence whose elements all satisfy `p` changes nothing. */
  lemma {:induction false} FilterKeepsAll<T>(s: seq<T>, p: T -> bool)
    requires forall k :: 0 <= k < |s| ==> p(s[k])
    ensures Filter(s, p) == s
    decreases |s|
  {
    if |s| > 0 {
      var n := |s| - 1;
      FilterKeepsAll(s[..n], p);
      assert s == s[..n] + [s[n]];
    }
  }

  /** Filtering twice by the same predicate is filtering once. */
  lemma FilterIdempotent<T>(s: seq<T>, p: T -> bool)
    ensures Filter(Filter(s, p), p) == Filter(s, p)
  {
    FilterKeepsAll(Filter(s, p), p);
  }

  /** No element occurs twice. */
  predicate NoDuplicates<T(==)>(s: seq<T>)
  {
    forall i, j :: 0 <= i < j < |s| ==> s[i] != s[j]
  }

  /**
   * `Array.from(new Set(s))`: each distinct element of `s` once, in the order in
   * which `Set` first saw it.
   */
  function Distinct<T(==)>(s: seq<T>): (r: seq<T>)
    ensures NoDuplicates(r)
    ensures forall x :: x in r ==> x in s
    ensures forall x :: x in s ==> x in r
    decreases |s|
  {
    if |s| == 0 then []
    else
      var n := |s| - 1;
      var front := Distinct(s[..n]);
      assert s == s[..n] + [s[n]];
      if s[n] in front then front else front + [s[n]]
  }

  /** The index of the first occurrence of `x` in `s`. */
  function FirstIndex<T(==)>(s: seq<T>, x: T): (i: nat)
    requires x in s
    ensures i < |s| && s[i] == x && x !in s[..i]
    decreases |s|
  {
    if s[0] == x then 0
    else
      var j := FirstIndex(s[1..], x);
      assert s[..j + 1] == [s[0]] + s[1..][..j];
      j + 1
  }

  /** An occurrence with no earlier one is the first occurrence. */
  lemma FirstIndexUnique<T>(s: seq<T>, x: T, i: nat)
    requires i < |s| && s[i] == x && x !in s[..i]
    ensures FirstIndex(s, x) == i
  {
  }

  /** Extending a sequence does not move the first occurrence of an element it already held. */
  lemma FirstIndexPrefix<T>(s: seq<T>, n: nat, x: T)
    requires n <= |s| && x in s[..n]
    ensures FirstIndex(s, x) == FirstIndex(s[..n], x)
  {
    var f := FirstIndex(s[..n], x);
    assert s[..n][..f] == s[..f];
    FirstIndexUnique(s, x, f);
  }

  /** `Distinct` lists its elements in the order of their first occurrence in `s`. */
  lemma {:induction false} DistinctFirstOccurrence<T>(s: seq<T>)
    ensures forall i, j :: 0 <= i < j < |Distinct(s)| ==>
      FirstIndex(s, Distinct(s)[i]) < FirstIndex(s, Distinct(s)[j])
    decreases |s|
  {
    if |s| > 0 {
      var n := |s| - 1;
      var front := Distinct(s[..n]);
      DistinctFirstOccurrence(s[..n]);
      forall k | 0 <= k < |front|
        ensures front[k] in s && FirstIndex(s, front[k]) == FirstIndex(s[..n], front[k]) < n
      {
        var j := FirstIndex(s[..n], front[k]);
        assert s[j] == front[k];
        FirstIndexPrefix(s, n, front[k]);
      }
      if s[n] !in front {
        FirstIndexUnique(s, s[n], n);
        assert Distinct(s) == front + [s[n]];
      }
    }
  }
}
