/**
 * Generic sequence operations used by the link inspector and the validation
 * loops: JavaScript's `Array.prototype.filter` and `map`, subsequences,
 * duplicate-freedom and order-preserving de-duplication.
 *
 * The recursive definitions peel off the LAST element, so that a loop that
 * appends to a result one element at a time can keep the invariant
 * `result == F(input[..i])`.
 */
module Seqs {

  /** The elements of `s` that satisfy `p`, in their original order. */
  function Filter<T(!new)>(s: seq<T>, p: T -> bool): (r: seq<T>)
    ensures |r| <= |s|
  {
    if s == [] then []
    else
      var init, last := s[..|s| - 1], s[|s| - 1];
      Filter(init, p) + (if p(last) then [last] else [])
  }

  /** `f` applied to every element of `s`. */
  function Map<T, U>(s: seq<T>, f: T -> U): (r: seq<U>)
    ensures |r| == |s|
    ensures forall i :: 0 <= i < |s| ==> r[i] == f(s[i])
  {
    if s == [] then [] else Map(s[..|s| - 1], f) + [f(s[|s| - 1])]
  }

  /** `r` can be obtained from `s` by deleting elements (order kept). */
  ghost predicate IsSubsequence<T>(r: seq<T>, s: seq<T>)
  {
    if r == [] then true
    else if s == [] then false
    else
      (r[|r| - 1] == s[|s| - 1] && IsSubsequence(r[..|r| - 1], s[..|s| - 1]))
      || IsSubsequence(r, s[..|s| - 1])
  }

  ghost predicate NoDuplicates<T>(s: seq<T>)
  {
    forall i, j :: 0 <= i < j < |s| ==> s[i] != s[j]
  }

  /** The position of the first occurrence of `x` in `s`. */
  function FirstIndex<T(==)>(s: seq<T>, x: T): (k: nat)
    requires x in s
    ensures k < |s| && s[k] == x && x !in s[..k]
  {
    if s[0] == x then 0
    else
      assert x in s[1..] by { assert s == [s[0]] + s[1..]; }
      var k := 1 + FirstIndex(s[1..], x);
      assert s[..k] == [s[0]] + s[1..][..k - 1];
      k
  }

  /**
   * Order-preserving de-duplication: each value is kept at its first
   * occurrence, later repetitions are dropped.
   */
  function Dedup<T(==)>(s: seq<T>): (r: seq<T>)
  {
    if s == [] then []
    else
      var d := Dedup(s[..|s| - 1]);
      if s[|s| - 1] in d then d else d + [s[|s| - 1]]
  }

  /** What a filter keeps: exactly the elements of its input that pass. */
  lemma {:induction false} FilterMembership<T(!new)>(s: seq<T>, p: T -> bool)
    ensures forall x :: x in Filter(s, p) <==> x in s && p(x)
    decreases |s|
  {
    if s != [] {
      var init, last := s[..|s| - 1], s[|s| - 1];
      FilterMembership(init, p);
      assert s == init + [last];
    }
  }

  lemma {:induction false} FilterAppend<T(!new)>(s: seq<T>, t: seq<T>, p: T -> bool)
    ensures Filter(s + t, p) == Filter(s, p) + Filter(t, p)
    decreases |t|
  {
    if t != [] {
      var t', last := t[..|t| - 1], t[|t| - 1];
      assert (s + t)[..|s + t| - 1] == s + t';
      FilterAppend(s, t', p);
    } else {
      assert s + t == s;
    }
  }

  lemma {:induction false} MapAppend<T, U>(s: seq<T>, t: seq<T>, f: T -> U)
    ensures Map(s + t, f) == Map(s, f) + Map(t, f)
  {
    // Map is determined index by index, so the two sides agree pointwise.
    var l, r := Map(s + t, f), Map(s, f) + Map(t, f);
    assert |l| == |r|;
    forall i | 0 <= i < |l| ensures l[i] == r[i] {
      if i < |s| { assert (s + t)[i] == s[i]; } else { assert (s + t)[i] == t[i - |s|]; }
    }
  }

  lemma FilterSnoc<T(!new)>(s: seq<T>, x: T, p: T -> bool)
    ensures Filter(s + [x], p) == Filter(s, p) + if p(x) then [x] else []
  {
    assert (s + [x])[..|s|] == s;
  }

  /** One more element through a filter followed by a map. */
  lemma FilterMapSnoc<T(!new), U>(s: seq<T>, x: T, p: T -> bool, f: T -> U)
    ensures Map(Filter(s + [x], p), f) == Map(Filter(s, p), f) + if p(x) then [f(x)] else []
  {
    FilterSnoc(s, x, p);
    MapAppend(Filter(s, p), if p(x) then [x] else [], f);
  }

  /** A filter that every element passes returns its input. */
  lemma {:induction false} FilterKeepsAll<T(!new)>(s: seq<T>, p: T -> bool)
    requires forall i :: 0 <= i < |s| ==> p(s[i])
    ensures Filter(s, p) == s
  {
    if s != [] {
      FilterKeepsAll(s[..|s| - 1], p);
    }
  }

  /** A value is produced by a filter and map exactly when some passing element maps to it. */
  lemma FilterMapMember<T(!new), U>(s: seq<T>, p: T -> bool, f: T -> U, y: U)
    ensures y in Map(Filter(s, p), f) <==> exists j :: 0 <= j < |s| && p(s[j]) && f(s[j]) == y
  {
    var r := Filter(s, p);
    FilterMembership(s, p);
    if y in Map(r, f) {
      var i :| 0 <= i < |r| && Map(r, f)[i] == y;
      assert r[i] in r;
      var j :| 0 <= j < |s| && s[j] == r[i];
    }
    if j :| 0 <= j < |s| && p(s[j]) && f(s[j]) == y {
      assert s[j] in r;
      var i :| 0 <= i < |r| && r[i] == s[j];
      assert Map(r, f)[i] == y;
    }
  }

  /** A filter that passes exactly the first `n` elements returns them. */
  lemma {:induction false} FilterKeepsPrefix<T(!new)>(s: seq<T>, p: T -> bool, n: nat)
    requires n <= |s|
    requires forall i :: 0 <= i < n ==> p(s[i])
    requires forall i :: n <= i < |s| ==> !p(s[i])
    ensures Filter(s, p) == s[..n]
    decreases |s|
  {
    if n == |s| {
      FilterKeepsAll(s, p);
      assert s[..n] == s;
    } else {
      var init := s[..|s| - 1];
      assert !p(s[|s| - 1]);
      assert forall i :: 0 <= i < n ==> p(init[i]) by {
        forall i | 0 <= i < n ensures p(init[i]) { assert init[i] == s[i]; }
      }
      assert forall i :: n <= i < |init| ==> !p(init[i]) by {
        forall i | n <= i < |init| ensures !p(init[i]) { assert init[i] == s[i]; }
      }
      FilterKeepsPrefix(init, p, n);
      assert init[..n] == s[..n];
    }
  }

  /** A filter that passes exactly one element returns just that element. */
  lemma {:induction false} FilterKeepsOne<T(!new)>(s: seq<T>, p: T -> bool, k: nat)
    requires k < |s| && p(s[k])
    requires forall i :: 0 <= i < |s| && i != k ==> !p(s[i])
    ensures Filter(s, p) == [s[k]]
    decreases |s|
  {
    var init := s[..|s| - 1];
    if k == |s| - 1 {
      assert forall i :: 0 <= i < |init| ==> !p(init[i]) by {
        forall i | 0 <= i < |init| ensures !p(init[i]) { assert init[i] == s[i]; }
      }
      FilterEmpty(init, p);
    } else {
      assert !p(s[|s| - 1]);
      assert forall i :: 0 <= i < |init| && i != k ==> !p(init[i]) by {
        forall i | 0 <= i < |init| && i != k ensures !p(init[i]) { assert init[i] == s[i]; }
      }
      FilterKeepsOne(init, p, k);
    }
  }

  /** Filtering twice with the same predicate is the same as filtering once. */
  lemma {:induction false} FilterIdempotent<T(!new)>(s: seq<T>, p: T -> bool)
    ensures Filter(Filter(s, p), p) == Filter(s, p)
    decreases |s|
  {
    if s != [] {
      var init, last := s[..|s| - 1], s[|s| - 1];
      FilterIdempotent(init, p);
      if p(last) {
        assert Filter(s, p) == Filter(init, p) + [last];
        FilterAppend(Filter(init, p), [last], p);
        assert Filter([last], p) == [last];
      } else {
        assert Filter(s, p) == Filter(init, p);
      }
    }
  }

  /**
   * Filtering by a predicate and by its complement splits the input: the two
   * results hold, between them, every element exactly as often as the input.
   */
  lemma FilterPartition<T(!new)>(s: seq<T>, p: T -> bool, q: T -> bool)
    requires forall x :: q(x) == !p(x)
    ensures multiset(Filter(s, p)) + multiset(Filter(s, q)) == multiset(s)
  {
    forall x ensures (multiset(Filter(s, p)) + multiset(Filter(s, q)))[x] == multiset(s)[x] {
      FilterMultiplicity(s, p, x);
      FilterMultiplicity(s, q, x);
    }
  }

  /** ... and so the two lengths add up to the input's. */
  lemma FilterPartitionLength<T(!new)>(s: seq<T>, p: T -> bool, q: T -> bool)
    requires forall x :: q(x) == !p(x)
    ensures |Filter(s, p)| + |Filter(s, q)| == |s|
  {
    FilterPartition(s, p, q);
    assert |multiset(Filter(s, p)) + multiset(Filter(s, q))| == |multiset(s)|;
  }

  /** The same split, seen through a map applied to both halves. */
  lemma FilterMapPartition<T(!new), U>(s: seq<T>, p: T -> bool, q: T -> bool, f: T -> U)
    requires forall x :: q(x) == !p(x)
    ensures multiset(Map(Filter(s, p), f)) + multiset(Map(Filter(s, q), f)) == multiset(Map(s, f))
  {
    var a, b := Filter(s, p), Filter(s, q);
    FilterPartition(s, p, q);
    MapAppend(a, b, f);
    MapPreservesPermutation(a + b, s, f);
  }

  /** Sequences holding the same elements map to sequences holding the same elements. */
  lemma {:induction false} MapPreservesPermutation<T, U>(a: seq<T>, b: seq<T>, f: T -> U)
    requires multiset(a) == multiset(b)
    ensures multiset(Map(a, f)) == multiset(Map(b, f))
    decreases |a|
  {
    if a != [] {
      var init, x := a[..|a| - 1], a[|a| - 1];
      assert a == init + [x];
      var pre, post := RemoveOne(init, x, b);
      MapPreservesPermutation(init, pre + post, f);
      MapAppend(init, [x], f);
      MapInsert(pre, x, post, f);
    }
  }

  /** Finds an occurrence of `x` in `b` whose removal leaves a permutation of `init`. */
  lemma RemoveOne<T>(init: seq<T>, x: T, b: seq<T>) returns (pre: seq<T>, post: seq<T>)
    requires multiset(init + [x]) == multiset(b)
    ensures b == pre + [x] + post && multiset(init) == multiset(pre + post)
  {
    assert x in multiset(init + [x]);
    var k :| 0 <= k < |b| && b[k] == x;
    pre, post := b[..k], b[k + 1..];
    assert b == pre + [x] + post;
    forall y ensures multiset(init)[y] == multiset(pre + post)[y] {
      assert (multiset(init) + multiset{x})[y] == (multiset(pre + post) + multiset{x})[y];
    }
  }

  lemma MapInsert<T, U>(pre: seq<T>, x: T, post: seq<T>, f: T -> U)
    ensures multiset(Map(pre + [x] + post, f)) == multiset(Map(pre + post, f)) + multiset{f(x)}
  {
    MapAppend(pre, post, f);
    MapAppend(pre + [x], post, f);
    MapAppend(pre, [x], f);
  }

  /** Every element is kept exactly as often as it occurs, or not at all. */
  lemma {:induction false} FilterMultiplicity<T(!new)>(s: seq<T>, p: T -> bool, x: T)
    ensures multiset(Filter(s, p))[x] == if p(x) then multiset(s)[x] else 0
    decreases |s|
  {
    if s != [] {
      var init, last := s[..|s| - 1], s[|s| - 1];
      FilterMultiplicity(init, p, x);
      assert s == init + [last];
    }
  }

  /** The result of a filter is empty exactly when no element passes. */
  lemma {:induction false} FilterEmpty<T(!new)>(s: seq<T>, p: T -> bool)
    ensures Filter(s, p) == [] <==> forall i :: 0 <= i < |s| ==> !p(s[i])
  {
    FilterMembership(s, p);
    if Filter(s, p) == [] {
      forall i | 0 <= i < |s| ensures !p(s[i]) {
        assert s[i] in s;
      }
    } else {
      var x := Filter(s, p)[0];
      assert x in Filter(s, p);
      var i :| 0 <= i < |s| && s[i] == x;
    }
  }

  lemma {:induction false} SubsequenceOfEmpty<T>(s: seq<T>)
    ensures IsSubsequence([], s)
  {
  }

  /** Appending an element to the larger sequence keeps a subsequence. */
  lemma SubsequenceExtend<T>(r: seq<T>, s: seq<T>, x: T)
    requires IsSubsequence(r, s)
    ensures IsSubsequence(r, s + [x])
  {
    if r != [] {
      assert (s + [x])[..|s + [x]| - 1] == s;
    }
  }

  /** A filter keeps a subsequence of its input; so does mapping both sides. */
  lemma {:induction false} FilterMapSubsequence<T(!new), U>(s: seq<T>, p: T -> bool, f: T -> U)
    ensures IsSubsequence(Map(Filter(s, p), f), Map(s, f))
    decreases |s|
  {
    if s != [] {
      var init, last := s[..|s| - 1], s[|s| - 1];
      FilterMapSubsequence(init, p, f);
      var m := Map(s, f);
      assert m[..|m| - 1] == Map(init, f);
      if p(last) {
        assert Filter(s, p) == Filter(init, p) + [last];
        MapAppend(Filter(init, p), [last], f);
        var r := Map(Filter(s, p), f);
        assert r == Map(Filter(init, p), f) + [f(last)];
        assert r[..|r| - 1] == Map(Filter(init, p), f);
      } else {
        assert Filter(s, p) == Filter(init, p);
        SubsequenceExtend(Map(Filter(init, p), f), Map(init, f), f(last));
        assert Map(init, f) + [f(last)] == m;
      }
    }
  }

  /** A filter keeps a subsequence of its input. */
  lemma {:induction false} FilterSubsequence<T(!new)>(s: seq<T>, p: T -> bool)
    ensures IsSubsequence(Filter(s, p), s)
    decreases |s|
  {
    if s != [] {
      var init, last := s[..|s| - 1], s[|s| - 1];
      FilterSubsequence(init, p);
      if p(last) {
        var r := Filter(s, p);
        assert r == Filter(init, p) + [last];
        assert r[..|r| - 1] == Filter(init, p);
      } else {
        assert Filter(s, p) == Filter(init, p);
        SubsequenceExtend(Filter(init, p), init, last);
        assert init + [last] == s;
      }
    }
  }

  lemma {:induction false} FirstIndexOfPrefix<T>(s: seq<T>, n: nat, x: T)
    requires n <= |s| && x in s[..n]
    ensures FirstIndex(s, x) == FirstIndex(s[..n], x)
  {
    var k, k' := FirstIndex(s, x), FirstIndex(s[..n], x);
    assert s[k'] == x;
  }

  /**
   * Dedup keeps every value of the input exactly once, and lists the values
   * in the order in which they first occur.
   */
  lemma {:induction false} DedupSpec<T>(s: seq<T>)
    ensures NoDuplicates(Dedup(s))
    ensures forall x :: x in Dedup(s) <==> x in s
    ensures forall i, j :: 0 <= i < j < |Dedup(s)| ==>
      FirstIndex(s, Dedup(s)[i]) < FirstIndex(s, Dedup(s)[j])
    decreases |s|
  {
    if s != [] {
      var init, last := s[..|s| - 1], s[|s| - 1];
      assert s == init + [last];
      DedupSpec(init);
      var d := Dedup(init);
      forall x | x in init ensures FirstIndex(s, x) == FirstIndex(init, x) {
        FirstIndexOfPrefix(s, |s| - 1, x);
      }
      if last !in d {
        assert FirstIndex(s, last) == |s| - 1;
        var r := d + [last];
        forall i, j | 0 <= i < j < |r| ensures FirstIndex(s, r[i]) < FirstIndex(s, r[j]) {
          assert r[i] in d;
          if j == |d| {
            assert FirstIndex(init, r[i]) < |init|;
          } else {
            assert r[j] in d;
          }
        }
      }
    }
  }
}
