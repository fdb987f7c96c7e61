/** Order-preserving selection over sequences: `Array.prototype.filter` and what it guarantees. */
module Seqs {

  /** `a` is obtained from `b` by deleting some elements, keeping the rest in order. */
  predicate IsSubsequence<T(==)>(a: seq<T>, b: seq<T>)
    decreases |b|
  {
    if a == [] then true
    else if b == [] then false
    else (a[0] == b[0] && IsSubsequence(a[1..], b[1..])) || IsSubsequence(a, b[1..])
  }

  lemma {:induction false} SubsequenceRefl<T>(s: seq<T>)
    ensures IsSubsequence(s, s)
    decreases |s|
  {
    if s != [] {
      SubsequenceRefl(s[1..]);
    }
  }

  /** Writing an element back to its own position changes nothing. */
  lemma UpdateSelf<T>(s: seq<T>, i: int)
    requires 0 <= i < |s|
    ensures s[i := s[i]] == s
  {
  }

  /** Past the first element, a sequence with an element put in front reads as the original. */
  lemma ConsIndex<T>(x: T, s: seq<T>, k: int)
    requires 0 <= k < |s|
    ensures ([x] + s)[k + 1] == s[k]
  {
  }

  /** Removing the element at position `i` yields a subsequence. */
  lemma {:induction false} RemoveAtIsSubsequence<T>(s: seq<T>, i: int)
    requires 0 <= i < |s|
    ensures IsSubsequence(s[..i] + s[i + 1..], s)
    decreases i
  {
    var a := s[..i] + s[i + 1..];
    if i == 0 {
      assert a == s[1..];
      SubsequenceRefl(s[1..]);
    } else {
      RemoveAtIsSubsequence(s[1..], i - 1);
      assert a[0] == s[0];
      assert a[1..] == s[1..][..i - 1] + s[1..][i..];
    }
  }

  /** `Array.prototype.filter`. */
  function Filter<T(==,!new)>(s: seq<T>, p: T -> bool): (r: seq<T>)
    ensures |r| <= |s|
    ensures forall k :: 0 <= k < |r| ==> p(r[k])
  {
    if s == [] then []
    else
      var rest := Filter(s[1..], p);
      if p(s[0]) then [s[0]] + rest else rest
  }

  /** The filter keeps exactly the elements satisfying `p`, with their multiplicities, in their original order. */
  lemma {:induction false} FilterSelects<T(!new)>(s: seq<T>, p: T -> bool)
    ensures IsSubsequence(Filter(s, p), s)
    ensures forall x :: multiset(Filter(s, p))[x] == if p(x) then multiset(s)[x] else 0
    decreases |s|
  {
    if s != [] {
      FilterSelects(s[1..], p);
      assert s == [s[0]] + s[1..];
      var rest := Filter(s[1..], p);
      if p(s[0]) {
        assert Filter(s, p)[1..] == rest;
      } else if rest != [] {
        assert IsSubsequence(rest, s[1..]);
      }
    }
  }

  /** Filtering distributes over concatenation. */
  lemma {:induction false} FilterAppend<T(!new)>(a: seq<T>, b: seq<T>, p: T -> bool)
    ensures Filter(a + b, p) == Filter(a, p) + Filter(b, p)
    decreases |a|
  {
    if a != [] {
      assert (a + b)[1..] == a[1..] + b;
      FilterAppend(a[1..], b, p);
    } else {
      assert a + b == b;
    }
  }

  /** A filter that rejects nothing returns its input unchanged. */
  lemma {:induction false} FilterKeepsAll<T(!new)>(s: seq<T>, p: T -> bool)
    requires forall k :: 0 <= k < |s| ==> p(s[k])
    ensures Filter(s, p) == s
    decreases |s|
  {
    if s != [] {
      FilterKeepsAll(s[1..], p);
    }
  }

  /** A filter that keeps nothing returns the empty sequence. */
  lemma {:induction false} FilterDropsAll<T(!new)>(s: seq<T>, p: T -> bool)
    requires forall k :: 0 <= k < |s| ==> !p(s[k])
    ensures Filter(s, p) == []
    decreases |s|
  {
    if s != [] {
      FilterDropsAll(s[1..], p);
    }
  }
}
