/** Row selection by a boolean mask, as pandas' `df[mask]` and `dropna` perform it:
    the rows that pass are kept, in their original order, and the others are removed. */
module Filtering {

  /** The elements of `s` for which `keep` holds, in the order of `s`. */
  function Where<T>(s: seq<T>, keep: T -> bool): seq<T>
  {
    if s == [] then []
    else (if keep(s[0]) then [s[0]] else []) + Where(s[1..], keep)
  }

  /** `a` can be obtained from `b` by deleting elements, without reordering. */
  ghost predicate IsSubsequence<T>(a: seq<T>, b: seq<T>)
    decreases |b|
  {
    a == [] ||
    (b != [] &&
     ((a[0] == b[0] && IsSubsequence(a[1..], b[1..])) || IsSubsequence(a, b[1..])))
  }

  /** Filtering never reorders: its result is a subsequence of its input. */
  lemma {:induction false} WhereIsSubsequence<T>(s: seq<T>, keep: T -> bool)
    ensures IsSubsequence(Where(s, keep), s)
    decreases |s|
  {
    if s != [] {
      WhereIsSubsequence(s[1..], keep);
      var rest := Where(s[1..], keep);
      if keep(s[0]) {
        assert Where(s, keep) == [s[0]] + rest;
        assert ([s[0]] + rest)[1..] == rest;
      } else {
        assert Where(s, keep) == rest;
        SubsequenceOfTail(rest, s);
      }
    }
  }

  /** A subsequence of the tail of `b` is a subsequence of `b`. */
  lemma SubsequenceOfTail<T>(a: seq<T>, b: seq<T>)
    requires b != [] && IsSubsequence(a, b[1..])
    ensures IsSubsequence(a, b)
  {
  }

  /** A subsequence is never longer than the sequence it was taken from. */
  lemma {:induction false} SubsequenceLength<T>(a: seq<T>, b: seq<T>)
    requires IsSubsequence(a, b)
    ensures |a| <= |b|
    decreases |b|
  {
    if a != [] {
      if a[0] == b[0] && IsSubsequence(a[1..], b[1..]) {
        SubsequenceLength(a[1..], b[1..]);
      } else {
        SubsequenceLength(a, b[1..]);
      }
    }
  }

  /** An element is in the filtered sequence exactly when it is in the input and passes. */
  lemma {:induction false} WhereMembers<T>(s: seq<T>, keep: T -> bool)
    ensures forall x :: x in Where(s, keep) <==> x in s && keep(x)
    decreases |s|
  {
    if s != [] {
      WhereMembers(s[1..], keep);
      assert s == [s[0]] + s[1..];
    }
  }

  /** Filtering out every element leaves nothing. */
  lemma {:induction false} WhereNone<T>(s: seq<T>, keep: T -> bool)
    requires forall i :: 0 <= i < |s| ==> !keep(s[i])
    ensures Where(s, keep) == []
    decreases |s|
  {
    if s != [] {
      WhereNone(s[1..], keep);
    }
  }

  /** The kept and the removed elements together account for the whole input. */
  lemma {:induction false} WherePartition<T>(s: seq<T>, keep: T -> bool, drop: T -> bool)
    requires forall x :: drop(x) == !keep(x)
    ensures |Where(s, keep)| + |Where(s, drop)| == |s|
    decreases |s|
  {
    if s != [] {
      WherePartition(s[1..], keep, drop);
    }
  }

  /** Filtering keeps the input length as an upper bound. */
  lemma WhereLength<T>(s: seq<T>, keep: T -> bool)
    ensures |Where(s, keep)| <= |s|
  {
    WhereIsSubsequence(s, keep);
    SubsequenceLength(Where(s, keep), s);
  }

  /** Filtering distributes over concatenation. */
  lemma {:induction false} WhereAppend<T>(a: seq<T>, b: seq<T>, keep: T -> bool)
    ensures Where(a + b, keep) == Where(a, keep) + Where(b, keep)
    decreases |a|
  {
    if a != [] {
      WhereAppend(a[1..], b, keep);
      assert (a + b)[1..] == a[1..] + b;
    } else {
      assert a + b == b;
    }
  }
}
