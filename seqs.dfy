/** Generic facts about sequences: the first position satisfying a test, and order-preserving
    sub-sequences. */
module Seqs {

  /** The first position at or after `from` whose element satisfies `p`, or `|s|` if none does. */
  function FirstIndex<T>(s: seq<T>, p: T -> bool, from: nat): (k: nat)
    requires from <= |s|
    decreases |s| - from
    ensures from <= k <= |s|
    ensures forall m :: from <= m < k ==> !p(s[m])
    ensures k < |s| ==> p(s[k])
  {
    if from == |s| || p(s[from]) then from else FirstIndex(s, p, from + 1)
  }

  /** `FirstIndex` is the only position with its defining properties. */
  lemma {:induction false} FirstIndexUnique<T>(s: seq<T>, p: T -> bool, from: nat, k: nat)
    requires from <= k <= |s|
    requires forall m :: from <= m < k ==> !p(s[m])
    requires k < |s| ==> p(s[k])
    ensures FirstIndex(s, p, from) == k
    decreases k - from
  {
    if from < k {
      FirstIndexUnique(s, p, from + 1, k);
    }
  }

  /** `a` is obtained from `b` by deleting elements, keeping the rest in their order. */
  predicate IsSubsequence<T(==)>(a: seq<T>, b: seq<T>)
    decreases |b|
  {
    if a == [] then true
    else if b == [] then false
    else (a[|a| - 1] == b[|b| - 1] && IsSubsequence(a[..|a| - 1], b[..|b| - 1]))
         || IsSubsequence(a, b[..|b| - 1])
  }

  /** A sub-sequence is no longer than the sequence it is drawn from, and holds only its elements. */
  lemma {:induction false} SubsequenceBounded<T>(a: seq<T>, b: seq<T>)
    requires IsSubsequence(a, b)
    ensures |a| <= |b|
    ensures forall x :: x in a ==> x in b
  {
    if a != [] {
      var b' := b[..|b| - 1];
      if IsSubsequence(a, b') {
        SubsequenceBounded(a, b');
      } else {
        var a' := a[..|a| - 1];
        SubsequenceBounded(a', b');
        assert a == a' + [a[|a| - 1]];
        assert b == b' + [b[|b| - 1]];
      }
    }
  }

  /** Every contiguous slice is a sub-sequence. */
  lemma {:induction false} SliceIsSubsequence<T>(s: seq<T>, i: nat, j: nat)
    requires i <= j <= |s|
    ensures IsSubsequence(s[i..j], s)
    decreases |s|
  {
    if i < j {
      var a := s[i..j];
      var s' := s[..|s| - 1];
      if j < |s| {
        SliceIsSubsequence(s', i, j);
        assert s'[i..j] == a;
        assert IsSubsequence(a, s');
      } else {
        SliceIsSubsequence(s', i, j - 1);
        assert a[|a| - 1] == s[|s| - 1];
        var front, rest := a[..|a| - 1], s'[i..j - 1];
        assert |front| == |rest| == j - 1 - i;
        forall m | 0 <= m < |front|
          ensures front[m] == rest[m]
        {
          assert front[m] == s[i + m];
          assert rest[m] == s[i + m];
        }
        assert front == rest;
        assert IsSubsequence(a[..|a| - 1], s');
      }
    }
  }
}
