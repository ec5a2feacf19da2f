/** Subsequences: what is left of a sequence after deleting some of its elements. */
module Subsequences {

  /** `a` is obtained from `b` by deleting zero or more elements. */
  predicate IsSubseq<T(==)>(a: seq<T>, b: seq<T>)
    decreases |b|
  {
    a == [] || (|b| > 0 && ((a[0] == b[0] && IsSubseq(a[1..], b[1..])) || IsSubseq(a, b[1..])))
  }

  lemma {:induction false} SubseqRefl<T>(s: seq<T>)
    ensures IsSubseq(s, s)
    decreases |s|
  {
    if s != [] {
      SubseqRefl(s[1..]);
    }
  }

  /** A subsequence is no longer than the sequence and draws all its elements from it. */
  lemma {:induction false} SubseqElements<T>(a: seq<T>, b: seq<T>)
    requires IsSubseq(a, b)
    ensures |a| <= |b|
    ensures forall x :: x in a ==> x in b
    decreases |b|
  {
    if a != [] {
      if a[0] == b[0] && IsSubseq(a[1..], b[1..]) {
        SubseqElements(a[1..], b[1..]);
        assert forall x :: x in a ==> x == a[0] || x in a[1..];
      } else {
        SubseqElements(a, b[1..]);
      }
    }
  }

  lemma {:induction false} SubseqTrans<T>(a: seq<T>, b: seq<T>, c: seq<T>)
    requires IsSubseq(a, b) && IsSubseq(b, c)
    ensures IsSubseq(a, c)
    decreases |c|
  {
    if a != [] {
      if IsSubseq(b, c[1..]) {
        SubseqTrans(a, b, c[1..]);
      } else if a[0] == b[0] && IsSubseq(a[1..], b[1..]) {
        SubseqTrans(a[1..], b[1..], c[1..]);
      } else {
        SubseqTrans(a, b[1..], c[1..]);
      }
    }
  }

  /** Deleting the first element of `b` keeps a subsequence of the result a subsequence of `b`. */
  lemma SubseqSkip<T>(a: seq<T>, b: seq<T>)
    requires |b| > 0 && IsSubseq(a, b[1..])
    ensures IsSubseq(a, b)
  {
  }

  /** Keeping the first element of `b`. */
  lemma SubseqKeep<T>(x: T, a: seq<T>, b: seq<T>)
    requires |b| > 0 && b[0] == x && IsSubseq(a, b[1..])
    ensures IsSubseq([x] + a, b)
  {
    assert ([x] + a)[1..] == a;
  }

  /** Deleting a prefix. */
  lemma {:induction false} SubseqDropPrefix<T>(a: seq<T>, b: seq<T>, k: nat)
    requires k <= |b| && IsSubseq(a, b[k..])
    ensures IsSubseq(a, b)
    decreases k
  {
    if k > 0 {
      assert b[1..][k - 1..] == b[k..];
      SubseqDropPrefix(a, b[1..], k - 1);
    }
  }

  /** Every suffix is a subsequence. */
  lemma SubseqSuffix<T>(b: seq<T>, k: nat)
    requires k <= |b|
    ensures IsSubseq(b[k..], b)
  {
    SubseqRefl(b[k..]);
    SubseqDropPrefix(b[k..], b, k);
  }

  /** Every prefix is a subsequence. */
  lemma {:induction false} SubseqPrefix<T>(b: seq<T>, k: nat)
    requires k <= |b|
    ensures IsSubseq(b[..k], b)
    decreases |b|
  {
    if k > 0 {
      SubseqPrefix(b[1..], k - 1);
      assert b[..k][1..] == b[1..][..k - 1];
    }
  }
}
