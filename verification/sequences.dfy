/**
 * Generic facts about sequences used by the filter and the sort:
 * order-preserving subsequences, duplicate-freedom and projections.
 */
module Sequences {

  /** `xs` can be obtained from `ys` by deleting elements, keeping the order of the rest. */
  predicate Subseq<T(==)>(xs: seq<T>, ys: seq<T>)
    decreases |ys|
  {
    xs == [] ||
    (ys != [] &&
      ((xs[0] == ys[0] && Subseq(xs[1..], ys[1..])) || Subseq(xs, ys[1..])))
  }

  /** No value occurs twice. */
  predicate NoDuplicates<T(==)>(s: seq<T>) {
    forall i, j :: 0 <= i < j < |s| ==> s[i] != s[j]
  }

  lemma {:induction false} SubseqRefl<T>(s: seq<T>)
    ensures Subseq(s, s)
    decreases |s|
  {
    if s != [] {
      SubseqRefl(s[1..]);
    }
  }

  lemma {:induction false} SubseqOfEmpty<T>(xs: seq<T>)
    requires Subseq(xs, [])
    ensures xs == []
  {
  }

  /** Deleting elements twice is deleting elements once. */
  lemma {:induction false} SubseqTrans<T>(xs: seq<T>, ys: seq<T>, zs: seq<T>)
    requires Subseq(xs, ys) && Subseq(ys, zs)
    ensures Subseq(xs, zs)
    decreases |zs|
  {
    if xs == [] {
    } else if ys == [] {
      SubseqOfEmpty(xs);
    } else if ys[0] == zs[0] && Subseq(ys[1..], zs[1..]) {
      if xs[0] == ys[0] && Subseq(xs[1..], ys[1..]) {
        SubseqTrans(xs[1..], ys[1..], zs[1..]);
      } else {
        SubseqTrans(xs, ys[1..], zs[1..]);
      }
    } else {
      SubseqTrans(xs, ys, zs[1..]);
    }
  }

  lemma {:induction false} SubseqLength<T>(xs: seq<T>, ys: seq<T>)
    requires Subseq(xs, ys)
    ensures |xs| <= |ys|
    decreases |ys|
  {
    if xs != [] {
      if xs[0] == ys[0] && Subseq(xs[1..], ys[1..]) {
        SubseqLength(xs[1..], ys[1..]);
      } else {
        SubseqLength(xs, ys[1..]);
      }
    }
  }

  /** A subsequence as long as the sequence it was taken from is that sequence. */
  lemma {:induction false} SubseqFull<T>(xs: seq<T>, ys: seq<T>)
    requires Subseq(xs, ys) && |xs| == |ys|
    ensures xs == ys
    decreases |ys|
  {
    if xs != [] {
      if xs[0] == ys[0] && Subseq(xs[1..], ys[1..]) {
        SubseqFull(xs[1..], ys[1..]);
        assert xs == [xs[0]] + xs[1..] && ys == [ys[0]] + ys[1..];
      } else {
        SubseqLength(xs, ys[1..]);
      }
    }
  }

  /** Every element of a subsequence is an element of the sequence it was taken from. */
  lemma {:induction false} SubseqMembers<T>(xs: seq<T>, ys: seq<T>)
    requires Subseq(xs, ys)
    ensures forall x :: x in xs ==> x in ys
    decreases |ys|
  {
    if xs == [] {
    } else if xs[0] == ys[0] && Subseq(xs[1..], ys[1..]) {
      SubseqMembers(xs[1..], ys[1..]);
      forall x | x in xs ensures x in ys {
        if x != xs[0] {
          assert x in xs[1..];
        }
      }
    } else {
      SubseqMembers(xs, ys[1..]);
    }
  }

  /** A subsequence of a duplicate-free sequence is duplicate-free. */
  lemma {:induction false} SubseqNoDuplicates<T>(xs: seq<T>, ys: seq<T>)
    requires Subseq(xs, ys) && NoDuplicates(ys)
    ensures NoDuplicates(xs)
    decreases |ys|
  {
    if xs == [] {
    } else if xs[0] == ys[0] && Subseq(xs[1..], ys[1..]) {
      assert NoDuplicates(ys[1..]) by {
        forall i, j | 0 <= i < j < |ys[1..]| ensures ys[1..][i] != ys[1..][j] {
          assert ys[1..][i] == ys[i + 1] && ys[1..][j] == ys[j + 1];
        }
      }
      SubseqNoDuplicates(xs[1..], ys[1..]);
      SubseqMembers(xs[1..], ys[1..]);
      forall i, j | 0 <= i < j < |xs| ensures xs[i] != xs[j] {
        if i == 0 {
          assert xs[j] in xs[1..] by { assert xs[j] == xs[1..][j - 1]; }
          assert xs[j] in ys[1..];
          var k :| 0 <= k < |ys[1..]| && ys[1..][k] == xs[j];
          assert ys[k + 1] == xs[j];
        } else {
          assert xs[i] == xs[1..][i - 1] && xs[j] == xs[1..][j - 1];
        }
      }
    } else {
      assert NoDuplicates(ys[1..]) by {
        forall i, j | 0 <= i < j < |ys[1..]| ensures ys[1..][i] != ys[1..][j] {
          assert ys[1..][i] == ys[i + 1] && ys[1..][j] == ys[j + 1];
        }
      }
      SubseqNoDuplicates(xs, ys[1..]);
    }
  }

  /** Taking the element at `j` out of a sequence takes one copy of it out of its multiset. */
  lemma RemoveAt<T>(s: seq<T>, j: nat)
    requires j < |s|
    ensures multiset(s[..j] + s[j + 1..]) == multiset(s) - multiset{s[j]}
  {
    assert s == s[..j] + [s[j]] + s[j + 1..];
  }

  /**
   * Taking the first element of `a` out of `a`, and one copy of it out of a
   * rearrangement `b`, leaves two rearrangements of each other.
   */
  lemma RemoveMatching<T>(a: seq<T>, b: seq<T>, j: nat)
    requires multiset(a) == multiset(b) && a != []
    requires j < |b| && b[j] == a[0]
    ensures multiset(a[1..]) == multiset(b[..j] + b[j + 1..])
  {
    RemoveAt(b, j);
    assert a == [a[0]] + a[1..];
    assert multiset(a) == multiset{a[0]} + multiset(a[1..]);
  }
}
