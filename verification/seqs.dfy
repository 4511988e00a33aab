/** Generic facts about sequences: projections, subsequences, distinctness. */
module Seqs {
  /** The first components of a list of pairs, in order. */
  function Firsts<A, B>(pairs: seq<(A, B)>): (firsts: seq<A>)
    ensures |firsts| == |pairs|
    ensures forall i :: 0 <= i < |pairs| ==> firsts[i] == pairs[i].0
  {
    seq(|pairs|, i requires 0 <= i < |pairs| => pairs[i].0)
  }

  /** `xs` occurs in `ys` in the same order, possibly with gaps. */
  predicate IsSubsequence<T(==)>(xs: seq<T>, ys: seq<T>)
    decreases |ys|
  {
    |xs| == 0 || (|ys| > 0 && (if xs[0] == ys[0] then IsSubsequence(xs[1..], ys[1..]) else IsSubsequence(xs, ys[1..])))
  }

  lemma {:induction false} SubsequenceDropHead<T>(xs: seq<T>, ys: seq<T>)
    requires |xs| > 0 && IsSubsequence(xs, ys)
    ensures IsSubsequence(xs[1..], ys)
    decreases |ys|, 0
  {
    if xs[0] == ys[0] {
      if |xs| > 1 {
        SubsequenceDropHead(xs[1..], ys[1..]);
        assert xs[1..][1..] == xs[2..];
        SubsequenceSkip(ys[0], xs[1..], ys[1..]);
        assert [ys[0]] + ys[1..] == ys;
      }
    } else {
      SubsequenceDropHead(xs, ys[1..]);
      SubsequenceSkip(ys[0], xs[1..], ys[1..]);
      assert [ys[0]] + ys[1..] == ys;
    }
  }

  /** Prepending an element to the longer list keeps a subsequence. */
  lemma {:induction false} SubsequenceSkip<T>(y: T, xs: seq<T>, ys: seq<T>)
    requires IsSubsequence(xs, ys)
    ensures IsSubsequence(xs, [y] + ys)
    decreases |ys|, 1
  {
    assert ([y] + ys)[1..] == ys;
    if |xs| > 0 && xs[0] == y {
      SubsequenceDropHead(xs, ys);
    }
  }

  /** Prepending the same element to both lists keeps a subsequence. */
  lemma SubsequenceCons<T>(y: T, xs: seq<T>, ys: seq<T>)
    requires IsSubsequence(xs, ys)
    ensures IsSubsequence([y] + xs, [y] + ys)
  {
    assert ([y] + xs)[1..] == xs && ([y] + ys)[1..] == ys;
  }

  /** No element occurs twice in a list. */
  predicate Distinct<T(==)>(xs: seq<T>)
  {
    forall i, j :: 0 <= i < j < |xs| ==> xs[i] != xs[j]
  }

  /** A subsequence of a duplicate-free list is duplicate-free. */
  lemma {:induction false} SubsequenceDistinct<T>(xs: seq<T>, ys: seq<T>)
    requires IsSubsequence(xs, ys) && Distinct(ys)
    ensures Distinct(xs)
    ensures forall x :: x in xs ==> x in ys
    decreases |ys|
  {
    if |xs| > 0 {
      var tail := ys[1..];
      assert Distinct(tail) by {
        forall i, j | 0 <= i < j < |tail| ensures tail[i] != tail[j] {
          assert tail[i] == ys[i + 1] && tail[j] == ys[j + 1];
        }
      }
      assert forall x :: x in tail ==> x in ys;
      if xs[0] == ys[0] {
        SubsequenceDistinct(xs[1..], tail);
        forall i, j | 0 <= i < j < |xs| ensures xs[i] != xs[j] {
          assert xs[j] == xs[1..][j - 1];
          if i > 0 {
            assert xs[i] == xs[1..][i - 1];
          } else {
            assert xs[1..][j - 1] in xs[1..];
            assert xs[j] in tail;
            var k :| 0 <= k < |tail| && tail[k] == xs[j];
            assert ys[k + 1] == xs[j];
          }
        }
        forall x | x in xs ensures x in ys {
          if x != xs[0] {
            var k :| 0 <= k < |xs| && xs[k] == x;
            assert xs[1..][k - 1] == x;
          }
        }
      } else {
        SubsequenceDistinct(xs, tail);
      }
    }
  }

  /** The prefix of length `i + 1` is the prefix of length `i` followed by the element at `i`. */
  lemma PrefixSnoc<T>(xs: seq<T>, i: nat)
    requires i < |xs|
    ensures xs[..i + 1] == xs[..i] + [xs[i]]
  {
  }

  /** Two non-empty sequences with the same head and the same tail are equal. */
  lemma SameHeadAndTail<T>(a: seq<T>, b: seq<T>)
    requires |a| > 0 && |b| > 0 && a[0] == b[0] && a[1..] == b[1..]
    ensures a == b
  {
    assert a == [a[0]] + a[1..];
    assert b == [b[0]] + b[1..];
  }
}
