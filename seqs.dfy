/** Sequence vocabulary shared by the slot engine and the cart handlers. */
module Seqs {

  function Min(a: int, b: int): (m: int)
    ensures m <= a && m <= b
    ensures m == a || m == b
  {
    if a <= b then a else b
  }

  /** No value occurs twice in `s`. */
  ghost predicate Distinct<T>(s: seq<T>)
  {
    forall i, j :: 0 <= i < j < |s| ==> s[i] != s[j]
  }

  /** `xs` is obtained from `ys` by deleting elements, keeping the order of the rest. */
  ghost predicate IsSubsequence<T>(xs: seq<T>, ys: seq<T>)
    decreases |ys|
  {
    if xs == [] then true
    else if ys == [] then false
    else (xs[|xs| - 1] == ys[|ys| - 1] && IsSubsequence(xs[..|xs| - 1], ys[..|ys| - 1]))
         || IsSubsequence(xs, ys[..|ys| - 1])
  }

  /** Every element of a subsequence is an element of the whole sequence. */
  lemma {:induction false} SubsequenceMembers<T>(xs: seq<T>, ys: seq<T>, x: T)
    requires IsSubsequence(xs, ys)
    requires x in xs
    ensures x in ys
    decreases |ys|
  {
    var n := |ys|;
    if xs[|xs| - 1] == ys[n - 1] && IsSubsequence(xs[..|xs| - 1], ys[..n - 1]) {
      if x != xs[|xs| - 1] {
        assert xs == xs[..|xs| - 1] + [xs[|xs| - 1]];
        SubsequenceMembers(xs[..|xs| - 1], ys[..n - 1], x);
      }
    } else {
      SubsequenceMembers(xs, ys[..n - 1], x);
    }
  }

  /** Keeping (or dropping) the last element of `ys` extends a subsequence of its prefix. */
  lemma {:induction false} SubsequenceSnoc<T>(xs: seq<T>, ys: seq<T>, y: T, keep: bool)
    requires IsSubsequence(xs, ys)
    ensures IsSubsequence(if keep then xs + [y] else xs, ys + [y])
  {
  }

  /** `s` without its element at index `j`. */
  function RemoveAt<T>(s: seq<T>, j: nat): seq<T>
    requires j < |s|
  {
    s[..j] + s[j + 1..]
  }

  /** Removing one element takes exactly that element out of the multiset and keeps distinctness. */
  lemma RemoveAtProperties<T>(s: seq<T>, j: nat)
    requires j < |s|
    ensures |RemoveAt(s, j)| == |s| - 1
    ensures multiset(RemoveAt(s, j)) + multiset{s[j]} == multiset(s)
    ensures forall x :: x in RemoveAt(s, j) ==> x in s
    ensures Distinct(s) ==> Distinct(RemoveAt(s, j)) && s[j] !in RemoveAt(s, j)
  {
    var r := RemoveAt(s, j);
    assert s == s[..j] + [s[j]] + s[j + 1..];
    forall a | 0 <= a < |r|
      ensures r[a] == s[if a < j then a else a + 1]
    {
    }
  }
}
