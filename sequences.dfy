/**
 * Positional operations on sequences: the row and column renumbering that
 * the result set performs when a row or column is deleted, inserted or moved.
 * All indices here are 0-based.
 */
module Sequences {

  function DeleteAt<T>(s: seq<T>, k: nat): (r: seq<T>)
    requires k < |s|
    ensures |r| == |s| - 1
    ensures forall j :: 0 <= j < k ==> r[j] == s[j]
    ensures forall j :: k <= j < |r| ==> r[j] == s[j + 1]
  {
    s[..k] + s[k + 1..]
  }

  function InsertAt<T>(s: seq<T>, k: nat, x: T): (r: seq<T>)
    requires k <= |s|
    ensures |r| == |s| + 1 && r[k] == x
    ensures forall j :: 0 <= j < k ==> r[j] == s[j]
    ensures forall j :: k < j < |r| ==> r[j] == s[j - 1]
  {
    s[..k] + [x] + s[k..]
  }

  /** Take the element at `from` out and put it back in at `to`. */
  function Move<T>(s: seq<T>, from: nat, to: nat): seq<T>
    requires from < |s| && to < |s|
  {
    InsertAt(DeleteAt(s, from), to, s[from])
  }

  /** The index of the original element that ends up at k after Move(_, from, to). */
  function MoveSource(from: nat, to: nat, k: nat): nat
  {
    if k == to then from
    else if from < to && from <= k < to then k + 1
    else if to < from && to < k <= from then k - 1
    else k
  }

  lemma MoveAt<T>(s: seq<T>, from: nat, to: nat, k: nat)
    requires from < |s| && to < |s| && k < |s|
    ensures |Move(s, from, to)| == |s|
    ensures MoveSource(from, to, k) < |s| && Move(s, from, to)[k] == s[MoveSource(from, to, k)]
  {
  }

  /** Moving leaves every position before both ends alone. */
  lemma MoveKeepsPrefix<T>(s: seq<T>, from: nat, to: nat)
    requires to <= from < |s|
    ensures Move(s, from, to)[..to] == s[..to]
  {
  }

  lemma MoveMultiset<T>(s: seq<T>, from: nat, to: nat)
    requires from < |s| && to < |s|
    ensures multiset(Move(s, from, to)) == multiset(s)
  {
    var d := DeleteAt(s, from);
    assert s == s[..from] + [s[from]] + s[from + 1..];
    assert multiset(d) + multiset{s[from]} == multiset(s);
    assert d == d[..to] + d[to..];
  }

  /** Keep the elements whose flag is set, in their original order. */
  function Mask<T>(s: seq<T>, keep: seq<bool>): (r: seq<T>)
    requires |s| == |keep|
    ensures |r| <= |s|
  {
    if s == [] then []
    else Mask(s[..|s| - 1], keep[..|s| - 1]) + (if keep[|s| - 1] then [s[|s| - 1]] else [])
  }

  function CountTrue(keep: seq<bool>): nat
  {
    if keep == [] then 0 else CountTrue(keep[..|keep| - 1]) + (if keep[|keep| - 1] then 1 else 0)
  }

  lemma {:induction false} MaskLength<T>(s: seq<T>, keep: seq<bool>)
    requires |s| == |keep|
    ensures |Mask(s, keep)| == CountTrue(keep)
  {
    if s != [] {
      MaskLength(s[..|s| - 1], keep[..|s| - 1]);
    }
  }

  /** Masking a prefix one element longer appends that element if it is kept. */
  lemma MaskSnoc<T>(s: seq<T>, keep: seq<bool>, i: nat)
    requires |s| == |keep| && i < |s|
    ensures Mask(s[..i + 1], keep[..i + 1]) == Mask(s[..i], keep[..i]) + (if keep[i] then [s[i]] else [])
  {
    assert s[..i + 1][..i] == s[..i];
    assert keep[..i + 1][..i] == keep[..i];
  }

  /** The position in s of the j-th kept element. */
  function KeptIndex(keep: seq<bool>, j: nat): (k: nat)
    requires j < CountTrue(keep)
    ensures k < |keep| && keep[k]
  {
    var n := |keep| - 1;
    if j < CountTrue(keep[..n]) then
      var k := KeptIndex(keep[..n], j);
      assert keep[..n][k] == keep[k];
      k
    else n
  }

  lemma {:induction false} MaskAt<T>(s: seq<T>, keep: seq<bool>, j: nat)
    requires |s| == |keep| && j < CountTrue(keep)
    ensures |Mask(s, keep)| == CountTrue(keep)
    ensures Mask(s, keep)[j] == s[KeptIndex(keep, j)]
  {
    MaskLength(s, keep);
    var n := |s| - 1;
    MaskLength(s[..n], keep[..n]);
    if j < CountTrue(keep[..n]) {
      MaskAt(s[..n], keep[..n], j);
    }
  }

  /** An element survives a mask exactly when some kept position holds it. */
  lemma {:induction false} MaskMembers<T>(s: seq<T>, keep: seq<bool>, x: T)
    requires |s| == |keep|
    ensures x in Mask(s, keep) <==> exists k :: 0 <= k < |s| && keep[k] && s[k] == x
  {
    if s != [] {
      var n := |s| - 1;
      MaskMembers(s[..n], keep[..n], x);
      if x in Mask(s[..n], keep[..n]) {
        var k :| 0 <= k < n && keep[..n][k] && s[..n][k] == x;
        assert keep[k] && s[k] == x;
      }
      if exists k :: 0 <= k < |s| && keep[k] && s[k] == x {
        var k :| 0 <= k < |s| && keep[k] && s[k] == x;
        if k < n {
          assert keep[..n][k] && s[..n][k] == x;
        }
      }
    }
  }

  /** A mask that keeps everything keeps the sequence as it is. */
  lemma {:induction false} MaskAll<T>(s: seq<T>, keep: seq<bool>)
    requires |s| == |keep| && forall k :: 0 <= k < |keep| ==> keep[k]
    ensures Mask(s, keep) == s
  {
    if s != [] {
      MaskAll(s[..|s| - 1], keep[..|s| - 1]);
    }
  }

  /** Masking a concatenation masks each part with its own flags. */
  lemma {:induction false} MaskAppend<T>(a: seq<T>, fa: seq<bool>, b: seq<T>, fb: seq<bool>)
    requires |a| == |fa| && |b| == |fb|
    ensures Mask(a + b, fa + fb) == Mask(a, fa) + Mask(b, fb)
    decreases |b|
  {
    if b == [] {
      assert a + b == a && fa + fb == fa;
    } else {
      var n := |b| - 1;
      MaskAppend(a, fa, b[..n], fb[..n]);
      assert (a + b)[..|a| + n] == a + b[..n];
      assert (fa + fb)[..|a| + n] == fa + fb[..n];
    }
  }

  /** Masking from position i on: the element at i, if kept, then the mask of the rest. */
  lemma MaskFrom<T>(s: seq<T>, keep: seq<bool>, i: nat)
    requires |s| == |keep| && i < |s|
    ensures Mask(s[i..], keep[i..]) == (if keep[i] then [s[i]] else []) + Mask(s[i + 1..], keep[i + 1..])
  {
    assert s[i..] == [s[i]] + s[i + 1..];
    assert keep[i..] == [keep[i]] + keep[i + 1..];
    MaskAppend([s[i]], [keep[i]], s[i + 1..], keep[i + 1..]);
    assert Mask([s[i]], [keep[i]]) == Mask([s[i]][..0], [keep[i]][..0]) + (if keep[i] then [s[i]] else []);
  }

  /** The first i elements masked, the rest as they were. */
  function MaskedUpTo<T>(s: seq<T>, keep: seq<bool>, i: nat): seq<T>
    requires |s| == |keep| && i <= |s|
  {
    Mask(s[..i], keep[..i]) + s[i..]
  }

  /** Masking one more element: a kept one stays where it is, a dropped one is deleted at the current position. */
  lemma MaskedUpToStep<T>(s: seq<T>, keep: seq<bool>, i: nat)
    requires |s| == |keep| && i < |s|
    ensures |Mask(s[..i], keep[..i])| < |MaskedUpTo(s, keep, i)|
    ensures MaskedUpTo(s, keep, i)[|Mask(s[..i], keep[..i])|] == s[i]
    ensures keep[i] ==> MaskedUpTo(s, keep, i + 1) == MaskedUpTo(s, keep, i)
    ensures !keep[i] ==> MaskedUpTo(s, keep, i + 1) == DeleteAt(MaskedUpTo(s, keep, i), |Mask(s[..i], keep[..i])|)
  {
    MaskSnoc(s, keep, i);
    assert s[i..] == [s[i]] + s[i + 1..];
  }

  lemma MaskedUpToAll<T>(s: seq<T>, keep: seq<bool>)
    requires |s| == |keep|
    ensures MaskedUpTo(s, keep, |s|) == Mask(s, keep)
  {
    assert s[..|s|] == s && keep[..|s|] == keep;
  }

  lemma MaskedUpToNone<T>(s: seq<T>, keep: seq<bool>)
    requires |s| == |keep|
    ensures MaskedUpTo(s, keep, 0) == s
  {
    assert s[0..] == s;
  }

  /** Kept elements come out in the order they had: KeptIndex is strictly increasing. */
  lemma {:induction false} KeptIndexIncreasing(keep: seq<bool>, j1: nat, j2: nat)
    requires j1 < j2 < CountTrue(keep)
    ensures KeptIndex(keep, j1) < KeptIndex(keep, j2)
  {
    var n := |keep| - 1;
    if j2 < CountTrue(keep[..n]) {
      KeptIndexIncreasing(keep[..n], j1, j2);
    }
  }

  /** 0, 1, ..., n - 1 */
  function Iota(n: nat): (r: seq<nat>)
    ensures |r| == n && forall k :: 0 <= k < n ==> r[k] == k
  {
    seq(n, k => k)
  }

  /** p lists each of 0 .. n - 1 exactly once. */
  ghost predicate IsPermutation(p: seq<nat>, n: nat)
  {
    multiset(p) == multiset(Iota(n))
  }

  lemma PermutationBounds(p: seq<nat>, n: nat)
    requires IsPermutation(p, n)
    ensures |p| == n && forall k :: 0 <= k < |p| ==> p[k] < n
  {
    assert |multiset(p)| == |multiset(Iota(n))|;
    forall k | 0 <= k < |p|
      ensures p[k] < n
    {
      assert p[k] in multiset(Iota(n));
      var j :| 0 <= j < n && Iota(n)[j] == p[k];
    }
  }

  /** Every index below n appears somewhere in a permutation of 0 .. n - 1. */
  lemma PermutationCovers(p: seq<nat>, n: nat, k: nat)
    requires IsPermutation(p, n) && k < n
    ensures exists q :: 0 <= q < |p| && p[q] == k
  {
    assert Iota(n)[k] == k;
    assert k in multiset(Iota(n));
    assert k in multiset(p);
  }

  /** Each of 0 .. n - 1 occurs once in Iota(n), and nothing else occurs. */
  lemma {:induction false} IotaCount(n: nat, x: nat)
    ensures multiset(Iota(n))[x] == if x < n then 1 else 0
  {
    if n > 0 {
      assert Iota(n) == Iota(n - 1) + [n - 1];
      IotaCount(n - 1, x);
    }
  }

  /** A permutation lists no index twice. */
  lemma PermutationInjective(p: seq<nat>, n: nat, q1: nat, q2: nat)
    requires IsPermutation(p, n) && q1 < q2 < |p|
    ensures p[q1] != p[q2]
  {
    if p[q1] == p[q2] {
      var x := p[q2];
      assert p == p[..q2] + [x] + p[q2 + 1..];
      assert p[..q2][q1] == x;
      assert multiset(p)[x] == multiset(p[..q2])[x] + 1 + multiset(p[q2 + 1..])[x];
      IotaCount(n, x);
      assert false;
    }
  }

  /** The element at k of Permute(s, p) is the element at p[k] of s. */
  function Permute<T>(s: seq<T>, p: seq<nat>): (r: seq<T>)
    requires forall k :: 0 <= k < |p| ==> p[k] < |s|
    ensures |r| == |p| && forall k :: 0 <= k < |p| ==> r[k] == s[p[k]]
  {
    seq(|p|, k requires 0 <= k < |p| => s[p[k]])
  }

  /** Moving an element of a permuted sequence is permuting by the moved permutation. */
  lemma MovePermute<T>(s: seq<T>, p: seq<nat>, from: nat, to: nat)
    requires forall k :: 0 <= k < |p| ==> p[k] < |s|
    requires from < |p| && to < |p|
    ensures forall k :: 0 <= k < |p| ==> Move(p, from, to)[k] < |s|
    ensures Move(Permute(s, p), from, to) == Permute(s, Move(p, from, to))
  {
    forall k | 0 <= k < |p|
      ensures Move(p, from, to)[k] < |s|
      ensures Move(Permute(s, p), from, to)[k] == s[Move(p, from, to)[k]]
    {
      MoveAt(p, from, to, k);
      MoveAt(Permute(s, p), from, to, k);
    }
    MoveAt(p, from, to, 0);
    MoveAt(Permute(s, p), from, to, 0);
  }

  lemma PermuteIota<T>(s: seq<T>)
    ensures Permute(s, Iota(|s|)) == s
  {
  }
}
