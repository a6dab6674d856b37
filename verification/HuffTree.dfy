/** Code lengths from the counts of the symbols: the two-queue construction of a Huffman tree. */
module HuffTree {
  import opened Bits
  import opened Counting

  // ----- a tree given by parents -----

  predicate Rising(p: seq<nat>) { forall a, b :: 0 <= a < b < |p| ==> p[a] <= p[b] }

  /**
   The parents of the inner nodes, in the order of their creation, and of the leaves, in the order in which they found one.
   Parents come later than their children, in order, and every inner node has two children.
   */
  predicate Parents(pI: seq<nat>, pL: seq<nat>)
  {
    && |pL| == |pI| + 2
    && Rising(pI) && Rising(pL)
    && (forall j :: 0 <= j < |pI| ==> j < pI[j] <= |pI|)
    && (forall k :: 0 <= k < |pL| ==> pL[k] <= |pI|)
    && (forall t: nat :: t <= |pI| ==> Count(pI, t) + Count(pL, t) == 2)
  }

  /** The depth of an inner node; the last one is the root. */
  function Depth(pI: seq<nat>, j: nat): (d: nat)
    requires j <= |pI| && forall k :: 0 <= k < |pI| ==> k < pI[k] <= |pI|
    ensures d <= |pI| - j
    decreases |pI| - j
  {
    if j == |pI| then 0 else Depth(pI, pI[j]) + 1
  }

  /** The depth of the k-th leaf. */
  function LeafDepth(pI: seq<nat>, pL: seq<nat>, k: nat): nat
    requires Parents(pI, pL) && k < |pL|
  {
    Depth(pI, pL[k]) + 1
  }

  lemma {:induction false} DepthFalls(pI: seq<nat>, a: nat, b: nat)
    requires a <= b <= |pI| && Rising(pI) && forall k :: 0 <= k < |pI| ==> k < pI[k] <= |pI|
    ensures Depth(pI, a) >= Depth(pI, b)
    decreases |pI| - a
  {
    if a < b && b < |pI| { DepthFalls(pI, pI[a], pI[b]); }
  }

  /** The share of a depth, out of 2^l. */
  function Share(l: nat, d: nat): nat { if d <= l then Pow2(l - d) else 0 }

  /** The shares of the depths listed. */
  function Shares(l: nat, ds: seq<nat>): nat
  {
    if ds == [] then 0 else Shares(l, ds[..|ds| - 1]) + Share(l, ds[|ds| - 1])
  }

  /** The sum of g over the entries of p. */
  function SumAt(p: seq<nat>, g: seq<nat>): nat
    requires forall k :: 0 <= k < |p| ==> p[k] < |g|
  {
    if p == [] then 0 else SumAt(p[..|p| - 1], g) + g[p[|p| - 1]]
  }

  /** Sum over t below n of how often t occurs in p, times g at t. */
  function SumTimes(p: seq<nat>, g: seq<nat>, n: nat): nat
    requires n <= |g|
  {
    if n == 0 then 0 else SumTimes(p, g, n - 1) + Count(p, n - 1) * g[n - 1]
  }

  lemma {:induction false} SumCountSnoc(p: seq<nat>, x: nat, g: seq<nat>, n: nat)
    requires n <= |g|
    ensures SumTimes(p + [x], g, n) == SumTimes(p, g, n) + if x < n then g[x] else 0
    decreases n
  {
    hide Count;
    if n > 0 {
      SumCountSnoc(p, x, g, n - 1);
      CountSnoc(p, x, n - 1);
      OneMoreTime(Count(p, n - 1), Count(p + [x], n - 1), g[n - 1]);
    }
  }

  lemma OneMoreTime(k: nat, k': nat, g: nat)
    ensures k' == k + 1 ==> k' * g == k * g + g
    ensures k' == k ==> k' * g == k * g
  {
    MulDifference(k + 1, k, g);
  }

  lemma {:induction false} SumTimesNone(g: seq<nat>, n: nat)
    requires n <= |g|
    ensures SumTimes([], g, n) == 0
    decreases n
  {
    if n > 0 { SumTimesNone(g, n - 1); }
  }

  lemma {:induction false} CountTwice(p: seq<nat>, g: seq<nat>)
    requires forall k :: 0 <= k < |p| ==> p[k] < |g|
    ensures SumAt(p, g) == SumTimes(p, g, |g|)
    decreases |p|
  {
    if p == [] {
      SumTimesNone(g, |g|);
    } else {
      CountTwice(p[..|p| - 1], g);
      SumCountSnoc(p[..|p| - 1], p[|p| - 1], g, |g|);
      assert p[..|p| - 1] + [p[|p| - 1]] == p;
    }
  }

  lemma {:induction false} BothTwice(a: seq<nat>, b: seq<nat>, g: seq<nat>, n: nat)
    requires n <= |g| && forall t: nat :: t < n ==> Count(a, t) + Count(b, t) == 2
    ensures SumTimes(a, g, n) + SumTimes(b, g, n) == 2 * Sum(g, n)
    decreases n
  {
    if n > 0 {
      BothTwice(a, b, g, n - 1);
      TwoParts(Count(a, n - 1), Count(b, n - 1), g[n - 1]);
    }
  }

  lemma TwoParts(a: nat, b: nat, g: nat)
    requires a + b == 2
    ensures a * g + b * g == 2 * g
  {
    assert (a + b) * g == a * g + b * g;
  }

  function ChildShare(l: nat, pI: seq<nat>, t: nat): nat
    requires t <= |pI| && forall k :: 0 <= k < |pI| ==> k < pI[k] <= |pI|
  {
    Share(l, Depth(pI, t) + 1)
  }

  /** The shares of the inner nodes' children. */
  function ChildShares(l: nat, pI: seq<nat>): (g: seq<nat>)
    requires forall k :: 0 <= k < |pI| ==> k < pI[k] <= |pI|
    ensures |g| == |pI| + 1 && forall t :: 0 <= t <= |pI| ==> g[t] == ChildShare(l, pI, t)
  {
    seq(|pI| + 1, t requires 0 <= t <= |pI| => ChildShare(l, pI, t))
  }

  function LeafDepths(pI: seq<nat>, pL: seq<nat>): (ds: seq<nat>)
    requires Parents(pI, pL)
    ensures |ds| == |pL| && forall k :: 0 <= k < |pL| ==> ds[k] == LeafDepth(pI, pL, k)
  {
    seq(|pL|, k requires 0 <= k < |pL| => LeafDepth(pI, pL, k))
  }

  lemma {:induction false} LeafShares(l: nat, pI: seq<nat>, pL: seq<nat>, n: nat)
    requires Parents(pI, pL) && n <= |pL|
    ensures SumAt(pL[..n], ChildShares(l, pI)) == Shares(l, LeafDepths(pI, pL)[..n])
    decreases n
  {
    if n > 0 {
      LeafShares(l, pI, pL, n - 1);
      assert pL[..n][..n - 1] == pL[..n - 1] && LeafDepths(pI, pL)[..n][..n - 1] == LeafDepths(pI, pL)[..n - 1];
    }
  }

  lemma ChildHalf(l: nat, pI: seq<nat>, j: nat)
    requires (forall k :: 0 <= k < |pI| ==> k < pI[k] <= |pI|) && j < |pI| && l > |pI|
    ensures 2 * ChildShares(l, pI)[j] == ChildShares(l, pI)[pI[j]]
  {
    hide Pow2;
    Pow2Next(l - Depth(pI, j) - 1);
  }

  /** Every node but the root hands its share up; together with the root's they are twice the children's shares. */
  lemma {:induction false} InnerShares(l: nat, pI: seq<nat>, pL: seq<nat>, n: nat)
    requires Parents(pI, pL) && n <= |pI| && l > |pI|
    ensures 2 * Sum(ChildShares(l, pI), n) == SumAt(pI[..n], ChildShares(l, pI))
    decreases n
  {
    if n > 0 {
      var g := ChildShares(l, pI);
      InnerShares(l, pI, pL, n - 1);
      assert pI[..n][..n - 1] == pI[..n - 1];
      ChildHalf(l, pI, n - 1);
    }
  }

  /** The shares of the leaves are the whole: the lengths satisfy Kraft's equation exactly. */
  lemma KraftExact(l: nat, pI: seq<nat>, pL: seq<nat>)
    requires Parents(pI, pL) && l > |pI|
    ensures Shares(l, LeafDepths(pI, pL)) == Pow2(l)
  {
    hide Pow2, Share, Count, Depth;
    var g, n := ChildShares(l, pI), |pI|;
    InnerShares(l, pI, pL, n);
    LeafShares(l, pI, pL, |pL|);
    assert pI[..n] == pI && pL[..|pL|] == pL && LeafDepths(pI, pL)[..|pL|] == LeafDepths(pI, pL);
    CountTwice(pI, g);
    CountTwice(pL, g);
    BothTwice(pI, pL, g, n + 1);
    RootShare(l, pI);
    Pow2Next(l - 1);
  }

  lemma RootShare(l: nat, pI: seq<nat>)
    requires l >= 1 && forall k :: 0 <= k < |pI| ==> k < pI[k] <= |pI|
    ensures ChildShares(l, pI)[|pI|] == Pow2(l - 1)
  {
  }
}
