/** Building the Huffman tree in an array of nodes: leaves by falling count, inner nodes behind them. */
module HuffBuild {
  import opened Bits
  import opened Counting
  import opened HuffTree
  import opened HuffOptimal
  import opened HuffForest

  /** A node of the array: its count, the index of its parent, a leaf's symbol, and its depth. */
  datatype NodeElt = NodeElt(count: nat, parent: nat, symbol: nat, nbBits: nat)

  /** More than any count; and more than that, in front of the first leaf. */
  const BARRIER: nat := 0x4000_0000
  const SENTINEL: nat := 0x8000_0000

  /** The counts of the nodes from a to b - 1; node i is kept at i + 1. */
  function SumNodes(ns: seq<NodeElt>, a: nat, b: nat): nat
    requires b < |ns|
    decreases b
  {
    if a >= b then 0 else SumNodes(ns, a, b - 1) + ns[b].count
  }

  lemma {:induction false} NodesFront(ns: seq<NodeElt>, a: nat, b: nat)
    requires a < b < |ns|
    ensures SumNodes(ns, a, b) == ns[a + 1].count + SumNodes(ns, a + 1, b)
    decreases b
  {
    if a + 1 < b { NodesFront(ns, a, b - 1); }
  }

  lemma {:induction false} SumSame(ns: seq<NodeElt>, ns': seq<NodeElt>, a: nat, b: nat)
    requires b < |ns| == |ns'| && forall i :: a < i <= b ==> ns'[i].count == ns[i].count
    ensures SumNodes(ns', a, b) == SumNodes(ns, a, b)
    decreases b
  {
    if a < b { SumSame(ns, ns', a, b - 1); }
  }

  /** The leaves up to lowS and the inner nodes from lowN on have no parent yet. */
  datatype Queues = Queues(nodeNb: nat, lowS: int, lowN: nat)

  /** What the array says while the tree grows: s is the index of the first inner node, pI and pL are the parents given so far. */
  ghost predicate Grows(ns: seq<NodeElt>, counts: seq<nat>, s: nat, q: Queues, pI: seq<nat>, pL: seq<nat>)
  {
    && 2 <= |counts| <= s && |ns| >= s + |counts|
    && s < q.nodeNb <= s + |counts| - 1 && -1 <= q.lowS < |counts| && s <= q.lowN <= q.nodeNb
    && |pI| == q.lowN - s && |pL| == |counts| - 1 - q.lowS
    && ns[0].count == SENTINEL
    && (forall i :: 0 <= i < |counts| ==> ns[i + 1].count == counts[i])
    && (forall i :: q.nodeNb < i <= s + |counts| - 1 ==> ns[i].count == BARRIER)
    && (forall k :: 0 <= k < |pI| ==> ns[s + k + 1].parent == s + pI[k])
    && (forall k :: 0 <= k < |pL| ==> ns[|counts| - k].parent == s + pL[k])
  }

  /** The parents given so far, c nodes having got their children, and perhaps node c some of them. */
  ghost predicate Given(pI: seq<nat>, pL: seq<nat>, c: nat, some: nat)
  {
    && |pI| + |pL| == 2 * c + some && some <= 2
    && Rising(pI) && Rising(pL)
    && (forall j :: 0 <= j < |pI| ==> j < pI[j] <= c)
    && (forall k :: 0 <= k < |pL| ==> pL[k] <= c)
    && (forall t: nat :: t < c ==> Count(pI, t) + Count(pL, t) == 2)
    && Count(pI, c) + Count(pL, c) == some
    && (forall t: nat :: t > c ==> Count(pI, t) + Count(pL, t) == 0)
  }

  /** The nodes name their parents; the leaves found theirs from the last to the first. */
  ghost predicate Linked(ns: seq<NodeElt>, s: nat, n: nat, pI: seq<nat>, pL: seq<nat>)
  {
    && |pL| == n && |pI| + 2 == n && n <= s && s + n <= |ns|
    && (forall k :: s < k <= s + |pI| ==> ns[k].parent == s + pI[k - s - 1])
    && (forall k :: 1 <= k <= n ==> ns[k].parent == s + pL[n - k])
  }

  /** Symbols are never touched, nor are the counts of leaves. */
  ghost predicate SameLeaves(a: seq<NodeElt>, b: seq<NodeElt>, n: nat)
  {
    n < |a| == |b| && forall i :: 1 <= i <= n ==> b[i].symbol == a[i].symbol && b[i].count == a[i].count
  }

  /** The counts of the leaves from the last to the first, in which order they find their parents. */
  function Reversed(counts: seq<nat>): (lw: seq<nat>)
    ensures |lw| == |counts| && forall k :: 0 <= k < |lw| ==> lw[k] == counts[|counts| - 1 - k]
  {
    seq(|counts|, k requires 0 <= k < |counts| => counts[|counts| - 1 - k])
  }

  function InnerCount(ns: seq<NodeElt>, s: nat, t: nat): nat
    requires s + t + 1 < |ns|
  {
    ns[s + t + 1].count
  }

  /** The counts of the inner nodes made so far. */
  function Inner(ns: seq<NodeElt>, s: nat, nodeNb: nat): (w: seq<nat>)
    requires s <= nodeNb < |ns|
    ensures |w| == nodeNb - s && forall t :: 0 <= t < |w| ==> w[t] == ns[s + t + 1].count
  {
    seq(nodeNb - s, t requires 0 <= t < nodeNb - s => InnerCount(ns, s, t))
  }

  ghost predicate SameCounts(a: seq<NodeElt>, b: seq<NodeElt>)
  {
    |a| == |b| && forall i :: 0 <= i < |a| ==> b[i].count == a[i].count
  }

  /** The counts of all nodes without a parent. */
  ghost function RootSum(ns: seq<NodeElt>, counts: seq<nat>, q: Queues): nat
    requires q.nodeNb < |ns| && -1 <= q.lowS < |counts|
  {
    Sum(counts, q.lowS + 1) + SumNodes(ns, q.lowN, q.nodeNb)
  }

  lemma {:induction false} GivenLeaf(pI: seq<nat>, pL: seq<nat>, c: nat, some: nat)
    requires Given(pI, pL, c, some) && some < 2
    ensures Given(pI, pL + [c], c, some + 1)
  {
    forall t: nat
      ensures Count(pL + [c], t) == Count(pL, t) + if c == t then 1 else 0
    {
      CountSnoc(pL, c, t);
    }
  }

  lemma {:induction false} GivenInner(pI: seq<nat>, pL: seq<nat>, c: nat, some: nat)
    requires Given(pI, pL, c, some) && some < 2 && |pI| < c
    ensures Given(pI + [c], pL, c, some + 1)
  {
    forall t: nat
      ensures Count(pI + [c], t) == Count(pI, t) + if c == t then 1 else 0
    {
      CountSnoc(pI, c, t);
    }
  }

  lemma GivenBoth(pI: seq<nat>, pL: seq<nat>, c: nat)
    requires Given(pI, pL, c, 2)
    ensures Given(pI, pL, c + 1, 0)
  {
  }

  /** Gives the node with the smaller count of the two queue heads to the parent `par`. */
  method Pick(node: array<NodeElt>, counts: seq<nat>, s: nat, q: Queues, ghost pI: seq<nat>, ghost pL: seq<nat>, ghost some: nat)
    returns (x: nat, q': Queues, ghost pI': seq<nat>, ghost pL': seq<nat>)
    requires Grows(node[..], counts, s, q, pI, pL) && Given(pI, pL, q.nodeNb - s, some) && some < 2
    requires q.nodeNb <= s + |counts| - 2 && RootSum(node[..], counts, q) < BARRIER
    requires forall i :: 0 <= i < |counts| ==> counts[i] < BARRIER
    modifies node
    ensures q'.nodeNb == q.nodeNb && Grows(node[..], counts, s, q', pI', pL') && Given(pI', pL', q.nodeNb - s, some + 1)
    ensures RootSum(node[..], counts, q') + x == old(RootSum(node[..], counts, q))
    ensures SameLeaves(old(node[..]), node[..], |counts|)
    ensures SameCounts(old(node[..]), node[..])
    ensures Took(Reversed(counts), Inner(old(node[..]), s, q.nodeNb), pI, pL, pI', pL', x)
  {
    hide Given, Count;
    GivenSizes(pI, pL, q.nodeNb - s, some);
    FrontCounts(node[..], counts, s, q, pI, pL);
    if q.lowN < q.nodeNb { NodesFront(node[..], q.lowN, q.nodeNb); }
    if node[q.lowS + 1].count < node[q.lowN + 1].count {
      x, q', pL' := TakeLeaf(node, counts, s, q, pI, pL, some);
      pI' := pI;
    } else {
      x, q', pI' := TakeInner(node, counts, s, q, pI, pL, some);
      pL' := pL;
    }
  }

  /** The fronts of the two queues, with barriers behind their ends. */
  lemma FrontCounts(ns: seq<NodeElt>, counts: seq<nat>, s: nat, q: Queues, pI: seq<nat>, pL: seq<nat>)
    requires Grows(ns, counts, s, q, pI, pL) && q.nodeNb <= s + |counts| - 2
    ensures var lw, w := Reversed(counts), Inner(ns, s, q.nodeNb);
            && |pI| <= |w| && |pL| <= |lw| && |w| == q.nodeNb - s
            && ns[q.lowS + 1].count == (if |pL| < |lw| then lw[|pL|] else SENTINEL) && (|pL| < |lw| <==> q.lowS >= 0)
            && ns[q.lowN + 1].count == (if |pI| < |w| then w[|pI|] else BARRIER)
  {
  }

  method TakeLeaf(node: array<NodeElt>, counts: seq<nat>, ghost s: nat, q: Queues, ghost pI: seq<nat>, ghost pL: seq<nat>, ghost some: nat)
    returns (x: nat, q': Queues, ghost pL': seq<nat>)
    requires Grows(node[..], counts, s, q, pI, pL) && Given(pI, pL, q.nodeNb - s, some) && some < 2 && q.lowS >= 0
    modifies node
    ensures q'.nodeNb == q.nodeNb && Grows(node[..], counts, s, q', pI, pL') && Given(pI, pL', q.nodeNb - s, some + 1)
    ensures RootSum(node[..], counts, q') + x == old(RootSum(node[..], counts, q))
    ensures SameCounts(old(node[..]), node[..]) && x == old(node[q.lowS + 1].count) && pL' == pL + [q.nodeNb - s]
    ensures SameLeaves(old(node[..]), node[..], |counts|)
  {
    hide Given, Count;
    ghost var ns := node[..];
    x := node[q.lowS + 1].count;
    q' := q.(lowS := q.lowS - 1);
    node[q.lowS + 1] := node[q.lowS + 1].(parent := q.nodeNb);
    pL' := pL + [q.nodeNb - s];
    GivenLeaf(pI, pL, q.nodeNb - s, some);
    SumSame(ns, node[..], q.lowN, q.nodeNb);
  }

  method TakeInner(node: array<NodeElt>, ghost counts: seq<nat>, ghost s: nat, q: Queues, ghost pI: seq<nat>, ghost pL: seq<nat>, ghost some: nat)
    returns (x: nat, q': Queues, ghost pI': seq<nat>)
    requires Grows(node[..], counts, s, q, pI, pL) && Given(pI, pL, q.nodeNb - s, some) && some < 2 && q.lowN < q.nodeNb
    modifies node
    ensures q'.nodeNb == q.nodeNb && Grows(node[..], counts, s, q', pI', pL) && Given(pI', pL, q.nodeNb - s, some + 1)
    ensures RootSum(node[..], counts, q') + x == old(RootSum(node[..], counts, q))
    ensures SameCounts(old(node[..]), node[..]) && x == old(node[q.lowN + 1].count) && pI' == pI + [q.nodeNb - s]
    ensures SameLeaves(old(node[..]), node[..], |counts|)
  {
    hide Given, Count, Grows, RootSum;
    GrowsBounds(node[..], counts, s, q, pI, pL);
    ghost var ns := node[..];
    x := node[q.lowN + 1].count;
    q' := q.(lowN := q.lowN + 1);
    node[q.lowN + 1] := node[q.lowN + 1].(parent := q.nodeNb);
    assert node[..] == ns[q.lowN + 1 := ns[q.lowN + 1].(parent := q.nodeNb)];
    pI' := pI + [q.nodeNb - s];
    GivenInner(pI, pL, q.nodeNb - s, some);
    GrowsInner(ns, node[..], counts, s, q, pI, pL);
  }

  lemma GrowsInner(ns: seq<NodeElt>, ns': seq<NodeElt>, counts: seq<nat>, s: nat, q: Queues, pI: seq<nat>, pL: seq<nat>)
    requires Grows(ns, counts, s, q, pI, pL) && q.lowN < q.nodeNb
    requires ns' == ns[q.lowN + 1 := ns[q.lowN + 1].(parent := q.nodeNb)]
    ensures Grows(ns', counts, s, q.(lowN := q.lowN + 1), pI + [q.nodeNb - s], pL)
    ensures RootSum(ns', counts, q.(lowN := q.lowN + 1)) + ns[q.lowN + 1].count == RootSum(ns, counts, q)
  {
    NodesFront(ns, q.lowN, q.nodeNb);
    SumSame(ns, ns', q.lowN + 1, q.nodeNb);
  }

  lemma GivenSizes(pI: seq<nat>, pL: seq<nat>, c: nat, some: nat)
    requires Given(pI, pL, c, some)
    ensures |pI| + |pL| == 2 * c + some
  {
  }

  lemma SameInner(a: seq<NodeElt>, b: seq<NodeElt>, s: nat, nodeNb: nat)
    requires SameCounts(a, b) && s <= nodeNb < |a|
    ensures Inner(a, s, nodeNb) == Inner(b, s, nodeNb)
  {
  }

  lemma NextInner(a: seq<NodeElt>, b: seq<NodeElt>, s: nat, nodeNb: nat, x: nat)
    requires SameCounts(a, b) && s <= nodeNb < |a| - 1
    ensures Inner(b[nodeNb + 1 := b[nodeNb + 1].(count := x)], s, nodeNb + 1) == Inner(a, s, nodeNb) + [x]
  {
  }

  lemma CountsTwice(a: seq<NodeElt>, b: seq<NodeElt>, c: seq<NodeElt>)
    requires SameCounts(a, b) && SameCounts(b, c)
    ensures SameCounts(a, c)
  {
  }

  /** One new inner node over the two smallest roots. */
  method MergeOne(node: array<NodeElt>, counts: seq<nat>, s: nat, q: Queues, ghost pI: seq<nat>, ghost pL: seq<nat>)
    returns (q': Queues, ghost pI': seq<nat>, ghost pL': seq<nat>)
    requires Grows(node[..], counts, s, q, pI, pL) && Given(pI, pL, q.nodeNb - s, 0)
    requires RootSum(node[..], counts, q) < BARRIER && forall i :: 0 <= i < |counts| ==> counts[i] < BARRIER
    requires q.nodeNb <= s + |counts| - 2 && Forest(Reversed(counts), Inner(node[..], s, q.nodeNb), pI, pL)
    modifies node
    ensures q'.nodeNb == q.nodeNb + 1 && Forest(Reversed(counts), Inner(node[..], s, q'.nodeNb), pI', pL')
    ensures Grows(node[..], counts, s, q', pI', pL') && Given(pI', pL', q'.nodeNb - s, 0)
    ensures RootSum(node[..], counts, q') == old(RootSum(node[..], counts, q))
    ensures SameLeaves(old(node[..]), node[..], |counts|)
  {
    hide Given, Count, Grows, Forest, Took, SameCounts, Inner;
    GrowsBounds(node[..], counts, s, q, pI, pL);
    ghost var ns0 := node[..];
    ghost var w := Inner(ns0, s, q.nodeNb);
    var x, q1, pI1, pL1 := Pick(node, counts, s, q, pI, pL, 0);
    GrowsBounds(node[..], counts, s, q1, pI1, pL1);
    ghost var ns1 := node[..];
    SameInner(ns0, ns1, s, q.nodeNb);
    var y, q2, pI2, pL2 := Pick(node, counts, s, q1, pI1, pL1, 1);
    GrowsBounds(node[..], counts, s, q2, pI2, pL2);
    ghost var ns := node[..];
    node[q2.nodeNb + 1] := node[q2.nodeNb + 1].(count := x + y);
    GivenBoth(pI2, pL2, q.nodeNb - s);
    q', pI', pL' := q2.(nodeNb := q2.nodeNb + 1), pI2, pL2;
    assert node[..] == ns[q2.nodeNb + 1 := ns[q2.nodeNb + 1].(count := x + y)];
    GrowsNext(ns, node[..], counts, s, q2, pI', pL');
    SumSame(ns, node[..], q2.lowN, q2.nodeNb);
    TookTwo(Reversed(counts), w, pI, pL, pI1, pL1, x, pI2, pL2, y);
    CountsTwice(ns0, ns1, ns);
    NextInner(ns0, ns, s, q.nodeNb, x + y);
  }

  lemma GrowsBounds(ns: seq<NodeElt>, counts: seq<nat>, s: nat, q: Queues, pI: seq<nat>, pL: seq<nat>)
    requires Grows(ns, counts, s, q, pI, pL)
    ensures 2 <= |counts| <= s && |ns| >= s + |counts|
    ensures s < q.nodeNb <= s + |counts| - 1 && -1 <= q.lowS < |counts| && s <= q.lowN <= q.nodeNb
    ensures |pI| == q.lowN - s && |pL| == |counts| - 1 - q.lowS
  {
  }

  lemma GrowsNext(ns: seq<NodeElt>, ns': seq<NodeElt>, counts: seq<nat>, s: nat, q: Queues, pI: seq<nat>, pL: seq<nat>)
    requires Grows(ns, counts, s, q, pI, pL) && q.nodeNb <= s + |counts| - 2 && |ns'| == |ns|
    requires ns'[q.nodeNb + 1].parent == ns[q.nodeNb + 1].parent
    requires forall i :: 0 <= i < |ns| && i != q.nodeNb + 1 ==> ns'[i] == ns[i]
    ensures Grows(ns', counts, s, q.(nodeNb := q.nodeNb + 1), pI, pL)
  {
  }

  /** Pairs off the two smallest until one root is left. */
  method Merge(node: array<NodeElt>, counts: seq<nat>, s: nat, q0: Queues, ghost pI0: seq<nat>, ghost pL0: seq<nat>)
    returns (ghost pI: seq<nat>, ghost pL: seq<nat>)
    requires Grows(node[..], counts, s, q0, pI0, pL0) && Given(pI0, pL0, q0.nodeNb - s, 0)
    requires RootSum(node[..], counts, q0) < BARRIER && forall i :: 0 <= i < |counts| ==> counts[i] < BARRIER
    requires Forest(Reversed(counts), Inner(node[..], s, q0.nodeNb), pI0, pL0)
    modifies node
    ensures Parents(pI, pL) && |pL| == |counts| && Cost(Reversed(counts), LeafDepths(pI, pL)) == Greedy(multiset(Reversed(counts)))
    ensures Parents(pI, pL) && |pL| == |counts| && Linked(node[..], s, |counts|, pI, pL)
    ensures SameLeaves(old(node[..]), node[..], |counts|)
  {
    hide Given, Count, Parents, RootSum, Forest, Cost, Greedy;
    var q := q0;
    pI, pL := pI0, pL0;
    ghost var ns := node[..];
    while q.nodeNb <= s + |counts| - 2
      invariant Grows(node[..], counts, s, q, pI, pL) && Given(pI, pL, q.nodeNb - s, 0) && RootSum(node[..], counts, q) < BARRIER
      invariant Forest(Reversed(counts), Inner(node[..], s, q.nodeNb), pI, pL)
      invariant SameLeaves(ns, node[..], |counts|)
      decreases s + |counts| - q.nodeNb
    {
      q, pI, pL := MergeOne(node, counts, s, q, pI, pL);
    }
    AllGiven(pI, pL, |counts| - 1);
    GrownLinked(node[..], counts, s, q, pI, pL);
    GrownCost(Reversed(counts), Inner(node[..], s, q.nodeNb), pI, pL);
  }

  lemma GrownLinked(ns: seq<NodeElt>, counts: seq<nat>, s: nat, q: Queues, pI: seq<nat>, pL: seq<nat>)
    requires Grows(ns, counts, s, q, pI, pL) && |pL| == |counts| && |pI| + 2 == |pL|
    ensures Linked(ns, s, |counts|, pI, pL)
  {
    forall k | s < k <= s + |pI| ensures ns[k].parent == s + pI[k - s - 1] { assert ns[s + (k - s - 1) + 1].parent == s + pI[k - s - 1]; }
    forall k | 1 <= k <= |counts| ensures ns[k].parent == s + pL[|counts| - k] {
      assert ns[|counts| - (|counts| - k)].parent == s + pL[|counts| - k];
    }
  }

  /** Inner nodes come before their parents, so the last of c cannot have one. */
  lemma AllGiven(pI: seq<nat>, pL: seq<nat>, c: nat)
    requires c >= 1 && Given(pI, pL, c, 0) && |pL| <= c + 1
    ensures |pI| == c - 1 && |pL| == c + 1 && Parents(pI, pL)
  {
    if |pI| >= c {
      NoneOf(pI, c, c - 1);
      assert false;
    }
    forall j | 0 <= j < |pI| ensures pI[j] != c { NoneOf(pI, c, j); }
    forall k | 0 <= k < |pL| ensures pL[k] != c { NoneOf(pL, c, k); }
  }

  lemma {:induction false} NoneOf(p: seq<nat>, t: nat, j: nat)
    requires Count(p, t) == 0 && j < |p|
    ensures p[j] != t
    decreases |p|
  {
    if j < |p| - 1 { NoneOf(p[..|p| - 1], t, j); }
  }

  // ----- the first merge and the depths -----

  /** The lengths of the first n leaves. */
  function Lens(ns: seq<NodeElt>, n: nat): (lens: seq<nat>)
    requires n < |ns|
    ensures |lens| == n && forall i :: 0 <= i < n ==> lens[i] == ns[i + 1].nbBits
  {
    seq(n, i requires 0 <= i < n => ns[i + 1].nbBits)
  }

  /** The depths of a Huffman tree's leaves, shallowest first: every leaf's share of 2^l adds up to the whole. */
  ghost predicate TreeLens(lens: seq<nat>)
  {
    && Rising(lens)
    && (forall i :: 0 <= i < |lens| ==> 1 <= lens[i] < |lens|)
    && Shares(|lens|, lens) == Pow2(|lens|)
  }

  /** Joins the last two leaves, and puts barriers behind the new node and in front of the first leaf. */
  method SetUp(node: array<NodeElt>, counts: seq<nat>, s: nat)
    requires 2 <= |counts| <= s && node.Length >= s + |counts|
    requires forall i :: 0 <= i < |counts| ==> node[i + 1].count == counts[i]
    modifies node
    ensures Grows(node[..], counts, s, Queues(s + 1, |counts| - 3, s), [], [0, 0])
    ensures Inner(node[..], s, s + 1) == [counts[|counts| - 1] + counts[|counts| - 2]]
    ensures RootSum(node[..], counts, Queues(s + 1, |counts| - 3, s)) == Sum(counts, |counts|)
    ensures SameLeaves(old(node[..]), node[..], |counts|)
  {
    hide RootSum, Sum, SumNodes;
    var last := |counts| - 1;
    var root := s + last - 1;
    node[s + 1] := node[s + 1].(count := node[last + 1].count + node[last].count);
    node[last + 1] := node[last + 1].(parent := s);
    node[last] := node[last].(parent := s);
    PutBarriers(node, s + 1, root);
    FirstSum(node[..], counts, s);
  }

  method PutBarriers(node: array<NodeElt>, a: nat, b: nat)
    requires 1 <= a <= b + 1 && b + 1 < node.Length
    modifies node
    ensures node[0].count == SENTINEL
    ensures forall k :: 1 <= k < node.Length ==> node[k] == old(node[k]).(count := if a < k <= b + 1 then BARRIER else old(node[k]).count)
  {
    for i := a to b + 1
      invariant forall k :: 1 <= k < node.Length ==> node[k] == old(node[k]).(count := if a < k <= i then BARRIER else old(node[k]).count)
    {
      node[i + 1] := node[i + 1].(count := BARRIER);
    }
    node[0] := node[0].(count := SENTINEL);
  }

  lemma FirstSum(ns: seq<NodeElt>, counts: seq<nat>, s: nat)
    requires 2 <= |counts| && s + 1 < |ns| && ns[s + 1].count == counts[|counts| - 1] + counts[|counts| - 2]
    ensures RootSum(ns, counts, Queues(s + 1, |counts| - 3, s)) == Sum(counts, |counts|)
  {
    assert SumNodes(ns, s, s + 1) == SumNodes(ns, s, s) + ns[s + 1].count;
    assert Sum(counts, |counts| - 1) == Sum(counts, |counts| - 2) + counts[|counts| - 2];
  }

  predicate FallingCounts(counts: seq<nat>) { forall a, b :: 0 <= a < b < |counts| ==> counts[a] >= counts[b] }

  /** The last two leaves have the smallest counts. */
  lemma FirstForest(counts: seq<nat>)
    requires |counts| >= 2 && FallingCounts(counts)
    ensures Forest(Reversed(counts), [counts[|counts| - 1] + counts[|counts| - 2]], [], [0, 0])
  {
    hide Forest;
    var lw := Reversed(counts);
    Seeds(lw);
    assert Took(lw, [], [], [], [], [0], lw[0]);
    assert [0] + [0] == [0, 0];
    assert Took(lw, [], [], [0], [], [0, 0], lw[1]);
    TookTwo(lw, [], [], [], [], [0], lw[0], [], [0, 0], lw[1]);
    assert [] + [lw[0] + lw[1]] == [counts[|counts| - 1] + counts[|counts| - 2]];
  }

  method Join(node: array<NodeElt>, counts: seq<nat>, s: nat) returns (ghost pI: seq<nat>, ghost pL: seq<nat>)
    requires 2 <= |counts| <= s && node.Length >= s + |counts| && Sum(counts, |counts|) < BARRIER
    requires FallingCounts(counts) && forall i :: 0 <= i < |counts| ==> node[i + 1].count == counts[i]
    modifies node
    ensures Parents(pI, pL) && |pL| == |counts| && Cost(Reversed(counts), LeafDepths(pI, pL)) == Greedy(multiset(Reversed(counts)))
    ensures Parents(pI, pL) && |pL| == |counts| && Linked(node[..], s, |counts|, pI, pL)
    ensures SameLeaves(old(node[..]), node[..], |counts|)
  {
    hide Given, Parents, Grows, RootSum, Forest, Cost, Greedy;
    SetUp(node, counts, s);
    FirstForest(counts);
    CountsBelow(counts);
    FirstGiven();
    pI, pL := Merge(node, counts, s, Queues(s + 1, |counts| - 3, s), [], [0, 0]);
  }

  lemma CountsBelow(counts: seq<nat>)
    ensures forall i :: 0 <= i < |counts| ==> counts[i] <= Sum(counts, |counts|)
  {
    forall i | 0 <= i < |counts| ensures counts[i] <= Sum(counts, |counts|) { OneInSum(counts, i, |counts|); }
  }

  lemma FirstGiven()
    ensures Given([], [0, 0], 1, 0)
  {
    assert [0, 0] == [0] + [0];
    forall t: nat ensures Count([0, 0], t) == if t == 0 then 2 else 0 {
      CountSnoc([0], 0, t);
      CountSnoc([], 0, t);
      assert [] + [0] == [0];
    }
  }

  /** Gives every inner node a depth one above its parent's, from the root down. */
  method SetInner(node: array<NodeElt>, s: nat, n: nat, ghost pI: seq<nat>, ghost pL: seq<nat>)
    requires Parents(pI, pL) && Linked(node[..], s, n, pI, pL)
    modifies node
    ensures Linked(node[..], s, n, pI, pL) && SameLeaves(old(node[..]), node[..], n)
    ensures forall k :: s < k <= s + n - 1 ==> node[k].nbBits == Depth(pI, k - s - 1)
  {
    hide Count, Depth, Rising;
    var root := s + n - 2;
    RootDepth(pI);
    node[root + 1] := node[root + 1].(nbBits := 0);
    var k := root;
    while k > s
      invariant s <= k <= root
      invariant forall j :: k < j <= root + 1 ==> node[j].nbBits == Depth(pI, j - s - 1)
      invariant forall j :: s < j <= root ==> node[j].parent == s + pI[j - s - 1]
      invariant forall i :: 0 <= i <= s ==> node[i] == old(node[i])
    {
      DepthStep(pI, k - s - 1);
      node[k] := node[k].(nbBits := node[node[k].parent + 1].nbBits + 1);
      k := k - 1;
    }
  }

  /** Then every leaf. */
  method SetLeaves(node: array<NodeElt>, s: nat, n: nat, ghost pI: seq<nat>, ghost pL: seq<nat>)
    requires Parents(pI, pL) && Linked(node[..], s, n, pI, pL)
    requires forall k :: s < k <= s + n - 1 ==> node[k].nbBits == Depth(pI, k - s - 1)
    modifies node
    ensures forall k :: 1 <= k <= n ==> node[k].nbBits == LeafDepth(pI, pL, n - k)
    ensures SameLeaves(old(node[..]), node[..], n)
  {
    hide Count, Depth, Rising;
    for i := 0 to n
      invariant forall k :: s < k <= s + n - 1 ==> node[k] == old(node[k])
      invariant forall j :: i < j <= n ==> node[j] == old(node[j])
      invariant forall j :: 1 <= j <= i ==> node[j].nbBits == LeafDepth(pI, pL, n - j)
      invariant forall j :: 1 <= j <= n ==> node[j].symbol == old(node[j]).symbol && node[j].count == old(node[j]).count
    {
      var p := node[i + 1].parent;
      node[i + 1] := node[i + 1].(nbBits := node[p + 1].nbBits + 1);
    }
  }

  lemma RootDepth(pI: seq<nat>)
    requires forall k :: 0 <= k < |pI| ==> k < pI[k] <= |pI|
    ensures Depth(pI, |pI|) == 0
  {
  }

  lemma DepthStep(pI: seq<nat>, j: nat)
    requires j < |pI| && forall k :: 0 <= k < |pI| ==> k < pI[k] <= |pI|
    ensures Depth(pI, j) == Depth(pI, pI[j]) + 1
  {
  }

  /** The leaves' lengths read backwards are those of the tree, so they rise and add up. */
  lemma DepthsAreTree(lens: seq<nat>, pI: seq<nat>, pL: seq<nat>)
    requires Parents(pI, pL) && |lens| == |pL| && forall i :: 0 <= i < |lens| ==> lens[i] == LeafDepth(pI, pL, |lens| - 1 - i)
    ensures TreeLens(lens)
  {
    hide Count, Depth, Shares, Pow2;
    var n := |lens|;
    forall a, b | 0 <= a < b < n ensures lens[a] <= lens[b] {
      DepthFalls(pI, pL[n - 1 - b], pL[n - 1 - a]);
    }
    KraftExact(n, pI, pL);
    SharesReversed(n, lens, LeafDepths(pI, pL), n);
    assert LeafDepths(pI, pL)[n - n..] == LeafDepths(pI, pL) && lens[..n] == lens;
  }

  lemma {:induction false} SharesFront(l: nat, x: nat, ds: seq<nat>)
    ensures Shares(l, [x] + ds) == Share(l, x) + Shares(l, ds)
    decreases |ds|
  {
    hide Share;
    if ds == [] {
      assert [x] + ds == [x] && [x][..0] == [];
    } else {
      SharesFront(l, x, ds[..|ds| - 1]);
      assert ([x] + ds)[..|ds|] == [x] + ds[..|ds| - 1];
    }
  }

  lemma {:induction false} SharesReversed(l: nat, a: seq<nat>, b: seq<nat>, j: nat)
    requires j <= |a| == |b| && forall i :: 0 <= i < |a| ==> a[i] == b[|a| - 1 - i]
    ensures Shares(l, a[..j]) == Shares(l, b[|b| - j..])
    decreases j
  {
    if j > 0 {
      SharesReversed(l, a, b, j - 1);
      assert a[..j][..j - 1] == a[..j - 1];
      assert b[|b| - j..] == [b[|b| - j]] + b[|b| - j + 1..];
      SharesFront(l, b[|b| - j], b[|b| - j + 1..]);
    }
  }

  lemma {:induction false} CostFront(w: nat, ws: seq<nat>, d: nat, ls: seq<nat>)
    requires |ws| == |ls|
    ensures Cost([w] + ws, [d] + ls) == Times(w, d) + Cost(ws, ls)
    decreases |ws|
  {
    hide Times;
    var k := |ws| - 1;
    if ws == [] {
      assert [w][..0] == [] && [d][..0] == [];
    } else {
      CostFront(w, ws[..k], d, ls[..k]);
      assert ([w] + ws)[..k + 1] == [w] + ws[..k] && ([d] + ls)[..k + 1] == [d] + ls[..k];
    }
  }

  /** Lengths need the same bits in either order. */
  lemma {:induction false} CostReversed(counts: seq<nat>, lens: seq<nat>, ds: seq<nat>, j: nat)
    requires j <= |counts| == |lens| == |ds| && forall i :: 0 <= i < |ds| ==> ds[i] == lens[|lens| - 1 - i]
    ensures Cost(counts[..j], lens[..j]) == Cost(Reversed(counts)[|counts| - j..], ds[|ds| - j..])
    decreases j
  {
    hide Times;
    if j > 0 {
      CostReversed(counts, lens, ds, j - 1);
      var lw, n := Reversed(counts), |counts|;
      assert counts[..j][..j - 1] == counts[..j - 1] && lens[..j][..j - 1] == lens[..j - 1];
      assert lw[n - j..] == [lw[n - j]] + lw[n - j + 1..] && ds[n - j..] == [ds[n - j]] + ds[n - j + 1..];
      CostFront(lw[n - j], lw[n - j + 1..], ds[n - j], ds[n - j + 1..]);
    }
  }

  lemma {:induction false} SameWeights(counts: seq<nat>)
    ensures multiset(Reversed(counts)) == multiset(counts)
    decreases |counts|
  {
    if counts != [] {
      var k := |counts| - 1;
      SameWeights(counts[..k]);
      assert Reversed(counts) == [counts[k]] + Reversed(counts[..k]);
      assert counts == counts[..k] + [counts[k]];
    }
  }

  lemma CostSame(counts: seq<nat>, lens: seq<nat>, pI: seq<nat>, pL: seq<nat>)
    requires Parents(pI, pL) && |counts| == |lens| == |pL| && forall i :: 0 <= i < |lens| ==> lens[i] == LeafDepth(pI, pL, |lens| - 1 - i)
    requires Cost(Reversed(counts), LeafDepths(pI, pL)) == Greedy(multiset(Reversed(counts)))
    ensures Cost(counts, lens) == Greedy(multiset(counts))
  {
    hide Parents, Cost, Greedy, Depth;
    var n, ds := |counts|, LeafDepths(pI, pL);
    CostReversed(counts, lens, ds, n);
    assert counts[..n] == counts && lens[..n] == lens && Reversed(counts)[n - n..] == Reversed(counts) && ds[n - n..] == ds;
    SameWeights(counts);
  }

  /** No prefix code needs fewer bits: the shares of its lengths would have to exceed the whole. */
  ghost predicate Minimal(counts: seq<nat>, lens: seq<nat>)
  {
    |lens| == |counts| && forall l: nat, other: seq<nat> :: |other| == |counts| && Fits(l, other) ==> Cost(counts, lens) <= Cost(counts, other)
  }

  lemma GreedyMinimal(counts: seq<nat>, lens: seq<nat>)
    requires |lens| == |counts| && Cost(counts, lens) == Greedy(multiset(counts))
    ensures Minimal(counts, lens)
  {
    hide Fits, Cost, Greedy;
    forall l: nat, other: seq<nat> | |other| == |counts| && Fits(l, other) ensures Cost(counts, lens) <= Cost(counts, other) {
      GreedyLeast(l, counts, other);
    }
  }

  /** Leaves with falling counts in, a Huffman tree's lengths out: no prefix code needs fewer bits. */
  method BuildTree(node: array<NodeElt>, counts: seq<nat>, s: nat)
    requires 2 <= |counts| <= s && node.Length >= s + |counts| && Sum(counts, |counts|) < BARRIER
    requires FallingCounts(counts) && forall i :: 0 <= i < |counts| ==> node[i + 1].count == counts[i]
    modifies node
    ensures TreeLens(Lens(node[..], |counts|)) && Minimal(counts, Lens(node[..], |counts|))
    ensures SameLeaves(old(node[..]), node[..], |counts|)
  {
    hide Parents, TreeLens, Sum, Count, Cost, Greedy, Minimal;
    ghost var pI, pL := Join(node, counts, s);
    SetInner(node, s, |counts|, pI, pL);
    SetLeaves(node, s, |counts|, pI, pL);
    ghost var lens := Lens(node[..], |counts|);
    DepthsAreTree(lens, pI, pL);
    CostSame(counts, lens, pI, pL);
    GreedyMinimal(counts, lens);
  }
}
