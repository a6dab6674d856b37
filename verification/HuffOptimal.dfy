/** Huffman's method on bare weights, and why no other code lengths need fewer bits. */
module HuffOptimal {
  import opened Bits
  import opened HuffTree
  import HuffRepay

  // ----- joining the two smallest -----

  /** The smallest weight. */
  ghost function Least(m: multiset<nat>): (x: nat)
    requires |m| > 0
    ensures x in m && forall y :: y in m ==> x <= y
    decreases |m|
  {
    var x :| x in m;
    var rest := m - multiset{x};
    if |rest| == 0 then LeastOfOne(m, x); x else
    var y := Least(rest);
    LeastOfMore(m, x, y);
    if x <= y then x else y
  }

  lemma LeastOfOne(m: multiset<nat>, x: nat)
    requires x in m && |m - multiset{x}| == 0
    ensures forall y :: y in m ==> y == x
  {
    assert m == m - multiset{x} + multiset{x} == multiset{x};
  }

  lemma LeastOfMore(m: multiset<nat>, x: nat, y: nat)
    requires x in m && y in m - multiset{x} && forall z :: z in m - multiset{x} ==> y <= z
    ensures y in m && forall z :: z in m ==> z >= y || z == x
  {
    forall z | z in m ensures z >= y || z == x { if z != x { assert z in m - multiset{x}; } }
  }

  /** The two smallest weights, and what is left with their sum in place of them. */
  ghost function First(m: multiset<nat>): nat requires |m| >= 2 { Least(m) }
  ghost function Second(m: multiset<nat>): nat requires |m| >= 2 { Least(m - multiset{First(m)}) }

  function Join(m: multiset<nat>, a: nat, b: nat): multiset<nat>
  {
    m - multiset{a} - multiset{b} + multiset{a + b}
  }

  ghost function Joined(m: multiset<nat>): (r: multiset<nat>)
    requires |m| >= 2
    ensures |r| == |m| - 1
  {
    TwoThere(m);
    Join(m, First(m), Second(m))
  }

  lemma TwoThere(m: multiset<nat>)
    requires |m| >= 2
    ensures |Join(m, First(m), Second(m))| == |m| - 1
  {
    hide Least;
    var a, b := First(m), Second(m);
    assert |m - multiset{a}| == |m| - 1;
    assert |m - multiset{a} - multiset{b}| == |m| - 2;
  }

  /** All sums added up that come about when the two smallest weights are joined until one is left. */
  ghost function Greedy(m: multiset<nat>): nat
    decreases |m|
  {
    if |m| <= 1 then 0 else First(m) + Second(m) + Greedy(Joined(m))
  }

  lemma IsLeast(m: multiset<nat>, x: nat)
    requires x in m && forall y :: y in m ==> x <= y
    ensures |m| > 0 && Least(m) == x
  {
    assert |m| > 0;
  }

  // ----- the bits that weights with given lengths need -----

  function Times(w: nat, d: nat): nat { w * d }

  /** Every weight times its length. */
  function Cost(ws: seq<nat>, ls: seq<nat>): nat
    requires |ws| == |ls|
  {
    if ws == [] then 0 else Cost(ws[..|ws| - 1], ls[..|ls| - 1]) + Times(ws[|ws| - 1], ls[|ls| - 1])
  }

  function Without(s: seq<nat>, p: nat): (r: seq<nat>)
    requires p < |s|
    ensures |r| == |s| - 1
  {
    s[..p] + s[p + 1..]
  }

  lemma {:induction false} CostSet(ws: seq<nat>, ls: seq<nat>, p: nat, w: nat, d: nat)
    requires p < |ws| == |ls|
    ensures Cost(ws[p := w], ls[p := d]) + Times(ws[p], ls[p]) == Cost(ws, ls) + Times(w, d)
    decreases |ws|
  {
    hide Times;
    var k := |ws| - 1;
    if p < k {
      CostSet(ws[..k], ls[..k], p, w, d);
      assert ws[p := w][..k] == ws[..k][p := w] && ls[p := d][..k] == ls[..k][p := d];
    } else {
      assert ws[p := w][..k] == ws[..k] && ls[p := d][..k] == ls[..k];
    }
  }

  lemma WithoutSnoc(s: seq<nat>, p: nat)
    requires p < |s|
    ensures p < |s| - 1 ==> Without(s, p)[..|s| - 2] == Without(s[..|s| - 1], p) && Without(s, p)[|s| - 2] == s[|s| - 1]
    ensures p == |s| - 1 ==> Without(s, p) == s[..p]
  {
  }

  lemma {:induction false} CostWithout(ws: seq<nat>, ls: seq<nat>, p: nat)
    requires p < |ws| == |ls|
    ensures Cost(Without(ws, p), Without(ls, p)) + Times(ws[p], ls[p]) == Cost(ws, ls)
    decreases |ws|
  {
    hide Times, Without;
    WithoutSnoc(ws, p);
    WithoutSnoc(ls, p);
    if p < |ws| - 1 { CostWithout(ws[..|ws| - 1], ls[..|ls| - 1], p); }
  }

  lemma {:induction false} SharesWithout(l: nat, ls: seq<nat>, p: nat)
    requires p < |ls|
    ensures Shares(l, Without(ls, p)) + Share(l, ls[p]) == Shares(l, ls)
    decreases |ls|
  {
    hide Share, Without;
    WithoutSnoc(ls, p);
    if p < |ls| - 1 { SharesWithout(l, ls[..|ls| - 1], p); }
  }

  lemma WeightsWithout(ws: seq<nat>, p: nat)
    requires p < |ws|
    ensures multiset(Without(ws, p)) == multiset(ws) - multiset{ws[p]}
  {
    assert ws == ws[..p] + [ws[p]] + ws[p + 1..];
  }

  // ----- the longest codes for the smallest weights -----

  /** Lengths of at most l bits that leave a prefix code possible. */
  ghost predicate Fits(l: nat, ls: seq<nat>)
  {
    (forall i :: 0 <= i < |ls| ==> ls[i] <= l) && Shares(l, ls) <= Pow2(l)
  }

  lemma Exchange(a: nat, b: nat, d: nat, e: nat)
    requires a <= b && d <= e
    ensures Times(a, e) + Times(b, d) <= Times(a, d) + Times(b, e)
  {
    assert (b - a) * (e - d) >= 0;
    assert (b - a) * (e - d) == b * e - b * d - a * e + a * d;
  }

  /** Lengths i and p exchanged. */
  function Swapped(ls: seq<nat>, i: nat, p: nat): (r: seq<nat>)
    requires i < |ls| && p < |ls|
    ensures |r| == |ls|
  {
    ls[i := ls[p]][p := ls[i]]
  }

  /** Giving the smaller weight the longer code needs no more bits. */
  lemma SwapCost(l: nat, ws: seq<nat>, ls: seq<nat>, i: nat, p: nat)
    requires |ws| == |ls| && i < |ls| && p < |ls| && ws[i] <= ws[p] && ls[i] <= ls[p] && Fits(l, ls)
    ensures Cost(ws, Swapped(ls, i, p)) <= Cost(ws, ls)
    ensures Fits(l, Swapped(ls, i, p))
  {
    hide Times, Shares, Share, Pow2;
    var one := ls[i := ls[p]];
    CostSet(ws, ls, i, ws[i], ls[p]);
    CostSet(ws, one, p, ws[p], ls[i]);
    assert ws[i := ws[i]] == ws && ws[p := ws[p]] == ws;
    HuffRepay.SharesSet(l, ls, i, ls[p]);
    HuffRepay.SharesSet(l, one, p, ls[i]);
    if i == p { assert Swapped(ls, i, p) == ls; } else { Exchange(ws[i], ws[p], ls[i], ls[p]); }
  }

  lemma HalfShare(l: nat, d: nat)
    requires d < l
    ensures Share(l, d) == 2 * Share(l - 1, d)
  {
    hide Pow2;
    Pow2Next(l - 1 - d);
  }

  lemma {:induction false} HalfShares(l: nat, ls: seq<nat>)
    requires forall i :: 0 <= i < |ls| ==> ls[i] < l
    ensures ls != [] ==> l > 0 && Shares(l, ls) == 2 * Shares(l - 1, ls)
    decreases |ls|
  {
    hide Share;
    if ls != [] {
      HalfShares(l, ls[..|ls| - 1]);
      HalfShare(l, ls[|ls| - 1]);
    }
  }

  /** No code of l bits: none is needed. */
  lemma NoneLong(l: nat, ls: seq<nat>)
    requires ls != [] && Fits(l, ls) && forall i :: 0 <= i < |ls| ==> ls[i] < l
    ensures l > 0 && Fits(l - 1, ls)
  {
    hide Pow2, Shares;
    HalfShares(l, ls);
    Pow2Next(l - 1);
  }

  /** Only one code of l bits: it can be shortened. */
  lemma OneLong(l: nat, ws: seq<nat>, ls: seq<nat>, p: nat)
    requires |ws| == |ls| && Fits(l, ls) && p < |ls| && ls[p] == l && l > 0 && forall i :: 0 <= i < |ls| && i != p ==> ls[i] < l
    ensures Fits(l - 1, ls[p := l - 1]) && Cost(ws, ls[p := l - 1]) <= Cost(ws, ls)
  {
    hide Pow2, Shares, Share, Times;
    var ls' := ls[p := l - 1];
    HuffRepay.SharesSet(l, ls, p, l - 1);
    LastShares(l);
    HalfShares(l, ls');
    Pow2Next(l - 1);
    CostSet(ws, ls, p, ws[p], l - 1);
    assert ws[p := ws[p]] == ws;
    Exchange(0, ws[p], l - 1, l);
    NoWeight(l);
  }

  lemma LastShares(l: nat)
    requires l > 0
    ensures Share(l, l) == 1 && Share(l, l - 1) == 2
  {
    PowersToByte();
  }

  lemma NoWeight(l: nat)
    requires l > 0
    ensures Times(0, l) == Times(0, l - 1) == 0
  {
  }

  /** Two codes of the same length joined to one a bit shorter. */
  function JoinedWeights(ws: seq<nat>, i: nat, j: nat): (r: seq<nat>)
    requires i < |ws| && j < |ws| && i != j
    ensures |r| == |ws| - 1
  {
    Without(ws[i := ws[i] + ws[j]], j)
  }

  function JoinedLengths(ls: seq<nat>, i: nat, j: nat, d: nat): (r: seq<nat>)
    requires i < |ls| && j < |ls|
    ensures |r| == |ls| - 1
  {
    Without(ls[i := d], j)
  }

  lemma JoinTwo(l: nat, ws: seq<nat>, ls: seq<nat>, i: nat, j: nat)
    requires |ws| == |ls| && Fits(l, ls) && l > 0 && i < |ls| && j < |ls| && i != j && ls[i] == ls[j] == l
    ensures Fits(l, JoinedLengths(ls, i, j, l - 1))
    ensures Cost(JoinedWeights(ws, i, j), JoinedLengths(ls, i, j, l - 1)) + ws[i] + ws[j] == Cost(ws, ls)
  {
    hide Pow2, Shares, Share, Cost, Times, Without;
    var ws', ls' := ws[i := ws[i] + ws[j]], ls[i := l - 1];
    HuffRepay.SharesSet(l, ls, i, l - 1);
    SharesWithout(l, ls', j);
    LastShares(l);
    CostSet(ws, ls, i, ws[i] + ws[j], l - 1);
    CostWithout(ws', ls', j);
    JoinTimes(ws[i], ws[j], l);
    AtMostWithout(l, ls', j);
  }

  lemma AtMostWithout(l: nat, ls: seq<nat>, p: nat)
    requires p < |ls| && forall i :: 0 <= i < |ls| ==> ls[i] <= l
    ensures forall i :: 0 <= i < |ls| - 1 ==> Without(ls, p)[i] <= l
  {
  }

  lemma JoinTimes(a: nat, b: nat, l: nat)
    requires l > 0
    ensures Times(a, l) + Times(b, l) == Times(a + b, l - 1) + a + b
  {
    assert a * l == a * (l - 1) + a && b * l == b * (l - 1) + b && (a + b) * (l - 1) == a * (l - 1) + b * (l - 1);
  }

  lemma JoinIsJoined(ws: seq<nat>, i: nat, j: nat)
    requires i < |ws| && j < |ws| && i != j && |ws| >= 2
    requires ws[i] == First(multiset(ws)) && ws[j] == Second(multiset(ws))
    ensures multiset(JoinedWeights(ws, i, j)) == Joined(multiset(ws))
  {
    hide First, Second, Join, JoinedWeights;
    JoinIs(ws, i, j);
  }

  lemma JoinIs(ws: seq<nat>, i: nat, j: nat)
    requires i < |ws| && j < |ws| && i != j
    ensures multiset(JoinedWeights(ws, i, j)) == Join(multiset(ws), ws[i], ws[j])
  {
    hide Without, Join, Changed;
    ThenJoin(ws, i, j);
    ThenWithout(ws, i, j, ws[i] + ws[j]);
  }

  lemma ThenWithout(ws: seq<nat>, i: nat, j: nat, w: nat)
    requires i < |ws| && j < |ws| && i != j
    ensures multiset(Without(ws[i := w], j)) == Changed(multiset(ws), ws[i], w, ws[j])
  {
    hide Without;
    SetWeight(ws, i, w);
    WeightsWithout(ws[i := w], j);
  }

  function Changed(m: multiset<nat>, a: nat, w: nat, b: nat): multiset<nat> { m - multiset{a} + multiset{w} - multiset{b} }

  lemma ThenJoin(ws: seq<nat>, i: nat, j: nat)
    requires i < |ws| && j < |ws| && i != j
    ensures Changed(multiset(ws), ws[i], ws[i] + ws[j], ws[j]) == Join(multiset(ws), ws[i], ws[j])
  {
    hide Changed, Join;
    BothThere(ws, i, j);
    Reordered(multiset(ws), ws[i], ws[j]);
  }

  lemma Reordered(m: multiset<nat>, a: nat, b: nat)
    requires b in m - multiset{a}
    ensures Changed(m, a, a + b, b) == Join(m, a, b)
  {
    var r := m - multiset{a};
    assert r == r - multiset{b} + multiset{b};
  }

  lemma SetWeight(ws: seq<nat>, i: nat, w: nat)
    requires i < |ws|
    ensures multiset(ws[i := w]) == multiset(ws) - multiset{ws[i]} + multiset{w}
  {
  }

  lemma BothThere(ws: seq<nat>, i: nat, j: nat)
    requires i < |ws| && j < |ws| && i != j
    ensures ws[j] in multiset(ws) - multiset{ws[i]}
  {
    WeightsWithout(ws, i);
    assert Without(ws, i)[if j < i then j else j - 1] == ws[j];
    assert ws[j] in multiset(Without(ws, i));
  }

  /** Where the two smallest weights are. */
  lemma Smallest(ws: seq<nat>) returns (i: nat, j: nat)
    requires |ws| >= 2
    ensures i < |ws| && j < |ws| && i != j && ws[i] == First(multiset(ws)) && ws[j] == Second(multiset(ws))
    ensures forall k :: 0 <= k < |ws| ==> ws[i] <= ws[k]
    ensures forall k :: 0 <= k < |ws| && k != i ==> ws[j] <= ws[k]
  {
    var m := multiset(ws);
    i := Find(ws, First(m));
    WeightsWithout(ws, i);
    var q := Find(Without(ws, i), Second(m));
    j := if q < i then q else q + 1;
    SmallerAll(ws, ws[i]);
    SmallerRest(ws, i, ws[j]);
  }

  lemma Find(ws: seq<nat>, x: nat) returns (i: nat)
    requires x in multiset(ws)
    ensures i < |ws| && ws[i] == x
  {
    assert x in ws;
    i :| i < |ws| && ws[i] == x;
  }

  lemma SmallerAll(ws: seq<nat>, x: nat)
    requires forall y :: y in multiset(ws) ==> x <= y
    ensures forall k :: 0 <= k < |ws| ==> x <= ws[k]
  {
    forall k | 0 <= k < |ws| ensures x <= ws[k] { assert ws[k] in multiset(ws); }
  }

  lemma SmallerRest(ws: seq<nat>, i: nat, x: nat)
    requires i < |ws| && forall y :: y in multiset(Without(ws, i)) ==> x <= y
    ensures forall k :: 0 <= k < |ws| && k != i ==> x <= ws[k]
  {
    SmallerAll(Without(ws, i), x);
    forall k | 0 <= k < |ws| && k != i ensures x <= ws[k] {
      assert Without(ws, i)[if k < i then k else k - 1] == ws[k];
    }
  }

  /** Codes of l bits for the two smallest weights, when there are two codes of l bits. */
  lemma Longest(l: nat, ws: seq<nat>, ls: seq<nat>, i: nat, j: nat, p: nat, r: nat) returns (ls': seq<nat>)
    requires |ws| == |ls| && Fits(l, ls) && i < |ls| && j < |ls| && i != j && p < |ls| && r < |ls| && p != r && ls[p] == ls[r] == l
    requires forall k :: 0 <= k < |ws| ==> ws[i] <= ws[k]
    requires forall k :: 0 <= k < |ws| && k != i ==> ws[j] <= ws[k]
    ensures |ls'| == |ls| && Fits(l, ls') && ls'[i] == ls'[j] == l && Cost(ws, ls') <= Cost(ws, ls)
  {
    hide Pow2, Shares, Cost, Times;
    SwapCost(l, ws, ls, i, p);
    var one := Swapped(ls, i, p);
    var q := if r == i then p else r;
    SwapCost(l, ws, one, j, q);
    ls' := Swapped(one, j, q);
  }

  /**
   Huffman's theorem: lengths that any prefix code could have need at least as many bits as joining the two smallest
   weights over and over.
   */
  lemma {:induction false} GreedyLeast(l: nat, ws: seq<nat>, ls: seq<nat>)
    requires |ws| == |ls| && Fits(l, ls)
    ensures Greedy(multiset(ws)) <= Cost(ws, ls)
    decreases |ws|, l
  {
    hide Pow2, Shares, Cost, Times, First, Second, Joined;
    if |ws| >= 2 {
      if p :| 0 <= p < |ls| && ls[p] == l {
        if r :| 0 <= r < |ls| && r != p && ls[r] == l {
          NotBoth(l, ls, p, r);
          var i, j := Smallest(ws);
          var ls' := Longest(l, ws, ls, i, j, p, r);
          JoinTwo(l, ws, ls', i, j);
          JoinIsJoined(ws, i, j);
          GreedyLeast(l, JoinedWeights(ws, i, j), JoinedLengths(ls', i, j, l - 1));
        } else {
          NotAlone(l, ls, p);
          OneLong(l, ws, ls, p);
          GreedyLeast(l - 1, ws, ls[p := l - 1]);
        }
      } else {
        NoneLong(l, ls);
        GreedyLeast(l - 1, ws, ls);
      }
    }
  }

  /** Two empty codes are one too many. */
  lemma NotBoth(l: nat, ls: seq<nat>, p: nat, r: nat)
    requires Fits(l, ls) && p < |ls| && r < |ls| && p != r && ls[p] == ls[r] == l
    ensures l > 0
  {
    if l == 0 {
      SharesWithout(0, ls, p);
      SharesWithout(0, Without(ls, p), if r < p then r else r - 1);
      PowersToByte();
      assert false;
    }
  }

  lemma NotAlone(l: nat, ls: seq<nat>, p: nat)
    requires |ls| >= 2 && p < |ls| && (forall i :: 0 <= i < |ls| ==> ls[i] <= l) && forall i :: 0 <= i < |ls| && i != p ==> ls[i] != l
    ensures l > 0
  {
    var i := if p == 0 then 1 else 0;
    assert ls[i] != l;
  }
}

/** Two rising queues, leaves and inner nodes, from whose fronts the smallest weights are taken: Huffman's method. */
module HuffForest {
  import opened Counting
  import opened HuffTree
  import opened HuffOptimal

  /** What has no parent yet, after a inner nodes and b leaves got theirs. */
  function Roots(lw: seq<nat>, w: seq<nat>, a: nat, b: nat): multiset<nat>
    requires a <= |w| && b <= |lw|
  {
    multiset(lw[b..]) + multiset(w[a..])
  }

  /** The weights of the children of t. */
  function Children(p: seq<nat>, w: seq<nat>, t: nat): nat
    requires |p| <= |w|
  {
    if p == [] then 0 else Children(p[..|p| - 1], w, t) + if p[|p| - 1] == t then w[|p| - 1] else 0
  }

  /** Leaves of weights lw and inner nodes of weights w, in the order of their making, with the parents pL and pI given so far. */
  ghost predicate Forest(lw: seq<nat>, w: seq<nat>, pI: seq<nat>, pL: seq<nat>)
  {
    && |pI| <= |w| && |pL| <= |lw| && Rising(lw) && Rising(w)
    && (forall k :: |pL| <= k < |lw| ==> HalfLast(w, lw[k]))
    && (forall k :: |pI| <= k < |w| ==> HalfLast(w, w[k]))
    && Greedy(Roots(lw, w, |pI|, |pL|)) + Sum(w, |w|) == Greedy(multiset(lw))
    && (forall t: nat :: Children(pI, w, t) + Children(pL, lw, t) == if t < |w| then w[t] else 0)
  }

  /** At least half of the last inner node. */
  predicate HalfLast(w: seq<nat>, x: nat) { w != [] ==> w[|w| - 1] <= 2 * x }

  /** The smaller of the two fronts has got the next inner node as parent. */
  ghost predicate Took(lw: seq<nat>, w: seq<nat>, pI: seq<nat>, pL: seq<nat>, pI': seq<nat>, pL': seq<nat>, x: nat)
  {
    && |pI| <= |w| && |pL| <= |lw|
    && (|| (|pL| < |lw| && x == lw[|pL|] && pI' == pI && pL' == pL + [|w|] && (|pI| < |w| ==> x < w[|pI|]))
        || (|pI| < |w| && x == w[|pI|] && pI' == pI + [|w|] && pL' == pL && (|pL| < |lw| ==> x <= lw[|pL|])))
  }

  lemma TookBounds(lw: seq<nat>, w: seq<nat>, pI: seq<nat>, pL: seq<nat>, pI': seq<nat>, pL': seq<nat>, x: nat)
    requires Took(lw, w, pI, pL, pI', pL', x)
    ensures |pI| <= |pI'| <= |w| && |pL| <= |pL'| <= |lw|
  {
  }

  lemma FrontOff(s: seq<nat>, a: nat)
    requires a < |s|
    ensures multiset(s[a..]) == multiset{s[a]} + multiset(s[a + 1..])
  {
    assert s[a..] == [s[a]] + s[a + 1..];
  }

  lemma {:induction false} AtLeastFront(s: seq<nat>, a: nat, x: nat)
    requires Rising(s) && a <= |s| && (a < |s| ==> x <= s[a])
    ensures forall y :: y in multiset(s[a..]) ==> x <= y
  {
    forall y | y in multiset(s[a..]) ensures x <= y {
      assert y in s[a..];
      var k :| 0 <= k < |s[a..]| && s[a..][k] == y;
      assert s[a] <= s[a + k];
    }
  }

  lemma TookRoots(lw: seq<nat>, w: seq<nat>, pI: seq<nat>, pL: seq<nat>, pI': seq<nat>, pL': seq<nat>, x: nat)
    requires Took(lw, w, pI, pL, pI', pL', x)
    ensures |pI'| <= |w| && |pL'| <= |lw|
    ensures Roots(lw, w, |pI|, |pL|) == multiset{x} + Roots(lw, w, |pI'|, |pL'|)
  {
    if pI' == pI { FrontOff(lw, |pL|); } else { FrontOff(w, |pI|); }
  }

  lemma TookSmallest(lw: seq<nat>, w: seq<nat>, pI: seq<nat>, pL: seq<nat>, pI': seq<nat>, pL': seq<nat>, x: nat)
    requires Took(lw, w, pI, pL, pI', pL', x) && Rising(lw) && Rising(w)
    ensures (forall k :: |pL| <= k < |lw| ==> x <= lw[k]) && forall k :: |pI| <= k < |w| ==> x <= w[k]
    ensures (exists k :: |pL| <= k < |lw| && x == lw[k]) || exists k :: |pI| <= k < |w| && x == w[k]
  {
  }

  /** What is taken is the smallest of all roots. */
  lemma TookLeast(lw: seq<nat>, w: seq<nat>, pI: seq<nat>, pL: seq<nat>, pI': seq<nat>, pL': seq<nat>, x: nat)
    requires Took(lw, w, pI, pL, pI', pL', x) && Rising(lw) && Rising(w)
    ensures |pI'| <= |w| && |pL'| <= |lw|
    ensures Roots(lw, w, |pI|, |pL|) == multiset{x} + Roots(lw, w, |pI'|, |pL'|)
    ensures |Roots(lw, w, |pI|, |pL|)| > 0 && Least(Roots(lw, w, |pI|, |pL|)) == x
    ensures (forall k :: |pL| <= k < |lw| ==> x <= lw[k]) && forall k :: |pI| <= k < |w| ==> x <= w[k]
    ensures (exists k :: |pL| <= k < |lw| && x == lw[k]) || exists k :: |pI| <= k < |w| && x == w[k]
  {
    hide Least, Took, Rising;
    TookBounds(lw, w, pI, pL, pI', pL', x);
    TookSmallest(lw, w, pI, pL, pI', pL', x);
    TookRoots(lw, w, pI, pL, pI', pL', x);
    AtLeastFront(lw, |pL|, x);
    AtLeastFront(w, |pI|, x);
    IsLeast(Roots(lw, w, |pI|, |pL|), x);
  }

  lemma JoinRoots(m: multiset<nat>, m1: multiset<nat>, m2: multiset<nat>, x: nat, y: nat)
    requires m == multiset{x} + m1 && m1 == multiset{y} + m2 && Least(m) == x && Least(m1) == y
    ensures Greedy(m) == x + y + Greedy(m2 + multiset{x + y})
  {
    hide Least;
    assert m - multiset{x} == m1 && m1 - multiset{y} == m2;
    assert |m| >= 2;
    assert First(m) == x && Second(m) == y;
    assert Joined(m) == m2 + multiset{x + y};
  }

  lemma RootsSnoc(lw: seq<nat>, w: seq<nat>, a: nat, b: nat, x: nat)
    requires a <= |w| && b <= |lw|
    ensures Roots(lw, w + [x], a, b) == Roots(lw, w, a, b) + multiset{x}
  {
    assert (w + [x])[a..] == w[a..] + [x];
  }

  lemma {:induction false} ChildrenMore(p: seq<nat>, w: seq<nat>, w': seq<nat>, t: nat)
    requires |p| <= |w| <= |w'| && w'[..|w|] == w
    ensures Children(p, w', t) == Children(p, w, t)
    decreases |p|
  {
    if p != [] {
      ChildrenMore(p[..|p| - 1], w, w', t);
      assert w'[..|w|][|p| - 1] == w'[|p| - 1];
    }
  }

  lemma ChildrenSnoc(p: seq<nat>, w: seq<nat>, c: nat, t: nat)
    requires |p| < |w|
    ensures Children(p + [c], w, t) == Children(p, w, t) + if c == t then w[|p|] else 0
  {
    assert (p + [c])[..|p|] == p;
  }

  lemma TookChildren(lw: seq<nat>, w: seq<nat>, pI: seq<nat>, pL: seq<nat>, pI': seq<nat>, pL': seq<nat>, x: nat, t: nat)
    requires Took(lw, w, pI, pL, pI', pL', x)
    ensures |pI'| <= |w| && |pL'| <= |lw|
    ensures Children(pI', w, t) + Children(pL', lw, t) == Children(pI, w, t) + Children(pL, lw, t) + if t == |w| then x else 0
  {
    if pI' == pI { ChildrenSnoc(pL, lw, |w|, t); } else { ChildrenSnoc(pI, w, |w|, t); }
  }

  lemma SumSnoc(w: seq<nat>, x: nat)
    ensures Sum(w + [x], |w| + 1) == Sum(w, |w|) + x
  {
    SumFront(w + [x], w, |w|);
  }

  /** A new inner node over the two smallest roots. */
  lemma TookTwo(lw: seq<nat>, w: seq<nat>, pI: seq<nat>, pL: seq<nat>, pI1: seq<nat>, pL1: seq<nat>, x: nat, pI2: seq<nat>, pL2: seq<nat>, y: nat)
    requires Forest(lw, w, pI, pL) && Took(lw, w, pI, pL, pI1, pL1, x) && Took(lw, w, pI1, pL1, pI2, pL2, y)
    ensures Forest(lw, w + [x + y], pI2, pL2)
  {
    hide Roots, Children, Least, Greedy, Took;
    TookBounds(lw, w, pI, pL, pI1, pL1, x);
    TookBounds(lw, w, pI1, pL1, pI2, pL2, y);
    TookLeast(lw, w, pI, pL, pI1, pL1, x);
    TookLeast(lw, w, pI1, pL1, pI2, pL2, y);
    JoinRoots(Roots(lw, w, |pI|, |pL|), Roots(lw, w, |pI1|, |pL1|), Roots(lw, w, |pI2|, |pL2|), x, y);
    RootsSnoc(lw, w, |pI2|, |pL2|, x + y);
    SumSnoc(w, x + y);
    forall t: nat
      ensures Children(pI2, w + [x + y], t) + Children(pL2, lw, t) == if t < |w| + 1 then (w + [x + y])[t] else 0
    {
      TookChildren(lw, w, pI, pL, pI1, pL1, x, t);
      TookChildren(lw, w, pI1, pL1, pI2, pL2, y, t);
      ChildrenMore(pI2, w, w + [x + y], t);
    }
    assert HalfLast(w, x) && HalfLast(w, y);
  }

  lemma Seeds(lw: seq<nat>)
    requires Rising(lw)
    ensures Forest(lw, [], [], [])
  {
    assert lw[0..] == lw;
    assert Roots(lw, [], 0, 0) == multiset(lw);
  }

  /** With one root left, all sums are made. */
  lemma Grown(lw: seq<nat>, w: seq<nat>, pI: seq<nat>, pL: seq<nat>)
    requires Forest(lw, w, pI, pL) && |pL| == |lw| && |pI| + 1 == |w|
    ensures Sum(w, |w|) == Greedy(multiset(lw))
  {
    hide Children;
    assert lw[|lw|..] == [];
    assert |Roots(lw, w, |pI|, |pL|)| == 1;
  }

  // ----- depths -----

  function At(p: seq<nat>, g: seq<nat>): (r: seq<nat>)
    requires forall k :: 0 <= k < |p| ==> p[k] < |g|
    ensures |r| == |p| && forall k :: 0 <= k < |p| ==> r[k] == g[p[k]]
  {
    seq(|p|, k requires 0 <= k < |p| => g[p[k]])
  }

  function AllChildren(p: seq<nat>, w: seq<nat>, n: nat): (r: seq<nat>)
    requires |p| <= |w|
    ensures |r| == n && forall t :: 0 <= t < n ==> r[t] == Children(p, w, t)
  {
    seq(n, t requires 0 <= t < n => Children(p, w, t))
  }

  lemma {:induction false} CostZeros(ws: seq<nat>, g: seq<nat>)
    requires |ws| == |g| && forall t :: 0 <= t < |ws| ==> ws[t] == 0
    ensures Cost(ws, g) == 0
    decreases |ws|
  {
    if ws != [] { CostZeros(ws[..|ws| - 1], g[..|g| - 1]); }
  }

  lemma MoreTimes(a: nat, b: nat, g: nat)
    ensures Times(a + b, g) == Times(a, g) + Times(b, g)
  {
  }

  /** Counted at the parents or at the children, it is the same. */
  lemma {:induction false} ByParent(p: seq<nat>, w: seq<nat>, g: seq<nat>)
    requires |p| <= |w| && forall k :: 0 <= k < |p| ==> p[k] < |g|
    ensures Cost(AllChildren(p, w, |g|), g) == Cost(w[..|p|], At(p, g))
    decreases |p|
  {
    hide Times;
    if p == [] {
      CostZeros(AllChildren(p, w, |g|), g);
    } else {
      var k := |p| - 1;
      var c := p[k];
      ByParent(p[..k], w, g);
      var front := AllChildren(p[..k], w, |g|);
      assert AllChildren(p, w, |g|) == front[c := front[c] + w[k]];
      CostSet(front, g, c, front[c] + w[k], g[c]);
      assert g[c := g[c]] == g;
      MoreTimes(front[c], w[k], g[c]);
      assert w[..|p|][..k] == w[..k] && At(p, g)[..k] == At(p[..k], g);
    }
  }

  lemma {:induction false} CostBoth(a: seq<nat>, b: seq<nat>, c: seq<nat>, g: seq<nat>)
    requires |a| == |b| == |c| == |g| && forall t :: 0 <= t < |a| ==> a[t] + b[t] == c[t]
    ensures Cost(a, g) + Cost(b, g) == Cost(c, g)
    decreases |a|
  {
    hide Times;
    if a != [] {
      var k := |a| - 1;
      CostBoth(a[..k], b[..k], c[..k], g[..k]);
      MoreTimes(a[k], b[k], g[k]);
    }
  }

  lemma {:induction false} CostDeeper(ws: seq<nat>, g: seq<nat>, h: seq<nat>)
    requires |ws| == |g| == |h| && forall t :: 0 <= t < |g| ==> h[t] == g[t] + 1
    ensures Cost(ws, h) == Cost(ws, g) + Sum(ws, |ws|)
    decreases |ws|
  {
    if ws != [] {
      var k := |ws| - 1;
      CostDeeper(ws[..k], g[..k], h[..k]);
      SumFront(ws, ws[..k], k);
      assert ws[k] * (g[k] + 1) == ws[k] * g[k] + ws[k];
    }
  }

  function Depths(pI: seq<nat>, n: nat, more: nat): (g: seq<nat>)
    requires n <= |pI| + 1 && forall k :: 0 <= k < |pI| ==> k < pI[k] <= |pI|
    ensures |g| == n && forall t :: 0 <= t < n ==> g[t] == Depth(pI, t) + more
  {
    seq(n, t requires 0 <= t < n => Depth(pI, t) + more)
  }

  /** The leaves of a tree, each at its depth, need as many bits as all its inner nodes weigh. */
  lemma TreeCost(lw: seq<nat>, w: seq<nat>, pI: seq<nat>, pL: seq<nat>)
    requires Parents(pI, pL) && Forest(lw, w, pI, pL) && |pL| == |lw| && |w| == |pI| + 1
    ensures Cost(lw, LeafDepths(pI, pL)) == Sum(w, |w|)
  {
    hide Children, Greedy, Count, Sum, Times, Cost;
    var n := |w|;
    var g, h := Depths(pI, n, 0), Depths(pI, n, 1);
    ByParent(pI, w, h);
    ByParent(pL, lw, h);
    CostBoth(AllChildren(pI, w, n), AllChildren(pL, lw, n), w, h);
    CostDeeper(w, g, h);
    RootFree(w, g, pI);
    assert At(pI, h) == g[..|pI|];
    assert At(pL, h) == LeafDepths(pI, pL) && lw[..|pL|] == lw;
  }

  lemma RootFree(w: seq<nat>, g: seq<nat>, pI: seq<nat>)
    requires |w| == |g| == |pI| + 1 && (forall k :: 0 <= k < |pI| ==> k < pI[k] <= |pI|) && g[|pI|] == Depth(pI, |pI|)
    ensures Cost(w, g) == Cost(w[..|pI|], g[..|pI|])
  {
  }

  /** The bits needed by the tree that comes about are those of Huffman's method. */
  lemma GrownCost(lw: seq<nat>, w: seq<nat>, pI: seq<nat>, pL: seq<nat>)
    requires Parents(pI, pL) && Forest(lw, w, pI, pL) && |pL| == |lw| && |w| == |pI| + 1
    ensures Cost(lw, LeafDepths(pI, pL)) == Greedy(multiset(lw))
  {
    hide Forest, Parents, Cost, Greedy;
    TreeCost(lw, w, pI, pL);
    Grown(lw, w, pI, pL);
  }
}
