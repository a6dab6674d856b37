/** What shortening and lengthening codes does to the shares of a code length assignment. */
module HuffRepay {
  import opened Bits
  import opened HuffTree

  /** The shares of the depths below m. */
  function ShortShare(l: nat, m: nat, d: nat): nat { if d < m then Share(l, d) else 0 }

  function Short(l: nat, m: nat, ds: seq<nat>): nat
  {
    if ds == [] then 0 else Short(l, m, ds[..|ds| - 1]) + ShortShare(l, m, ds[|ds| - 1])
  }

  lemma {:induction false} SharesSet(l: nat, ds: seq<nat>, p: nat, v: nat)
    requires p < |ds|
    ensures Shares(l, ds[p := v]) + Share(l, ds[p]) == Shares(l, ds) + Share(l, v)
    decreases |ds|
  {
    hide Share;
    var k := |ds| - 1;
    if p < k {
      SharesSet(l, ds[..k], p, v);
      assert ds[p := v][..k] == ds[..k][p := v];
    } else {
      assert ds[p := v][..k] == ds[..k];
    }
  }

  lemma {:induction false} ShortSet(l: nat, m: nat, ds: seq<nat>, p: nat, v: nat)
    requires p < |ds|
    ensures Short(l, m, ds[p := v]) + ShortShare(l, m, ds[p]) == Short(l, m, ds) + ShortShare(l, m, v)
    decreases |ds|
  {
    hide ShortShare;
    var k := |ds| - 1;
    if p < k {
      ShortSet(l, m, ds[..k], p, v);
      assert ds[p := v][..k] == ds[..k][p := v];
    } else {
      assert ds[p := v][..k] == ds[..k];
    }
  }

  lemma ScaleShare(l: nat, r: nat, d: nat)
    requires d <= l
    ensures Share(l + r, d) == Pow2(r) * Share(l, d)
  {
    Pow2Add(r, l - d);
  }

  lemma Distribute(p: nat, a: nat, b: nat)
    ensures p * (a + b) == p * a + p * b && p * 0 == 0
  {
  }

  lemma {:induction false} ScaleShares(l: nat, r: nat, ds: seq<nat>)
    requires forall i :: 0 <= i < |ds| ==> ds[i] <= l
    ensures Shares(l + r, ds) == Pow2(r) * Shares(l, ds)
    decreases |ds|
  {
    hide Pow2, Share;
    if ds == [] {
      Distribute(Pow2(r), 0, 0);
    } else {
      ScaleShares(l, r, ds[..|ds| - 1]);
      ScaleShare(l, r, ds[|ds| - 1]);
      Distribute(Pow2(r), Shares(l, ds[..|ds| - 1]), Share(l, ds[|ds| - 1]));
    }
  }

  lemma {:induction false} ScaleShort(l: nat, r: nat, m: nat, ds: seq<nat>)
    requires forall i :: 0 <= i < |ds| ==> ds[i] <= l || ds[i] >= m
    ensures Short(l + r, m, ds) == Pow2(r) * Short(l, m, ds)
    decreases |ds|
  {
    hide Pow2, Share;
    if ds == [] {
      Distribute(Pow2(r), 0, 0);
    } else {
      var d := ds[|ds| - 1];
      ScaleShort(l, r, m, ds[..|ds| - 1]);
      if d < m { ScaleShare(l, r, d); }
      Distribute(Pow2(r), Short(l, m, ds[..|ds| - 1]), ShortShare(l, m, d));
    }
  }

  /** Long codes have small shares. */
  lemma {:induction false} SharesAtMost(l: nat, m: nat, ds: seq<nat>)
    requires m <= l && forall i :: 0 <= i < |ds| ==> ds[i] >= m
    ensures Shares(l, ds) <= Pow2(l - m) * |ds|
    decreases |ds|
  {
    hide Pow2;
    if ds != [] {
      var d := ds[|ds| - 1];
      SharesAtMost(l, m, ds[..|ds| - 1]);
      if d <= l { Pow2Mono(l - d, l - m); }
      Distribute(Pow2(l - m), |ds| - 1, 1);
    }
  }

  lemma {:induction false} ShortBelow(l: nat, m: nat, ds: seq<nat>, p: nat)
    requires p < |ds| && ds[p] >= m
    ensures Short(l, m, ds) + Share(l, ds[p]) <= Shares(l, ds)
    decreases |ds|
  {
    hide Share;
    if p < |ds| - 1 { ShortBelow(l, m, ds[..|ds| - 1], p); } else { ShortAtMost(l, m, ds[..p]); }
  }

  lemma {:induction false} ShortAtMost(l: nat, m: nat, ds: seq<nat>)
    ensures Short(l, m, ds) <= Shares(l, ds)
    decreases |ds|
  {
    hide Share;
    if ds != [] { ShortAtMost(l, m, ds[..|ds| - 1]); }
  }

  lemma {:induction false} AllShort(l: nat, m: nat, ds: seq<nat>)
    requires forall i :: 0 <= i < |ds| ==> ds[i] < m
    ensures Short(l, m, ds) == Shares(l, ds)
    decreases |ds|
  {
    hide Share;
    if ds != [] { AllShort(l, m, ds[..|ds| - 1]); }
  }

  lemma {:induction false} SameShort(l: nat, m: nat, a: seq<nat>, b: seq<nat>)
    requires |a| == |b| && forall i :: 0 <= i < |a| ==> a[i] == b[i] || (a[i] >= m && b[i] >= m)
    ensures Short(l, m, a) == Short(l, m, b)
    decreases |a|
  {
    hide Share;
    if a != [] { SameShort(l, m, a[..|a| - 1], b[..|a| - 1]); }
  }

  // ----- the books while lengths are changed -----

  /** Lengths of at most m that rise, whose shares exceed 2^m by cost, with enough of length m to take an overdraft back. */
  ghost predicate Balanced(lens: seq<nat>, m: nat, cost: int)
  {
    && lens != [] && |lens| <= Pow2(m) && Rising(lens)
    && (forall i :: 0 <= i < |lens| ==> 1 <= lens[i] <= m)
    && Shares(m, lens) == Pow2(m) + cost
    && Short(m, m, lens) < Pow2(m) + 2 * (if cost < 0 then cost else 0)
  }

  /** The lengths of a prefix code of at most m bits, longest last, that leaves no code unused. */
  ghost predicate Limited(lens: seq<nat>, m: nat)
  {
    && lens != [] && Rising(lens)
    && (forall i :: 0 <= i < |lens| ==> 1 <= lens[i] <= m)
    && Shares(m, lens) == Pow2(m)
    && lens[|lens| - 1] == m
  }

  /** Not more is owed than there are symbols. */
  lemma {:induction false} LongBelow(m: nat, ds: seq<nat>)
    ensures Shares(m, ds) <= Short(m, m, ds) + |ds|
    decreases |ds|
  {
    hide Pow2;
    if ds != [] {
      LongBelow(m, ds[..|ds| - 1]);
      PowersToByte();
    }
  }

  /** While something has to be paid, some code is shorter than m. */
  lemma SomeShort(lens: seq<nat>, m: nat, cost: int)
    requires Balanced(lens, m, cost) && cost > 0
    ensures lens[0] < m
  {
    hide Shares, Short;
    if lens[0] >= m {
      SharesAtMost(m, m, lens);
      PowersToByte();
    }
  }

  /** And as long as nothing has to be paid, some code is as long as m. */
  lemma SomeLong(lens: seq<nat>, m: nat, cost: int)
    requires Balanced(lens, m, cost) && cost <= 0
    ensures lens[|lens| - 1] == m
  {
    hide Shares, Short;
    if lens[|lens| - 1] != m { AllShort(m, m, lens); }
  }

  lemma Settled(lens: seq<nat>, m: nat)
    requires Balanced(lens, m, 0)
    ensures Limited(lens, m)
  {
    hide Shares, Short;
    SomeLong(lens, m, 0);
  }

  /** Lengthening the last code of r bits below m pays half its share; overpaying is covered if all shorter codes are as short as that. */
  lemma Lengthen(lens: seq<nat>, m: nat, cost: int, p: nat, r: nat)
    requires Balanced(lens, m, cost) && cost > 0 && 1 <= r && p < |lens| && lens[p] + r == m
    requires forall i :: p < i < |lens| ==> lens[i] > lens[p]
    requires Pow2(r - 1) <= cost || forall i :: 0 <= i < |lens| ==> lens[i] == m || lens[i] <= m - r
    ensures Balanced(lens[p := lens[p] + 1], m, cost - Pow2(r - 1))
  {
    hide Shares, Short, Pow2;
    SharesSet(m, lens, p, lens[p] + 1);
    ShortSet(m, m, lens, p, lens[p] + 1);
    Pow2Next(r - 1);
    PowersToByte();
    if cost < Pow2(r - 1) {
      ScaleShort(m - r, r, m, lens);
      Pow2Add(r, m - r);
      WholeBelow(Short(m - r, m, lens), Pow2(m - r), Pow2(r));
      if r == 1 { assert false; }
    }
  }

  lemma WholeBelow(a: nat, b: nat, p: nat)
    requires p * a < p * b
    ensures p * a + p <= p * b
  {
    if a >= b { MulDifference(a, b, p); } else { MulStep(a, b, p); }
  }

  /** Shortening the first code of m bits takes one back. */
  lemma Shorten(lens: seq<nat>, m: nat, cost: int, p: nat)
    requires Balanced(lens, m, cost) && cost < 0 && m >= 2 && p < |lens| && lens[p] == m
    requires forall i :: 0 <= i < p ==> lens[i] < m
    ensures Balanced(lens[p := m - 1], m, cost + 1)
  {
    hide Shares, Short, Pow2;
    SharesSet(m, lens, p, m - 1);
    ShortSet(m, m, lens, p, m - 1);
    Pow2Next(0);
    PowersToByte();
  }

  // ----- cutting off -----

  /** Lengths of a tree whose longest code has l bits. */
  ghost predicate Whole(orig: seq<nat>, l: nat)
  {
    && orig != [] && Rising(orig) && orig[|orig| - 1] == l
    && (forall i :: 0 <= i < |orig| ==> orig[i] >= 1)
    && Shares(l, orig) == Pow2(l)
  }

  /** All lengths behind n were above m and have been cut to m, which is to be paid for. */
  ghost predicate Clipped(orig: seq<nat>, lens: seq<nat>, l: nat, m: nat, n: int, cost: int)
  {
    && |lens| == |orig| && -1 <= n < |orig| && 1 <= m <= l
    && (forall i :: 0 <= i <= n ==> lens[i] == orig[i])
    && (forall i :: n < i < |orig| ==> lens[i] == m < orig[i])
    && Shares(l, lens) == Pow2(l) + cost
    && cost >= 0 && (n < |orig| - 1 ==> cost > 0)
  }

  lemma ClipOne(orig: seq<nat>, lens: seq<nat>, l: nat, m: nat, n: nat, cost: int)
    requires Whole(orig, l) && Clipped(orig, lens, l, m, n, cost) && lens[n] > m
    ensures lens[n] <= l
    ensures Clipped(orig, lens[n := m], l, m, n - 1, cost + Pow2(l - m) - Pow2(l - lens[n]))
  {
    hide Shares, Pow2;
    SharesSet(l, lens, n, m);
    Pow2Mono(l - lens[n], l - m);
  }

  /** With no more symbols than codes of m bits, something shorter is left. */
  lemma LeftShort(orig: seq<nat>, lens: seq<nat>, l: nat, m: nat, n: int, cost: int)
    requires Whole(orig, l) && Clipped(orig, lens, l, m, n, cost) && cost > 0 && |orig| <= Pow2(m)
    ensures n >= 0 && lens[0] < m
  {
    hide Shares, Pow2;
    if n < 0 || lens[0] >= m {
      SharesAtMost(l, m, lens);
      Pow2Add(l - m, m);
      ProductBelow(Pow2(l - m), |lens|, Pow2(m));
    }
  }

  /** Counted in codes of m bits, the books are balanced. */
  lemma ClippedBalance(orig: seq<nat>, lens: seq<nat>, l: nat, m: nat, n: int, cost: nat)
    requires Whole(orig, l) && Clipped(orig, lens, l, m, n, cost) && n < |orig| - 1 && |orig| <= Pow2(m)
    requires n >= 0 ==> lens[n] <= m
    ensures Balanced(lens, m, Shr(cost, l - m)) && Shr(cost, l - m) > 0
  {
    hide Shares, Short, Pow2;
    var p := Pow2(l - m);
    ScaleShares(m, l - m, lens);
    ScaleShort(m, l - m, m, lens);
    Pow2Add(l - m, m);
    SameShort(l, m, lens, orig);
    ShortBelow(l, m, orig, |orig| - 1);
    PowersToByte();
    ExactQuotient(cost, l - m, Shares(m, lens), Pow2(m));
    LessFactor(p, Short(m, m, lens), Pow2(m));
  }

  lemma ExactQuotient(cost: nat, n: nat, a: nat, b: nat)
    requires cost > 0 && Pow2(n) * a == Pow2(n) * b + cost
    ensures Shr(cost, n) == a - b > 0
  {
    hide Pow2, Shr;
    MulDifference(a, b, Pow2(n));
    if a <= b { MulDifference(b, a, Pow2(n)); }
    ShrOfShl(a - b, n, 0);
  }

  lemma ProductBelow(p: nat, a: nat, b: nat)
    requires a <= b
    ensures p * a <= p * b
  {
    MulDifference(b, a, p);
  }

  lemma LessFactor(p: nat, a: nat, b: nat)
    requires p * a < p * b
    ensures a < b
  {
    if a >= b { MulDifference(a, b, p); }
  }
}
