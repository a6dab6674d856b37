/** Finite state entropy tables: the spread of the symbols over the cells. */
module FseSpread {
  import opened Bits
  import opened Counting

  // ----- the walk over the cells -----

  function TableStep(size: nat): nat { size / 2 + size / 8 + 3 }

  /** `x & (size - 1)` for an `x` below `2 * size`. */
  function Wrap(x: nat, size: nat): nat { if x >= size then x - size else x }

  /** The cell after k steps. */
  function Visit(log: nat, k: nat): nat
  {
    if k == 0 then 0 else Wrap(Visit(log, k - 1) + TableStep(Pow2(log)), Pow2(log))
  }

  lemma StepBelow(log: nat)
    requires log >= 4
    ensures TableStep(Pow2(log)) < Pow2(log) && TableStep(Pow2(log)) % 2 == 1
  {
    hide Pow2;
    Sixteen(log);
    var w := Pow2(log - 4);
    assert 16 * w / 2 + 16 * w / 8 + 3 == 10 * w + 3;
  }

  lemma Sixteen(log: nat)
    requires log >= 4
    ensures Pow2(log) == 16 * Pow2(log - 4)
  {
    assert Pow2(log) == 2 * Pow2(log - 1) && Pow2(log - 1) == 2 * Pow2(log - 2);
    assert Pow2(log - 2) == 2 * Pow2(log - 3) && Pow2(log - 3) == 2 * Pow2(log - 4);
  }

  /** The walk goes round: k steps lead q times past the end. */
  lemma {:induction false} VisitRound(log: nat, k: nat) returns (q: nat)
    requires log >= 4
    ensures Visit(log, k) < Pow2(log) && k * TableStep(Pow2(log)) == q * Pow2(log) + Visit(log, k)
  {
    hide Pow2, TableStep;
    var size, step := Pow2(log), TableStep(Pow2(log));
    if k == 0 {
      q := 0;
    } else {
      q := VisitRound(log, k - 1);
      StepBelow(log);
      assert k * step == (k - 1) * step + step;
      if Visit(log, k - 1) + step >= size {
        assert (q + 1) * size == q * size + size;
        q := q + 1;
      }
    }
  }

  /** An odd number cannot supply a factor two. */
  lemma {:induction false} OddFactor(log: nat, x: nat, s: nat, q: nat) returns (y: nat)
    requires s % 2 == 1 && x * s == q * Pow2(log)
    ensures x == y * Pow2(log)
    decreases log
  {
    if log == 0 {
      y := x;
    } else {
      var half := Pow2(log - 1);
      assert q * (2 * half) == 2 * (q * half);
      if x % 2 == 1 {
        OddTimesOdd(x, s);
        assert false;
      }
      var m := x / 2;
      assert (2 * m) * s == 2 * (m * s);
      y := OddFactor(log - 1, m, s, q);
      assert y * (2 * half) == 2 * (y * half);
    }
  }

  lemma OddTimesOdd(x: nat, s: nat)
    requires x % 2 == 1 && s % 2 == 1
    ensures (x * s) % 2 == 1
  {
    var a, b := x / 2, s / 2;
    assert x * s == 2 * (a * s + b) + 1 by {
      assert x * s == (2 * a) * s + s;
      assert (2 * a) * s == 2 * (a * s);
    }
  }

  /** No cell is met twice before the walk is complete. */
  lemma VisitOnce(log: nat, a: nat, b: nat)
    requires log >= 4 && a < b < Pow2(log)
    ensures Visit(log, a) != Visit(log, b)
  {
    hide Pow2, TableStep;
    if Visit(log, a) == Visit(log, b) {
      var size, step := Pow2(log), TableStep(Pow2(log));
      StepBelow(log);
      var qa := VisitRound(log, a);
      var qb := VisitRound(log, b);
      SameRest(a, b, step, qa, qb, size, Visit(log, a));
      var y := OddFactor(log, b - a, step, qb - qa);
      NoMultipleBelow(y, size, b - a);
      assert false;
    }
  }

  lemma SameRest(a: nat, b: nat, step: nat, qa: nat, qb: nat, size: nat, v: nat)
    requires a < b && size >= 1 && a * step == qa * size + v && b * step == qb * size + v
    ensures qa <= qb && (b - a) * step == (qb - qa) * size
  {
    MulDifference(b, a, step);
    MulDifference(qb, qa, size);
    if qb < qa {
      MulDifference(qa, qb + 1, size);
      MulDifference(qb + 1, qb, size);
    }
  }

  lemma NoMultipleBelow(y: nat, size: nat, x: nat)
    requires 0 < x < size
    ensures x != y * size
  {
    if y >= 1 { assert y * size >= size; }
  }

  /** The whole round: every cell once. */
  function Round(log: nat): (s: seq<nat>)
    requires log >= 4
    ensures |s| == Pow2(log) && Distinct(s)
    ensures forall k :: 0 <= k < |s| ==> s[k] == Visit(log, k) && s[k] < Pow2(log)
  {
    var s := seq(Pow2(log), k requires 0 <= k => Visit(log, k));
    assert Distinct(s) by {
      forall a, b | 0 <= a < b < |s|
        ensures s[a] != s[b]
      {
        VisitOnce(log, a, b);
      }
    }
    assert forall k :: 0 <= k < |s| ==> s[k] < Pow2(log) by {
      forall k | 0 <= k < |s|
        ensures s[k] < Pow2(log)
      {
        var q := VisitRound(log, k);
      }
    }
    s
  }

  lemma RoundMeetsAll(log: nat, c: nat)
    requires log >= 4 && c < Pow2(log)
    ensures c in Round(log)
  {
    var all := Elements(Round(log));
    if c !in all {
      SubsetSize(all + {c}, Below(Pow2(log)));
      assert false;
    }
  }

  /** The cells below n, in the order the walk meets them from step k on. */
  function LowCells(log: nat, n: nat, k: nat): (s: seq<nat>)
    requires k <= Pow2(log)
    decreases Pow2(log) - k
  {
    if k == Pow2(log) then []
    else (if Visit(log, k) < n then [Visit(log, k)] else []) + LowCells(log, n, k + 1)
  }

  /** A place in the list comes from a step of the walk, later places from later steps. */
  lemma {:induction false} LowCellStep(log: nat, n: nat, k: nat, i: nat) returns (j: nat)
    requires k <= Pow2(log) && i < |LowCells(log, n, k)|
    ensures k <= j < Pow2(log) && LowCells(log, n, k)[i] == Visit(log, j) && Visit(log, j) < n
    ensures LowCells(log, n, j)[1..] == LowCells(log, n, k)[i + 1..]
    decreases Pow2(log) - k
  {
    hide Pow2;
    if Visit(log, k) < n {
      if i == 0 { j := k; } else { j := LowCellStep(log, n, k + 1, i - 1); }
    } else {
      j := LowCellStep(log, n, k + 1, i);
    }
  }

  lemma {:induction false} LowCellMet(log: nat, n: nat, k: nat, j: nat)
    requires k <= j < Pow2(log) && Visit(log, j) < n
    ensures Visit(log, j) in LowCells(log, n, k)
    decreases j - k
  {
    if k < j { LowCellMet(log, n, k + 1, j); }
  }

  lemma {:induction false} LowCellsDistinct(log: nat, n: nat, k: nat)
    requires log >= 4 && k <= Pow2(log)
    ensures Distinct(LowCells(log, n, k))
    decreases Pow2(log) - k
  {
    if k < Pow2(log) {
      LowCellsDistinct(log, n, k + 1);
      var rest := LowCells(log, n, k + 1);
      forall i | 0 <= i < |rest|
        ensures rest[i] != Visit(log, k)
      {
        var j := LowCellStep(log, n, k + 1, i);
        VisitOnce(log, k, j);
      }
    }
  }

  /** The walk that skips the cells from n on meets each cell below n exactly once. */
  lemma LowCellsAll(log: nat, n: nat)
    requires log >= 4 && n <= Pow2(log)
    ensures |LowCells(log, n, 0)| == n && Distinct(LowCells(log, n, 0))
    ensures forall c: nat :: c in LowCells(log, n, 0) <==> c < n
  {
    hide Pow2, Visit;
    var w := LowCells(log, n, 0);
    LowCellsDistinct(log, n, 0);
    forall c: nat
      ensures c in w <==> c < n
    {
      if c < n {
        RoundMeetsAll(log, c);
        var k :| 0 <= k < |Round(log)| && Round(log)[k] == c;
        LowCellMet(log, n, 0, k);
      }
      if c in w {
        var i :| 0 <= i < |w| && w[i] == c;
        var j := LowCellStep(log, n, 0, i);
      }
    }
    assert Elements(w) == Below(n);
  }

  // ----- normalised counts -----

  /** A count of -1 stands for a symbol rarer than one cell; it takes one cell all the same. */
  function Weight(v: int): nat
    requires v >= -1
  {
    if v == -1 then 1 else v
  }

  predicate Counts(norm: seq<int>) { forall k :: 0 <= k < |norm| ==> norm[k] >= -1 }

  function Total(norm: seq<int>): nat
    requires Counts(norm)
  {
    if norm == [] then 0 else Total(norm[..|norm| - 1]) + Weight(norm[|norm| - 1])
  }

  function Copies(n: int, s: nat): (r: seq<nat>)
    ensures |r| == (if n >= 0 then n else 0) && forall i :: 0 <= i < |r| ==> r[i] == s
  {
    if n >= 0 then seq(n, _ => s) else []
  }

  /** Every symbol as often as its count says, the rare ones left out. */
  function Expanded(norm: seq<int>): seq<nat>
  {
    if norm == [] then [] else Expanded(norm[..|norm| - 1]) + Copies(norm[|norm| - 1], |norm| - 1)
  }

  /** The rare symbols. */
  function Rare(norm: seq<int>): seq<nat>
  {
    if norm == [] then [] else Rare(norm[..|norm| - 1]) + (if norm[|norm| - 1] == -1 then [|norm| - 1] else [])
  }

  lemma {:induction false} Sizes(norm: seq<int>)
    requires Counts(norm)
    ensures |Expanded(norm)| + |Rare(norm)| == Total(norm)
    decreases |norm|
  {
    if norm != [] { Sizes(norm[..|norm| - 1]); }
  }

  /** The order in which cells get their symbols: the low cells along the walk, then the others from the top down. */
  function Order(log: nat, n: nat): (w: seq<nat>)
    requires n <= Pow2(log)
  {
    LowCells(log, n, 0) + Down(Pow2(log), Pow2(log) - n)
  }

  function Down(top: nat, n: nat): (s: seq<nat>)
    requires n <= top
    ensures |s| == n && forall j :: 0 <= j < n ==> s[j] == top - 1 - j
  {
    seq(n, j requires 0 <= j < n => top - 1 - j)
  }

  lemma OrderAll(log: nat, n: nat)
    requires log >= 4 && n <= Pow2(log)
    ensures |Order(log, n)| == Pow2(log) && Distinct(Order(log, n))
    ensures forall i :: 0 <= i < Pow2(log) ==> Order(log, n)[i] < Pow2(log)
  {
    hide Pow2, LowCells;
    LowCellsAll(log, n);
    var w := LowCells(log, n, 0);
    assert forall i :: 0 <= i < n ==> w[i] in w;
  }

  function Pick(t: seq<nat>, w: seq<nat>): (r: seq<nat>)
    requires forall i :: 0 <= i < |w| ==> w[i] < |t|
    ensures |r| == |w| && forall i :: 0 <= i < |w| ==> r[i] == t[w[i]]
  {
    seq(|w|, i requires 0 <= i < |w| => t[w[i]])
  }

  /** The table of symbols both sides build from the counts. */
  ghost predicate IsSpread(norm: seq<int>, log: nat, t: seq<nat>)
  {
    && log >= 4 && Counts(norm) && Total(norm) == Pow2(log) == |t|
    && |Expanded(norm)| <= Pow2(log)
    && var w := Order(log, |Expanded(norm)|);
       |w| == |t| && (forall i :: 0 <= i < |w| ==> w[i] < |t|) && Pick(t, w) == Expanded(norm) + Rare(norm)
  }

  /** There is one such table. */
  lemma SpreadUnique(norm: seq<int>, log: nat, t: seq<nat>, t': seq<nat>)
    requires IsSpread(norm, log, t) && IsSpread(norm, log, t')
    ensures t == t'
  {
    hide Pow2, Expanded, Rare, Order, Total, Pick;
    var w := Order(log, |Expanded(norm)|);
    OrderAll(log, |Expanded(norm)|);
    forall c | 0 <= c < |t|
      ensures t[c] == t'[c]
    {
      CellOrdered(w, |t|, c);
      var i :| 0 <= i < |w| && w[i] == c;
      assert Pick(t, w)[i] == Pick(t', w)[i];
    }
  }

  lemma CellOrdered(w: seq<nat>, n: nat, c: nat)
    requires Distinct(w) && |w| == n && (forall i :: 0 <= i < n ==> w[i] < n) && c < n
    ensures c in w
  {
    if c !in w {
      SubsetSize(Elements(w) + {c}, Below(n));
      assert false;
    }
  }

  /** Picking every cell once, in any order, rearranges the table. */
  lemma {:induction false} Rearranged(t: seq<nat>, w: seq<nat>)
    requires Distinct(w) && |w| <= |t| && forall i :: 0 <= i < |w| ==> w[i] < |w|
    ensures multiset(Pick(t, w)) == multiset(t[..|w|])
    decreases |w|
  {
    if w == [] {
      assert Pick(t, w) == [] && t[..0] == [];
    } else {
      var n := |w| - 1;
      CellOrdered(w, |w|, n);
      var i :| 0 <= i < |w| && w[i] == n;
      WithoutCell(w, i);
      Rearranged(t, Without(w, i));
      PickWithout(t, w, i);
      assert t[..|w|] == t[..n] + [t[n]];
    }
  }

  function Without(w: seq<nat>, i: nat): (r: seq<nat>)
    requires i < |w|
    ensures |r| == |w| - 1 && forall k :: 0 <= k < |r| ==> r[k] == w[if k < i then k else k + 1]
  {
    w[..i] + w[i + 1..]
  }

  lemma WithoutCell(w: seq<nat>, i: nat)
    requires i < |w| && w[i] == |w| - 1 && Distinct(w) && forall k :: 0 <= k < |w| ==> w[k] < |w|
    ensures Distinct(Without(w, i)) && forall k :: 0 <= k < |w| - 1 ==> Without(w, i)[k] < |w| - 1
  {
  }

  lemma PickWithout(t: seq<nat>, w: seq<nat>, i: nat)
    requires i < |w| && forall k :: 0 <= k < |w| ==> w[k] < |t|
    ensures multiset(Pick(t, w)) == multiset(Pick(t, Without(w, i))) + multiset{t[w[i]]}
  {
    var p := Pick(t, w);
    assert p == p[..i] + [p[i]] + p[i + 1..];
    assert Pick(t, Without(w, i)) == p[..i] + p[i + 1..];
  }

  lemma {:induction false} CountIsMultiplicity(t: seq<nat>, s: nat)
    ensures Count(t, s) == multiset(t)[s]
    decreases |t|
  {
    if t != [] {
      CountIsMultiplicity(t[..|t| - 1], s);
      assert t == t[..|t| - 1] + [t[|t| - 1]];
    }
  }

  lemma {:induction false} ExpandedMultiplicity(norm: seq<int>, s: nat)
    requires Counts(norm)
    ensures multiset(Expanded(norm))[s] == if s < |norm| && norm[s] >= 0 then norm[s] else 0
    decreases |norm|
  {
    if norm != [] {
      var k := |norm| - 1;
      ExpandedMultiplicity(norm[..k], s);
      CopiesMultiplicity(norm[k], k, s);
    }
  }

  lemma {:induction false} RareMultiplicity(norm: seq<int>, s: nat)
    requires Counts(norm)
    ensures multiset(Rare(norm))[s] == if s < |norm| && norm[s] == -1 then 1 else 0
    decreases |norm|
  {
    if norm != [] { RareMultiplicity(norm[..|norm| - 1], s); }
  }

  lemma {:induction false} CopiesMultiplicity(n: int, k: nat, s: nat)
    ensures multiset(Copies(n, k))[s] == if s == k && n >= 0 then n else 0
    decreases if n >= 0 then n else 0
  {
    if n > 0 {
      CopiesMultiplicity(n - 1, k, s);
      assert Copies(n, k) == Copies(n - 1, k) + [k];
    }
  }

  /** Every symbol takes as many cells as its count says, wherever the walk puts them. */
  lemma SpreadCounts(norm: seq<int>, log: nat, t: seq<nat>, s: nat)
    requires IsSpread(norm, log, t)
    ensures Count(t, s) == if s < |norm| then Weight(norm[s]) else 0
  {
    hide Pow2, Expanded, Rare, Order, Total, Pick, Count;
    var w := Order(log, |Expanded(norm)|);
    OrderAll(log, |Expanded(norm)|);
    Rearranged(t, w);
    assert t[..|w|] == t;
    CountIsMultiplicity(t, s);
    ExpandedMultiplicity(norm, s);
    RareMultiplicity(norm, s);
  }
}
