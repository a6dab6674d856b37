/** FSE tables in numbers: where the walk leads, in which order the states of a symbol come, and a table of the format in full. */
module FseFacts {
  import opened Bits
  import opened Counting
  import opened FseSpread
  import opened FseCoding

  /** The walk goes on by five eighths of the table and three, round and round. */
  lemma VisitIs(log: nat, k: nat)
    requires log >= 4
    ensures Visit(log, k) == k * (5 * Pow2(log - 3) + 3) % Pow2(log)
  {
    hide Pow2, Visit;
    var q := VisitRound(log, k);
    EightParts(log);
    SameRest(k * (5 * Pow2(log - 3) + 3), q, Pow2(log), Visit(log, k));
  }

  lemma EightParts(log: nat)
    requires log >= 4
    ensures Pow2(log) == 8 * Pow2(log - 3) && TableStep(Pow2(log)) == 5 * Pow2(log - 3) + 3
  {
    hide Pow2, TableStep;
    Sixteen(log);
    Pow2Next(log - 4);
    assert Pow2(log - 4 + 1) == Pow2(log - 3);
    StepOf(Pow2(log - 3));
  }

  lemma StepOf(w: nat)
    ensures TableStep(8 * w) == 5 * w + 3
  {
    assert 8 * w / 2 == 4 * w && 8 * w / 8 == w;
  }

  lemma SameRest(x: nat, q: nat, size: nat, r: nat)
    requires x == q * size + r && r < size
    ensures x % size == r
  {
    SameQuotient(x / size, x % size, q, r, size);
  }

  /** Of two cells of a symbol the lower one comes first in the states the decoder goes on with. */
  lemma StatesInOrder(t: seq<nat>, u: nat, v: nat)
    requires u < v < |t| && t[u] == t[v]
    ensures NextState(t, u) < NextState(t, v)
  {
    hide Count;
    CountPrefix(t[..v], u, t[u]);
    assert t[..v][..u] == t[..u];
  }

  /**
   The row of a cell, when its symbol has n cells, r of them lower: so many bits that n + r shifted by them comes between the size
   of the table and twice the size, and the base is what it exceeds the size by.
   */
  lemma RowIs(t: seq<nat>, log: nat, u: nat)
    requires TableOk(t, log) && u < |t|
    ensures var n, r, nb := Count(t, t[u]), Count(t[..u], t[u]), NbBits(t, log, u);
            && r < n && Pow2(log) <= (n + r) * Pow2(nb) < 2 * Pow2(log)
            && Base(t, log, u) == (n + r) * Pow2(nb) - Pow2(log)
  {
    hide Pow2, Count, BitLen;
    CountPrefix(t, u, t[u]);
    BaseOk(t, log, u);
  }

  /** A symbol with five cells out of 128: bits and bases from the lowest cell up. */
  lemma FiveCells(t: seq<nat>, u: nat)
    requires TableOk(t, 7) && u < |t| && Count(t, t[u]) == 5
    ensures var r := Count(t[..u], t[u]);
            r < 5 && NbBits(t, 7, u) == [5, 5, 5, 4, 4][r] && Base(t, 7, u) == [32, 64, 96, 0, 16][r]
  {
    hide Pow2, Count, NbBits, Base;
    RowIs(t, 7, u);
    PowersToByte();
    var nb := NbBits(t, 7, u);
    if nb >= 6 { Pow2Mono(6, nb); }
    if nb <= 3 { Pow2Mono(nb, 3); }
    assert Pow2(3) == 8 && Pow2(4) == 16 && Pow2(5) == 32 && Pow2(6) == 64 by { SmallOnes(); }
  }

  lemma SmallOnes()
    ensures Pow2(2) == 4 && Pow2(3) == 8 && Pow2(4) == 16 && Pow2(5) == 32 && Pow2(6) == 64
  {
  }

  // ----- the symbols of the cells -----

  /** How many of the first k steps lead below n. */
  function LowSteps(log: nat, n: nat, k: nat): (b: nat)
    ensures b <= k
  {
    if k == 0 then 0 else LowSteps(log, n, k - 1) + if Visit(log, k - 1) < n then 1 else 0
  }

  /**
   The rare symbols take the last cells, from the end down. The others take the cells below them along the walk, every symbol as
   many as its count, in their order: the cell of step k gets the symbol whose turn it is after the steps before k that led below.
   */
  lemma CellAt(norm: seq<int>, log: nat, t: seq<nat>, k: nat)
    requires IsSpread(norm, log, t) && k < Pow2(log)
    ensures |Rare(norm)| + |Expanded(norm)| == |t|
    ensures var n, c := |Expanded(norm)|, Visit(log, k);
            c < |t| && if c >= n then t[c] == Rare(norm)[|t| - 1 - c] else LowSteps(log, n, k) < n && t[c] == Expanded(norm)[LowSteps(log, n, k)]
  {
    hide Pow2, Expanded, Rare, LowCells, Visit, Total, LowSteps;
    Sizes(norm);
    var n, c, w := |Expanded(norm)|, Visit(log, k), Order(log, |Expanded(norm)|);
    var q := VisitRound(log, k);
    LowCellsAll(log, n);
    if c < n {
      TurnOf(log, n, 0, k);
      NoLowSteps(log, n);
      var i := LowSteps(log, n, k);
      assert w[i] == c && Pick(t, w)[i] == Expanded(norm)[i];
    } else {
      var i := n + (|t| - 1 - c);
      assert w[i] == c && Pick(t, w)[i] == Rare(norm)[|t| - 1 - c];
    }
  }

  lemma NoLowSteps(log: nat, n: nat)
    ensures LowSteps(log, n, 0) == 0
  {
  }

  lemma {:induction false} TurnOf(log: nat, n: nat, j: nat, k: nat)
    requires j <= k < Pow2(log) && Visit(log, k) < n
    ensures var i := LowSteps(log, n, k) - LowSteps(log, n, j);
            0 <= i < |LowCells(log, n, j)| && LowCells(log, n, j)[i] == Visit(log, k)
    decreases k - j
  {
    hide Pow2, Visit;
    if j < k {
      TurnOf(log, n, j + 1, k);
    }
  }

  /** A symbol's turns come after those of all lower symbols. */
  lemma {:induction false} ExpandedAt(norm: seq<int>, s: nat, i: nat)
    requires Counts(norm) && s < |norm| && norm[s] >= 1 && |Expanded(norm[..s])| <= i < |Expanded(norm[..s])| + norm[s]
    ensures i < |Expanded(norm)| && Expanded(norm)[i] == s
    decreases |norm|
  {
    if s == |norm| - 1 {
      assert norm[..s] == norm[..|norm| - 1];
    } else {
      assert norm[..|norm| - 1][..s] == norm[..s];
      ExpandedAt(norm[..|norm| - 1], s, i);
    }
  }

  /** Counts of 16 for each of two symbols: the table of 32 cells. */
  lemma EvenTable(t: seq<nat>, c: nat)
    requires IsSpread([16, 16], 5, t) && c < 32
    ensures |t| == 32 && t[c] == if 7 * c % 32 < 16 then 0 else 1
  {
    hide IsSpread, Expanded, Visit, LowSteps, Rare;
    var norm, k := [16, 16], 7 * c % 32;
    SmallOnes();
    SpreadSize(norm, 5, t);
    EvenExpanded();
    VisitIs(5, k);
    Inverse(c);
    CellAt(norm, 5, t, k);
    AllBelow(5, 32, k);
    if k < 16 { ExpandedAt(norm, 0, k); } else { ExpandedAt(norm, 1, k); }
  }

  lemma SpreadSize(norm: seq<int>, log: nat, t: seq<nat>)
    requires IsSpread(norm, log, t)
    ensures |t| == Pow2(log)
  {
  }

  lemma EvenExpanded()
    ensures Counts([16, 16]) && |Expanded([16, 16][..0])| == 0 && |Expanded([16, 16][..1])| == 16 && |Expanded([16, 16])| == 32
  {
    assert [16, 16][..1] == [16] && [16, 16][..0] == [] && [16][..0] == [];
  }

  lemma Inverse(c: nat)
    requires c < 32
    ensures 7 * c % 32 * 23 % 32 == c
  {
    var q := 7 * c / 32;
    assert 7 * c % 32 * 23 == 161 * c - 736 * q == 32 * (5 * c - 23 * q) + c;
  }

  lemma {:induction false} AllBelow(log: nat, n: nat, k: nat)
    requires log >= 4 && n == Pow2(log)
    ensures LowSteps(log, n, k) == k
    decreases k
  {
    hide Pow2, Visit;
    if k > 0 {
      AllBelow(log, n, k - 1);
      var q := VisitRound(log, k - 1);
    }
  }
}
