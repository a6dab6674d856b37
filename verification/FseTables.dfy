/** Building the tables of an FSE encoder and of an FSE decoder, in place. */
module FseTables {
  import opened Bits
  import opened Counting
  import opened FseSpread
  import opened FseCoding

  // ----- spreading the symbols -----

  /** The walk stands at the next cell to fill; when all are filled, at 0. */
  ghost predicate AtNextCell(log: nat, n: nat, placed: nat, k: nat, position: nat)
    requires log >= 4 && n <= Pow2(log)
  {
    && placed <= n && k <= Pow2(log)
    && position == Visit(log, k)
    && |LowCells(log, n, 0)| == n
    && LowCells(log, n, k) == LowCells(log, n, 0)[placed..]
    && (placed < n ==> k < Pow2(log) && position < n)
    && (placed == n ==> position == 0)
  }

  lemma WalkStarts(log: nat, n: nat)
    requires log >= 4 && n <= Pow2(log)
    ensures AtNextCell(log, n, 0, 0, 0)
  {
    LowCellsAll(log, n);
  }

  lemma WalkEndsAtZero(log: nat)
    requires log >= 4
    ensures Visit(log, Pow2(log)) == 0
  {
    hide Pow2, TableStep, Visit;
    var size := Pow2(log);
    var q := VisitRound(log, size);
    SameQuotient(TableStep(size), 0, q, Visit(log, size), size);
  }

  /** One step of the walk and past the cells above `high`. */
  method NextCell(position: nat, high: int, log: nat, ghost placed: nat, ghost k: nat) returns (next: nat, ghost k': nat)
    requires log >= 4 && -1 <= high < Pow2(log)
    requires AtNextCell(log, high + 1, placed, k, position) && placed <= high
    ensures AtNextCell(log, high + 1, placed + 1, k', next)
  {
    hide Pow2, TableStep;
    WalkEndsAtZero(log);
    assert LowCells(log, high + 1, k)[1..] == LowCells(log, high + 1, 0)[placed..][1..];
    next, k' := Wrap(position + TableStep(Pow2(log)), Pow2(log)), k + 1;
    while next > high
      invariant k < k' <= Pow2(log) && next == Visit(log, k')
      invariant LowCells(log, high + 1, k') == LowCells(log, high + 1, 0)[placed + 1..]
      invariant k' == Pow2(log) ==> next == 0
      decreases Pow2(log) - k'
    {
      next, k' := Wrap(next + TableStep(Pow2(log)), Pow2(log)), k' + 1;
    }
  }

  /** Expanding a longer list of counts only adds at the end. */
  lemma {:induction false} ExpandedPrefix(norm: seq<int>, k: nat)
    requires k <= |norm|
    ensures Expanded(norm[..k]) <= Expanded(norm) && Rare(norm[..k]) <= Rare(norm)
    decreases |norm|
  {
    if k == |norm| {
      assert norm[..k] == norm;
    } else {
      ExpandedPrefix(norm[..|norm| - 1], k);
      assert norm[..|norm| - 1][..k] == norm[..k];
    }
  }

  lemma ExpandedAt(norm: seq<int>, k: nat, j: nat)
    requires k < |norm| && norm[k] > j
    ensures |Expanded(norm[..k])| + j < |Expanded(norm)| && Expanded(norm)[|Expanded(norm[..k])| + j] == k
    ensures |Expanded(norm[..k + 1])| == |Expanded(norm[..k])| + norm[k]
  {
    ExpandedPrefix(norm, k + 1);
    assert norm[..k + 1][..k] == norm[..k];
  }

  lemma ExpandedNone(norm: seq<int>, k: nat)
    requires k < |norm| && norm[k] <= 0
    ensures Expanded(norm[..k + 1]) == Expanded(norm[..k])
    ensures Rare(norm[..k + 1]) == Rare(norm[..k]) + if norm[k] == -1 then [k] else []
  {
    assert norm[..k + 1][..k] == norm[..k];
  }

  lemma RareNone(norm: seq<int>, k: nat)
    requires k < |norm| && norm[k] != -1
    ensures Rare(norm[..k + 1]) == Rare(norm[..k])
  {
    assert norm[..k + 1][..k] == norm[..k];
  }

  /** The rare symbols take the cells at the end, from the top down. */
  method PlaceRare(t: array<nat>, norm: seq<int>) returns (high: int)
    requires Counts(norm) && |Rare(norm)| <= t.Length
    modifies t
    ensures high == t.Length - 1 - |Rare(norm)|
    ensures forall j :: 0 <= j < |Rare(norm)| ==> t[t.Length - 1 - j] == Rare(norm)[j]
  {
    high := t.Length - 1;
    for k := 0 to |norm|
      invariant high == t.Length - 1 - |Rare(norm[..k])| && |Rare(norm[..k])| <= |Rare(norm)|
      invariant forall j :: 0 <= j < |Rare(norm[..k])| ==> t[t.Length - 1 - j] == Rare(norm[..k])[j]
    {
      ExpandedPrefix(norm, k + 1);
      if norm[k] == -1 {
        ExpandedNone(norm, k);
        t[high] := k;
        high := high - 1;
      } else {
        RareNone(norm, k);
      }
    }
    assert norm[..|norm|] == norm;
  }

  /** The first cells of the walk hold their symbols. */
  ghost predicate Filled(t: seq<nat>, w: seq<nat>, symbols: seq<nat>, placed: nat)
  {
    placed <= |w| && placed <= |symbols| && forall i :: 0 <= i < placed ==> w[i] < |t| && t[w[i]] == symbols[i]
  }

  lemma FilledNext(t: seq<nat>, w: seq<nat>, symbols: seq<nat>, placed: nat, position: nat)
    requires Filled(t, w, symbols, placed) && placed < |w| && placed < |symbols| && Distinct(w) && position == w[placed] < |t|
    ensures Filled(t[position := symbols[placed]], w, symbols, placed + 1)
  {
  }

  /** The other symbols follow the walk. The walk ends where it began: every cell got one symbol. */
  method PlaceSymbols(t: array<nat>, norm: seq<int>, log: nat, high: int) returns (position: nat)
    requires log >= 4 && Counts(norm) && Total(norm) == Pow2(log) == t.Length
    requires high == t.Length - 1 - |Rare(norm)| && high + 1 == |Expanded(norm)|
    modifies t
    ensures position == 0
    ensures Filled(t[..], LowCells(log, high + 1, 0), Expanded(norm), high + 1)
    ensures forall c :: high < c < t.Length ==> t[c] == old(t[c])
  {
    hide Pow2, TableStep, LowCells, AtNextCell, Filled, Expanded, Rare, Total;
    ghost var n, w, k := high + 1, LowCells(log, high + 1, 0), 0;
    LowCellsAll(log, n);
    WalkStarts(log, n);
    FilledNone(t[..], w, Expanded(norm));
    position := 0;
    ghost var placed: nat := 0;
    ExpandedPrefix(norm, 0);
    NothingExpanded(norm);
    for symbol := 0 to |norm|
      invariant placed == |Expanded(norm[..symbol])| <= n && AtNextCell(log, n, placed, k, position)
      invariant Filled(t[..], w, Expanded(norm), placed)
      invariant forall c :: high < c < t.Length ==> t[c] == old(t[c])
    {
      for i := 0 to (if norm[symbol] >= 0 then norm[symbol] else 0)
        invariant placed == |Expanded(norm[..symbol])| + i <= n && AtNextCell(log, n, placed, k, position)
        invariant Filled(t[..], w, Expanded(norm), placed)
        invariant forall c :: high < c < t.Length ==> t[c] == old(t[c])
      {
        ExpandedAt(norm, symbol, i);
        CellToFill(log, n, placed, k, position);
        FilledNext(t[..], w, Expanded(norm), placed, position);
        t[position] := symbol;
        position, k := NextCell(position, high, log, placed, k);
        placed := placed + 1;
      }
      if norm[symbol] > 0 { ExpandedAt(norm, symbol, 0); } else { ExpandedNone(norm, symbol); }
    }
    assert norm[..|norm|] == norm;
    WalkDone(log, n, placed, k, position);
  }

  lemma FilledNone(t: seq<nat>, w: seq<nat>, symbols: seq<nat>)
    ensures Filled(t, w, symbols, 0)
  {
  }

  lemma NothingExpanded(norm: seq<int>)
    ensures |Expanded(norm[..0])| == 0
  {
  }

  lemma CellToFill(log: nat, n: nat, placed: nat, k: nat, position: nat)
    requires log >= 4 && n <= Pow2(log) && AtNextCell(log, n, placed, k, position) && placed < n
    ensures |LowCells(log, n, 0)| == n && position == LowCells(log, n, 0)[placed] < n
  {
    hide Pow2;
    assert LowCells(log, n, k)[0] == position;
  }

  lemma WalkDone(log: nat, n: nat, placed: nat, k: nat, position: nat)
    requires log >= 4 && n <= Pow2(log) && AtNextCell(log, n, placed, k, position) && placed == n
    ensures position == 0
  {
  }

  /** Both builders lay out the symbols like this. */
  method Spread(t: array<nat>, norm: seq<int>, log: nat) returns (position: nat)
    requires log >= 4 && Counts(norm) && Total(norm) == Pow2(log) == t.Length
    modifies t
    ensures position == 0 && IsSpread(norm, log, t[..])
  {
    hide Pow2, TableStep, LowCells, Filled, Expanded, Rare, Total, IsSpread;
    Sizes(norm);
    var high := PlaceRare(t, norm);
    position := PlaceSymbols(t, norm, log, high);
    SpreadDone(t[..], norm, log);
  }

  lemma SpreadDone(t: seq<nat>, norm: seq<int>, log: nat)
    requires log >= 4 && Counts(norm) && Total(norm) == Pow2(log) == |t|
    requires |Expanded(norm)| + |Rare(norm)| == |t|
    requires Filled(t, LowCells(log, |Expanded(norm)|, 0), Expanded(norm), |Expanded(norm)|)
    requires forall j :: 0 <= j < |Rare(norm)| ==> t[|t| - 1 - j] == Rare(norm)[j]
    ensures IsSpread(norm, log, t)
  {
    hide Pow2, LowCells, Expanded, Rare, Total;
    var n := |Expanded(norm)|;
    OrderAll(log, n);
    LowCellsAll(log, n);
    assert Pick(t, Order(log, n)) == Expanded(norm) + Rare(norm);
  }

  // ----- the encoder's table -----

  /** The first place of a symbol in the list of cells sorted by symbol. */
  function First(norm: seq<int>, s: nat): nat
    requires Counts(norm) && s <= |norm|
  {
    Total(norm[..s])
  }

  lemma FirstNext(norm: seq<int>, s: nat)
    requires Counts(norm) && s < |norm|
    ensures First(norm, s + 1) == First(norm, s) + Weight(norm[s])
  {
    assert norm[..s + 1][..s] == norm[..s];
  }

  lemma {:induction false} FirstMono(norm: seq<int>, s: nat, s': nat)
    requires Counts(norm) && s <= s' <= |norm|
    ensures First(norm, s) <= First(norm, s')
    decreases s' - s
  {
    if s < s' {
      FirstNext(norm, s);
      FirstMono(norm, s + 1, s');
    }
  }

  /** The counts of a table of symbols are the normalised ones. */
  ghost predicate HasCounts(cells: seq<nat>, norm: seq<int>)
  {
    && Counts(norm)
    && (forall u :: 0 <= u < |cells| ==> cells[u] < |norm|)
    && forall s :: 0 <= s < |norm| ==> Count(cells, s) == Weight(norm[s])
  }

  lemma SpreadHasCounts(norm: seq<int>, log: nat, t: seq<nat>)
    requires IsSpread(norm, log, t)
    ensures HasCounts(t, norm) && TableOk(t, log)
  {
    forall s: nat
      ensures Count(t, s) == if s < |norm| then Weight(norm[s]) else 0
    {
      SpreadCounts(norm, log, t, s);
    }
    forall u | 0 <= u < |t|
      ensures t[u] < |norm|
    {
      CountPrefix(t, u, t[u]);
    }
  }

  /** The place of a cell when the cells are sorted by symbol. */
  function Place(cells: seq<nat>, norm: seq<int>, u: nat): nat
    requires Counts(norm) && u < |cells| && cells[u] < |norm|
  {
    First(norm, cells[u]) + Count(cells[..u], cells[u])
  }

  lemma PlaceInside(cells: seq<nat>, norm: seq<int>, u: nat)
    requires HasCounts(cells, norm) && u < |cells|
    ensures First(norm, cells[u]) <= Place(cells, norm, u) < First(norm, cells[u] + 1) <= Total(norm)
  {
    hide Count, Total;
    CountPrefix(cells, u, cells[u]);
    FirstNext(norm, cells[u]);
    FirstMono(norm, cells[u] + 1, |norm|);
    assert norm[..|norm|] == norm;
  }

  /** Different cells have different places. */
  lemma PlaceOnce(cells: seq<nat>, norm: seq<int>, u: nat, v: nat)
    requires HasCounts(cells, norm) && u < v < |cells|
    ensures Place(cells, norm, u) != Place(cells, norm, v)
  {
    hide Count, First;
    PlaceInside(cells, norm, u);
    PlaceInside(cells, norm, v);
    if cells[u] == cells[v] {
      CountPrefix(cells[..v], u, cells[u]);
      assert cells[..v][..u] == cells[..u];
    } else if cells[u] < cells[v] {
      FirstMono(norm, cells[u] + 1, cells[v]);
    } else {
      FirstMono(norm, cells[v] + 1, cells[u]);
    }
  }

  datatype SymbolTransform = SymbolTransform(deltaNbBits: int, deltaFindState: int)

  /** One number that yields the bits to write from any state: 16 bits of fraction decide between two lengths. */
  function DeltaNbBits(log: nat, n: nat): int
    requires n >= 1
  {
    if n == 1 then log * 0x1_0000 - Pow2(log)
    else
      var maxBitsOut := log - (BitLen(n - 1) - 1);
      if maxBitsOut < 0 then 0 else maxBitsOut * 0x1_0000 - Shl(n, maxBitsOut)
  }

  lemma ShrBetween(x: nat, k: nat, a: nat, b: nat)
    requires a * Pow2(k) <= x < b * Pow2(k)
    ensures a <= Shr(x, k) < b
  {
    hide Pow2, Shr, Low;
    ShrLow(x, k);
    var q, p := Shr(x, k), Pow2(k);
    if q < a { MulDifference(a, q + 1, p); MulDifference(q + 1, q, p); }
    if q >= b { MulDifference(q, b, p); }
  }

  /** The fraction trick computes the number of bits after which fewer than 2n values remain. */
  lemma DeltaMeaning(log: nat, n: nat, x: nat)
    requires 1 <= n <= Pow2(log) <= x < 2 * Pow2(log) <= 0x1_0000
    ensures (x + DeltaNbBits(log, n)) / 0x1_0000 == Shrink(x, n)
  {
    hide Pow2, Shr, Low, BitLen, Shrink;
    if n == 1 {
      assert x - Pow2(log) + log * 0x1_0000 == x + DeltaNbBits(log, n);
      BitLenIs(x, log);
      BitLenTop(x);
      ShrinkIs(x, 1, log);
    } else {
      DeltaMeaningMany(log, n, x);
    }
  }

  lemma DeltaMeaningMany(log: nat, n: nat, x: nat)
    requires 2 <= n <= Pow2(log) <= x < 2 * Pow2(log) <= 0x1_0000
    ensures (x + DeltaNbBits(log, n)) / 0x1_0000 == Shrink(x, n)
  {
    hide Pow2, Shr, Low, BitLen, Shrink;
    BitLenRange(n - 1);
    var h := BitLen(n - 1) - 1;
    if h >= log { Pow2Mono(log, h); }
    var mb := log - h;
    var p := Pow2(mb);
    Pow2Add(h, mb);
    MulDouble(p, Pow2(h));
    MulDifference(2 * Pow2(h), n, p);
    var least := n * p;
    assert DeltaNbBits(log, n) == mb * 0x1_0000 - least;
    if x >= least {
      Quotient(x - least, mb);
      MulDifference(2 * n, 2 * Pow2(h), p);
      ShrBetween(x, mb, n, 2 * n);
      ShrinkIs(x, n, mb);
    } else {
      Quotient(x - least + 0x1_0000, mb - 1);
      Pow2Next(mb - 1);
      var half := Pow2(mb - 1);
      MulDouble(n, half);
      MulDouble(Pow2(h), half);
      MulDouble(half, Pow2(h));
      MulDouble(half, n);
      MulDifference(2 * Pow2(h), n, half);
      ShrBetween(x, mb - 1, n, 2 * n);
      ShrinkIs(x, n, mb - 1);
    }
  }

  lemma Quotient(r: int, q: int)
    requires 0 <= r < 0x1_0000
    ensures (r + q * 0x1_0000) / 0x1_0000 == q
  {
  }
}
