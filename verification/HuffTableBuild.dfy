/** From the histogram of a block to its table of codes. */
module HuffTableBuild {
  import opened Bits
  import opened Counting
  import opened HuffCodes
  import opened HuffBuild
  import opened HuffTables
  import HuffTree
  import HuffOptimal
  import HuffForest
  import HuffRepay
  import HuffSort
  import HuffLimit

  const MIN_TABLE_LOG: nat := 5
  const BLOCK_SIZE_MAX: nat := 0x3_FFFF

  // ----- sums over symbols in any order -----

  predicate Different(syms: seq<nat>, n: nat)
  {
    Distinct(syms) && forall k :: 0 <= k < |syms| ==> syms[k] < n
  }

  lemma {:induction false} SumSet(g: seq<nat>, p: nat, n: nat)
    requires p < |g| && n <= |g|
    ensures Sum(g[p := 0], n) + (if p < n then g[p] else 0) == Sum(g, n)
    decreases n
  {
    if n > 0 { SumSet(g, p, n - 1); }
  }

  lemma {:induction false} SumAtSet(syms: seq<nat>, g: seq<nat>, p: nat)
    requires p < |g| && forall k :: 0 <= k < |syms| ==> syms[k] < |g| && syms[k] != p
    ensures HuffTree.SumAt(syms, g[p := 0]) == HuffTree.SumAt(syms, g)
    decreases |syms|
  {
    if syms != [] { SumAtSet(syms[..|syms| - 1], g, p); }
  }

  /** Adding up over different symbols gives at most the whole, and all of it if no other symbol has anything. */
  lemma {:induction false} DistinctSum(syms: seq<nat>, g: seq<nat>)
    requires Different(syms, |g|)
    ensures HuffTree.SumAt(syms, g) <= Sum(g, |g|)
    ensures (forall s :: 0 <= s < |g| && s !in syms ==> g[s] == 0) ==> HuffTree.SumAt(syms, g) == Sum(g, |g|)
    decreases |syms|
  {
    if syms == [] {
      if forall s :: 0 <= s < |g| && s !in syms ==> g[s] == 0 { SumZeros(g, 0, |g|); }
    } else {
      var front, p := syms[..|syms| - 1], syms[|syms| - 1];
      DistinctSum(front, g[p := 0]);
      SumSet(g, p, |g|);
      SumAtSet(front, g, p);
      assert forall s :: s in syms ==> s in front || s == p;
    }
  }

  // ----- the lengths of the symbols -----

  /** The lengths after the first n nodes have passed theirs on. */
  function Passed(ns: seq<NodeElt>, size: nat, n: nat): (lens: seq<nat>)
    requires n < |ns| && forall k :: 1 <= k <= n ==> ns[k].symbol < size
    ensures |lens| == size
  {
    if n == 0 then seq(size, _ => 0) else Passed(ns, size, n - 1)[ns[n].symbol := ns[n].nbBits]
  }

  /** The symbols of the first n nodes. */
  function Symbols(ns: seq<NodeElt>, n: nat): (syms: seq<nat>)
    requires n < |ns|
    ensures |syms| == n && forall i :: 0 <= i < n ==> syms[i] == ns[i + 1].symbol
  {
    seq(n, i requires 0 <= i < n => ns[i + 1].symbol)
  }

  lemma {:induction false} PassedIs(ns: seq<NodeElt>, size: nat, n: nat)
    requires n < |ns| && Different(Symbols(ns, n), size)
    ensures forall k :: 1 <= k <= n ==> ns[k].symbol < size
    ensures forall k :: 1 <= k <= n ==> Passed(ns, size, n)[ns[k].symbol] == ns[k].nbBits
    ensures forall s :: 0 <= s < size && s !in Symbols(ns, n) ==> Passed(ns, size, n)[s] == 0
    decreases n
  {
    forall k | 1 <= k <= n ensures ns[k].symbol < size { assert Symbols(ns, n)[k - 1] < size; }
    if n > 0 {
      assert Symbols(ns, n) == Symbols(ns, n - 1) + [ns[n].symbol];
      assert Symbols(ns, n - 1) == Symbols(ns, n)[..n - 1];
      PassedIs(ns, size, n - 1);
      forall k | 1 <= k < n ensures ns[k].symbol != ns[n].symbol { assert Symbols(ns, n)[k - 1] != Symbols(ns, n)[n - 1]; }
    }
  }

  lemma {:induction false} LevelSet(lens: seq<nat>, p: nat, v: nat, l: nat, n: nat)
    requires p < |lens| && n <= |lens| && lens[p] != l
    ensures Level(lens[p := v], l, n) == Level(lens, l, n) + if p < n && v == l then 1 else 0
    decreases n
  {
    if n > 0 { LevelSet(lens, p, v, l, n - 1); }
  }

  /** Counts how many nodes have each length. */
  method CountRanks(node: array<NodeElt>, size: nat, n: nat, m: nat) returns (nb: array<nat>)
    requires n < node.Length && Different(Symbols(node[..], n), size) && m <= TABLE_LOG_MAX && forall k :: 1 <= k <= n ==> node[k].nbBits <= m
    ensures fresh(nb) && nb.Length == TABLE_LOG_MAX + 1
    ensures forall k :: 1 <= k <= n ==> node[k].symbol < size
    ensures forall l :: 1 <= l <= m ==> nb[l] == Level(Passed(node[..], size, n), l, size)
  {
    hide Level;
    ghost var ns := node[..];
    SymbolsBelow(ns, size, n);
    nb := new nat[TABLE_LOG_MAX + 1](_ => 0);
    LevelsOfNone(ns, size);
    for i := 0 to n
      invariant forall l :: 1 <= l <= m ==> nb[l] == Level(Passed(ns, size, i), l, size)
    {
      FreshSymbol(ns, size, n, i);
      forall l | 1 <= l <= m
        ensures Level(Passed(ns, size, i + 1), l, size) == Level(Passed(ns, size, i), l, size) + if ns[i + 1].nbBits == l then 1 else 0
      {
        LevelSet(Passed(ns, size, i), ns[i + 1].symbol, ns[i + 1].nbBits, l, size);
      }
      nb[node[i + 1].nbBits] := nb[node[i + 1].nbBits] + 1;
    }
  }

  lemma SymbolsBelow(ns: seq<NodeElt>, size: nat, n: nat)
    requires n < |ns| && Different(Symbols(ns, n), size)
    ensures forall k :: 1 <= k <= n ==> ns[k].symbol < size
  {
    forall k | 1 <= k <= n ensures ns[k].symbol < size { assert Symbols(ns, n)[k - 1] < size; }
  }

  lemma {:induction false} LevelsAre(lens: seq<nat>, l: nat, n: nat)
    requires n <= |lens| && forall s :: 0 <= s < n ==> lens[s] != l
    ensures Level(lens, l, n) == 0
    decreases n
  {
    if n > 0 { LevelsAre(lens, l, n - 1); }
  }

  lemma LevelsOfNone(ns: seq<NodeElt>, size: nat)
    requires ns != []
    ensures forall l: nat :: l >= 1 ==> Level(Passed(ns, size, 0), l, size) == 0
  {
    forall l: nat | l >= 1 ensures Level(Passed(ns, size, 0), l, size) == 0 { LevelsAre(Passed(ns, size, 0), l, size); }
  }

  /** No earlier node has the same symbol. */
  lemma FreshSymbol(ns: seq<NodeElt>, size: nat, n: nat, i: nat)
    requires i < n < |ns| && Different(Symbols(ns, n), size)
    ensures forall k :: 1 <= k <= i ==> ns[k].symbol < size
    ensures ns[i + 1].symbol < size && Passed(ns, size, i)[ns[i + 1].symbol] == 0
    ensures Passed(ns, size, i + 1) == Passed(ns, size, i)[ns[i + 1].symbol := ns[i + 1].nbBits]
  {
    SymbolsBelow(ns, size, n);
    var some, all := Symbols(ns, i), Symbols(ns, n);
    assert some == all[..i];
    assert all[i] == ns[i + 1].symbol;
    PassedIs(ns, size, i);
  }

  // ----- how long codes may get -----

  lemma HighBitIs(v: nat)
    requires v >= 1
    ensures Pow2(HighBit(v)) <= v < Pow2(HighBit(v) + 1)
  {
    hide Pow2;
    BitLenRange(v);
    Pow2Next(HighBit(v));
  }

  /** Codes of l bits will do: no more than asked or four bytes for each, and two for each symbol or more codes than bytes. */
  predicate WillDo(asked: nat, srcLen: nat, symbolLen: nat, l: nat)
  {
    l == TABLE_LOG_MAX || ((asked <= l || srcLen <= Pow2(l + 2)) && (2 * symbolLen <= Pow2(l) || srcLen < Pow2(l)))
  }

  ghost predicate IsLimit(asked: nat, srcLen: nat, symbolLen: nat, log: nat)
  {
    WillDo(asked, srcLen, symbolLen, log) && forall l :: MIN_TABLE_LOG <= l < log ==> !WillDo(asked, srcLen, symbolLen, l)
  }

  /** The limit asked for, less where the block is short, but never so low that its symbols do not fit. */
  method OptimalTableLog(asked: nat, srcLen: nat, symbolLen: nat) returns (log: nat)
    requires MIN_TABLE_LOG <= asked <= TABLE_LOG_MAX && 2 <= srcLen <= BLOCK_SIZE_MAX && 2 <= symbolLen <= 256
    ensures MIN_TABLE_LOG <= log <= TABLE_LOG_MAX && (symbolLen <= Pow2(log) || srcLen <= Pow2(log))
    ensures srcLen >= 3 ==> IsLimit(asked, srcLen, symbolLen, log)
  {
    hide Pow2, BitLen, WillDo;
    SourceLess(srcLen);
    var minBitsSrc := HighBit(srcLen) + 1;
    var minBitsSymbols := HighBit(symbolLen - 1) + 2;
    var minBits := if minBitsSrc < minBitsSymbols then minBitsSrc else minBitsSymbols;
    var maxBitsSrc := (HighBit(srcLen - 1) - 1) % 256;
    log := asked;
    if maxBitsSrc < log { log := maxBitsSrc; }
    if minBits > log { log := minBits; }
    if log < MIN_TABLE_LOG { log := MIN_TABLE_LOG; }
    Fits(srcLen, symbolLen, log);
    if log > TABLE_LOG_MAX { log := TABLE_LOG_MAX; }
    forall l: nat | MIN_TABLE_LOG <= l <= TABLE_LOG_MAX
      ensures WillDo(asked, srcLen, symbolLen, l) <==>
              l == TABLE_LOG_MAX || ((asked <= l || BitLen(srcLen - 1) <= l + 2) && (BitLen(symbolLen - 1) + 1 <= l || BitLen(srcLen) <= l))
    {
      WillDoIs(asked, srcLen, symbolLen, l);
    }
  }

  lemma SourceLess(srcLen: nat)
    requires 2 <= srcLen <= BLOCK_SIZE_MAX
    ensures 1 <= BitLen(srcLen - 1) <= 18 && (srcLen >= 3 ==> BitLen(srcLen - 1) >= 2)
  {
    hide BitLen, Pow2;
    PowersToByte();
    FirstPowers();
    Pow2Add(8, 8);
    Pow2Add(16, 2);
    BitLenAtMost(srcLen - 1, 0);
    BitLenAtMost(srcLen - 1, 1);
    BitLenAtMost(srcLen - 1, 18);
  }

  lemma WillDoIs(asked: nat, srcLen: nat, symbolLen: nat, l: nat)
    requires srcLen >= 1 && symbolLen >= 1 && l >= 1
    ensures WillDo(asked, srcLen, symbolLen, l) <==>
            l == TABLE_LOG_MAX || ((asked <= l || BitLen(srcLen - 1) <= l + 2) && (BitLen(symbolLen - 1) + 1 <= l || BitLen(srcLen) <= l))
  {
    hide BitLen, Pow2;
    BitLenAtMost(srcLen - 1, l + 2);
    BitLenAtMost(symbolLen - 1, l - 1);
    BitLenAtMost(srcLen, l);
    Pow2Next(l - 1);
  }

  lemma Fits(srcLen: nat, symbolLen: nat, log: nat)
    requires 1 <= srcLen && 2 <= symbolLen <= 256
    requires log > HighBit(srcLen) || log > HighBit(symbolLen - 1) + 1
    ensures symbolLen <= Pow2(log) || srcLen <= Pow2(log)
    ensures symbolLen <= Pow2(TABLE_LOG_MAX)
  {
    hide Pow2;
    HighBitIs(srcLen);
    HighBitIs(symbolLen - 1);
    if log > HighBit(srcLen) { Pow2Mono(HighBit(srcLen) + 1, log); } else { Pow2Mono(HighBit(symbolLen - 1) + 1, log); }
    PowersToByte();
    Pow2Mono(8, TABLE_LOG_MAX);
  }

  // ----- the histogram -----

  /** Occurrences of the symbols up to the last one that occurs; no symbol is all there is. */
  ghost predicate Histogram(counts: seq<nat>)
  {
    && 2 <= |counts| <= 256 && counts[|counts| - 1] >= 1
    && Sum(counts, |counts|) <= BLOCK_SIZE_MAX
    && forall s :: 0 <= s < |counts| ==> counts[s] < Sum(counts, |counts|)
  }

  /** Some other symbol occurs too. */
  lemma AnotherSymbol(counts: seq<nat>) returns (s: nat)
    requires Histogram(counts)
    ensures s < |counts| - 1 && counts[s] >= 1
  {
    hide Sum;
    var last := |counts| - 1;
    DistinctSum([last], counts);
    assert HuffTree.SumAt([last], counts) == HuffTree.SumAt([], counts) + counts[last] by { assert [last][..0] == []; }
    if forall i :: 0 <= i < last ==> counts[i] == 0 { assert false; }
    s :| s < last && counts[s] >= 1;
  }

  function Counts(ns: seq<NodeElt>, n: nat): (counts: seq<nat>)
    requires n < |ns|
    ensures |counts| == n && forall i :: 0 <= i < n ==> counts[i] == ns[i + 1].count
  {
    seq(n, i requires 0 <= i < n => ns[i + 1].count)
  }

  lemma {:induction false} SumOfSymbols(ns: seq<NodeElt>, counts: seq<nat>, n: nat)
    requires n < |ns| && forall k :: 1 <= k <= n ==> ns[k].symbol < |counts| && ns[k].count == counts[ns[k].symbol]
    ensures HuffTree.SumAt(Symbols(ns, n), counts) == Sum(Counts(ns, n), n)
    decreases n
  {
    if n > 0 {
      SumOfSymbols(ns, counts, n - 1);
      assert Symbols(ns, n)[..n - 1] == Symbols(ns, n - 1);
      SumFront(Counts(ns, n - 1), Counts(ns, n), n - 1);
    }
  }

  lemma {:induction false} SumPositive(g: seq<nat>, n: nat)
    requires n <= |g| && forall i :: 0 <= i < n ==> g[i] >= 1
    ensures Sum(g, n) >= n
    decreases n
  {
    if n > 0 { SumPositive(g, n - 1); }
  }

  /** The nodes in use: all symbols that occur, each once. */
  ghost predicate InUse(ns: seq<NodeElt>, counts: seq<nat>, n: nat)
  {
    && 2 <= n <= |counts| < |ns| && Different(Symbols(ns, n), |counts|)
    && (forall k :: 1 <= k <= n ==> ns[k].symbol < |counts| && ns[k].count == counts[ns[k].symbol] >= 1)
    && (forall s :: 0 <= s < |counts| && counts[s] >= 1 ==> s in Symbols(ns, n))
  }

  lemma Place(ns: seq<NodeElt>, counts: seq<nat>, at: seq<nat>, n: nat, s: nat)
    requires HuffSort.Sorted(ns, counts, at) && n <= |counts| && s < |counts| && counts[s] >= 1
    requires forall k :: n < k <= |counts| ==> ns[k].count == 0
    ensures at[s] < n && Symbols(ns, n)[at[s]] == s
  {
    hide HuffSort.Falling;
    assert ns[at[s] + 1].symbol == s;
    assert ns[at[s] + 1].count == counts[s];
  }

  lemma SortedDistinct(ns: seq<NodeElt>, counts: seq<nat>, at: seq<nat>, n: nat)
    requires HuffSort.Sorted(ns, counts, at) && n <= |counts|
    ensures Different(Symbols(ns, n), |counts|)
  {
    hide HuffSort.Falling;
    var syms := Symbols(ns, n);
    forall j, k | 0 <= j < k < n ensures syms[j] != syms[k] {
      assert at[ns[j + 1].symbol] == j && at[ns[k + 1].symbol] == k;
    }
  }

  lemma SortedCounts(ns: seq<NodeElt>, counts: seq<nat>, at: seq<nat>, n: nat)
    requires HuffSort.Sorted(ns, counts, at) && 1 <= n <= |counts| && ns[n].count >= 1
    ensures forall k :: 1 <= k <= n ==> ns[k].symbol < |counts| && ns[k].count == counts[ns[k].symbol] >= 1
  {
  }

  lemma SortedInUse(ns: seq<NodeElt>, counts: seq<nat>, at: seq<nat>, n: nat)
    requires HuffSort.Sorted(ns, counts, at) && Histogram(counts) && 1 <= n <= |counts| && ns[n].count >= 1
    requires forall k :: n < k <= |counts| ==> ns[k].count == 0
    ensures InUse(ns, counts, n)
  {
    hide Sum, HuffSort.Sorted;
    SortedIs(ns, counts, at);
    SortedDistinct(ns, counts, at, n);
    SortedCounts(ns, counts, at, n);
    forall s | 0 <= s < |counts| && counts[s] >= 1 ensures s in Symbols(ns, n) { Place(ns, counts, at, n, s); }
    var s := AnotherSymbol(counts);
    Place(ns, counts, at, n, s);
    Place(ns, counts, at, n, |counts| - 1);
  }

  lemma SortedIs(ns: seq<NodeElt>, counts: seq<nat>, at: seq<nat>)
    requires HuffSort.Sorted(ns, counts, at)
    ensures |at| == |counts| < |ns|
  {
  }

  lemma NodesFit(ns: seq<NodeElt>, counts: seq<nat>, n: nat)
    requires InUse(ns, counts, n)
    ensures n <= Sum(Counts(ns, n), n) <= Sum(counts, |counts|)
  {
    SumOfSymbols(ns, counts, n);
    DistinctSum(Symbols(ns, n), counts);
    SumPositive(Counts(ns, n), n);
  }

  lemma StillInUse(ns: seq<NodeElt>, ns': seq<NodeElt>, counts: seq<nat>, n: nat)
    requires InUse(ns, counts, n) && SameLeaves(ns, ns', n)
    ensures InUse(ns', counts, n) && Symbols(ns', n) == Symbols(ns, n)
  {
    assert Symbols(ns', n) == Symbols(ns, n);
  }

  // ----- the bits needed -----

  /** Lengths that a prefix code for the symbols that occur could have, of at most l bits. */
  ghost predicate Possible(counts: seq<nat>, other: seq<nat>, l: nat)
  {
    && |other| == |counts| && (forall s :: 0 <= s < |other| ==> other[s] <= l && (counts[s] >= 1 ==> other[s] >= 1))
    && Sum(Taken(other, l), |other|) <= Pow2(l)
  }

  /** No prefix code, whatever its longest code, needs fewer bits for symbols that occur so often. */
  ghost predicate LeastBits(counts: seq<nat>, lens: seq<nat>)
  {
    && |lens| == |counts|
    && forall l: nat, other: seq<nat> :: Possible(counts, other, l) ==> HuffOptimal.Cost(counts, lens) <= HuffOptimal.Cost(counts, other)
  }

  function Products(counts: seq<nat>, ls: seq<nat>): (g: seq<nat>)
    requires |ls| == |counts|
    ensures |g| == |counts| && forall s :: 0 <= s < |g| ==> g[s] == HuffOptimal.Times(counts[s], ls[s])
  {
    seq(|counts|, s requires 0 <= s < |counts| => HuffOptimal.Times(counts[s], ls[s]))
  }

  lemma {:induction false} CostIsSum(counts: seq<nat>, ls: seq<nat>)
    requires |counts| == |ls|
    ensures HuffOptimal.Cost(counts, ls) == Sum(Products(counts, ls), |counts|)
    decreases |counts|
  {
    hide HuffOptimal.Times;
    if counts != [] {
      var k := |counts| - 1;
      CostIsSum(counts[..k], ls[..k]);
      SumFront(Products(counts, ls), Products(counts[..k], ls[..k]), k);
    }
  }

  lemma NoTimes()
    ensures forall l: nat :: HuffOptimal.Times(0, l) == 0
  {
  }

  lemma {:induction false} CostOfSymbols(syms: seq<nat>, counts: seq<nat>, ls: seq<nat>)
    requires |counts| == |ls| && forall k :: 0 <= k < |syms| ==> syms[k] < |ls|
    ensures HuffOptimal.Cost(HuffForest.At(syms, counts), HuffForest.At(syms, ls)) == HuffTree.SumAt(syms, Products(counts, ls))
    decreases |syms|
  {
    hide HuffOptimal.Times;
    if syms != [] {
      var k := |syms| - 1;
      CostOfSymbols(syms[..k], counts, ls);
      assert HuffForest.At(syms, counts)[..k] == HuffForest.At(syms[..k], counts) && HuffForest.At(syms, ls)[..k] == HuffForest.At(syms[..k], ls);
    }
  }

  lemma {:induction false} SharesOfSymbols(syms: seq<nat>, ls: seq<nat>, l: nat)
    requires (forall s :: 0 <= s < |ls| ==> ls[s] <= l) && forall k :: 0 <= k < |syms| ==> syms[k] < |ls| && ls[syms[k]] >= 1
    ensures HuffTree.Shares(l, HuffForest.At(syms, ls)) == HuffTree.SumAt(syms, Taken(ls, l))
    decreases |syms|
  {
    hide Pow2;
    if syms != [] {
      var k := |syms| - 1;
      SharesOfSymbols(syms[..k], ls, l);
      assert HuffForest.At(syms, ls)[..k] == HuffForest.At(syms[..k], ls);
    }
  }

  /** What the symbols in use need is all that is needed. */
  lemma CostInUse(ns: seq<NodeElt>, counts: seq<nat>, n: nat, ls: seq<nat>)
    requires InUse(ns, counts, n) && |ls| == |counts|
    ensures forall k :: 0 <= k < n ==> Symbols(ns, n)[k] < |ls|
    ensures HuffOptimal.Cost(Counts(ns, n), HuffForest.At(Symbols(ns, n), ls)) == HuffOptimal.Cost(counts, ls)
  {
    hide HuffOptimal.Cost, HuffOptimal.Times, Sum, HuffTree.SumAt;
    var syms, g := Symbols(ns, n), Products(counts, ls);
    NoTimes();
    DistinctSum(syms, g);
    CostIsSum(counts, ls);
    CostOfSymbols(syms, counts, ls);
    assert HuffForest.At(syms, counts) == Counts(ns, n);
  }

  lemma FitsInUse(ns: seq<NodeElt>, counts: seq<nat>, n: nat, ls: seq<nat>, l: nat)
    requires InUse(ns, counts, n) && Possible(counts, ls, l)
    ensures forall k :: 0 <= k < n ==> Symbols(ns, n)[k] < |ls|
    ensures HuffOptimal.Fits(l, HuffForest.At(Symbols(ns, n), ls))
  {
    hide Sum, Pow2;
    var syms := Symbols(ns, n);
    forall k | 0 <= k < n ensures syms[k] < |ls| && ls[syms[k]] >= 1 { assert ns[k + 1].symbol == syms[k]; }
    SharesOfSymbols(syms, ls, l);
    DistinctSum(syms, Taken(ls, l));
  }

  /** Lengths that are best for the nodes are best for the symbols. */
  lemma NodesLeast(ns: seq<NodeElt>, counts: seq<nat>, n: nat)
    requires InUse(ns, counts, n) && Minimal(Counts(ns, n), Lens(ns, n))
    ensures forall k :: 1 <= k <= n ==> ns[k].symbol < |counts|
    ensures LeastBits(counts, Passed(ns, |counts|, n))
  {
    hide HuffOptimal.Cost, HuffOptimal.Fits, Possible, InUse;
    InUseIs(ns, counts, n);
    PassedIs(ns, |counts|, n);
    var lens, syms := Passed(ns, |counts|, n), Symbols(ns, n);
    CostInUse(ns, counts, n, lens);
    assert HuffForest.At(syms, lens) == Lens(ns, n);
    forall l: nat, other: seq<nat> | Possible(counts, other, l) ensures |other| == |counts| && HuffOptimal.Cost(counts, lens) <= HuffOptimal.Cost(counts, other) {
      PossibleIs(counts, other, l);
      CostInUse(ns, counts, n, other);
      FitsInUse(ns, counts, n, other, l);
    }
  }

  lemma PossibleIs(counts: seq<nat>, other: seq<nat>, l: nat)
    requires Possible(counts, other, l)
    ensures |other| == |counts|
  {
  }

  // ----- the table -----

  /** What each symbol's code takes of all 2^m values. */
  function Taken(lens: seq<nat>, m: nat): (g: seq<nat>)
    requires forall s :: 0 <= s < |lens| ==> lens[s] <= m
    ensures |g| == |lens| && forall s :: 0 <= s < |lens| ==> g[s] == if lens[s] == 0 then 0 else Pow2(m - lens[s])
  {
    seq(|lens|, s requires 0 <= s < |lens| => if lens[s] == 0 then 0 else Pow2(m - lens[s]))
  }

  lemma {:induction false} TakenIsShares(lens: seq<nat>, m: nat, n: nat)
    requires n <= |lens| && forall s :: 0 <= s < |lens| ==> lens[s] <= m
    ensures Sum(Taken(lens, m), n) == WeightShares(WeightsOf(lens, m)[..n])
    decreases n
  {
    hide Pow2;
    if n > 0 {
      TakenIsShares(lens, m, n - 1);
      assert WeightsOf(lens, m)[..n][..n - 1] == WeightsOf(lens, m)[..n - 1];
    }
  }

  lemma {:induction false} TakenByNodes(ns: seq<NodeElt>, g: seq<nat>, m: nat, n: nat)
    requires n < |ns| && forall k :: 1 <= k <= n ==> ns[k].symbol < |g| && g[ns[k].symbol] == HuffTree.Share(m, ns[k].nbBits)
    ensures HuffTree.SumAt(Symbols(ns, n), g) == HuffTree.Shares(m, Lens(ns, n))
    decreases n
  {
    hide Pow2, HuffTree.Share;
    if n > 0 {
      TakenByNodes(ns, g, m, n - 1);
      assert Symbols(ns, n)[..n - 1] == Symbols(ns, n - 1);
      assert Lens(ns, n)[..n - 1] == Lens(ns, n - 1);
    }
  }

  /** The code lengths of the nodes, passed on to their symbols, are a complete assignment, and exactly the symbols that occur have one. */
  lemma PassedComplete(ns: seq<NodeElt>, counts: seq<nat>, n: nat, m: nat)
    requires InUse(ns, counts, n) && HuffRepay.Limited(Lens(ns, n), m)
    ensures forall k :: 1 <= k <= n ==> ns[k].symbol < |counts|
    ensures var lens := Passed(ns, |counts|, n);
            Complete(lens, m) && Level(lens, m, |lens|) >= 1 && forall s :: 0 <= s < |counts| ==> (lens[s] >= 1 <==> counts[s] >= 1)
  {
    hide Pow2, HuffTree.Shares, RankStart, Level, InUse, HuffRepay.Limited;
    PassedLens(ns, counts, n, m);
    InUseIs(ns, counts, n);
    LimitedShares(ns, n, m);
    var lens := Passed(ns, |counts|, n);
    AllTaken(ns, lens, n, m);
    var s := ns[n].symbol;
    LevelMono(lens, m, s, s + 1);
    LevelMono(lens, m, s + 1, |lens|);
  }

  lemma LimitedShares(ns: seq<NodeElt>, n: nat, m: nat)
    requires n < |ns| && HuffRepay.Limited(Lens(ns, n), m)
    ensures HuffTree.Shares(m, Lens(ns, n)) == Pow2(m)
  {
  }

  /** The symbols share the values out as the nodes did. */
  lemma AllTaken(ns: seq<NodeElt>, lens: seq<nat>, n: nat, m: nat)
    requires n < |ns| && Different(Symbols(ns, n), |lens|) && forall s :: 0 <= s < |lens| ==> lens[s] <= m
    requires forall k :: 1 <= k <= n ==> ns[k].symbol < |lens| && 1 <= ns[k].nbBits && lens[ns[k].symbol] == ns[k].nbBits
    requires forall s :: 0 <= s < |lens| && s !in Symbols(ns, n) ==> lens[s] == 0
    ensures RankStart(lens, m, 0) == HuffTree.Shares(m, Lens(ns, n))
  {
    hide Pow2, HuffTree.Shares, RankStart;
    var g := Taken(lens, m);
    TakenByNodes(ns, g, m, n);
    DistinctSum(Symbols(ns, n), g);
    TakenIsShares(lens, m, |lens|);
    LensOfWeights(lens, m);
    assert WeightsOf(lens, m)[..|lens|] == WeightsOf(lens, m);
    SharesAreRanks(WeightsOf(lens, m), m);
  }

  lemma PassedLens(ns: seq<NodeElt>, counts: seq<nat>, n: nat, m: nat)
    requires InUse(ns, counts, n) && HuffRepay.Limited(Lens(ns, n), m)
    ensures forall k :: 1 <= k <= n ==> ns[k].symbol < |counts| && 1 <= ns[k].nbBits <= m
    ensures var lens := Passed(ns, |counts|, n);
            && lens[ns[n].symbol] == m
            && (forall s :: 0 <= s < |counts| ==> lens[s] <= m && (lens[s] >= 1 <==> counts[s] >= 1) && (s !in Symbols(ns, n) ==> lens[s] == 0))
            && forall k :: 1 <= k <= n ==> lens[ns[k].symbol] == ns[k].nbBits
  {
    hide HuffTree.Shares;
    PassedIs(ns, |counts|, n);
    assert ns[n].nbBits == Lens(ns, n)[n - 1];
    forall k | 1 <= k <= n ensures 1 <= ns[k].nbBits <= m { assert ns[k].nbBits == Lens(ns, n)[k - 1]; }
    var lens := Passed(ns, |counts|, n);
    forall s | 0 <= s < |counts|
      ensures lens[s] <= m && (lens[s] >= 1 <==> counts[s] >= 1) && (s !in Symbols(ns, n) ==> lens[s] == 0)
    {
      if s in Symbols(ns, n) {
        var i :| 0 <= i < n && Symbols(ns, n)[i] == s;
        assert ns[i + 1].symbol == s;
      }
    }
  }

  /** The last node with a count. */
  method LastUsed(node: array<NodeElt>, counts: seq<nat>, ghost at: seq<nat>) returns (n: nat)
    requires HuffSort.Sorted(node[..], counts, at) && Histogram(counts)
    ensures InUse(node[..], counts, n)
  {
    hide Sum, HuffSort.Sorted, InUse;
    SortedIs(node[..], counts, at);
    FirstUsed(node[..], counts, at);
    var nonNullRank := |counts| - 1;
    while node[nonNullRank + 1].count == 0
      invariant 0 <= nonNullRank < |counts|
      invariant forall k :: nonNullRank + 1 < k <= |counts| ==> node[k].count == 0
      decreases nonNullRank
    {
      nonNullRank := nonNullRank - 1;
    }
    n := nonNullRank + 1;
    SortedInUse(node[..], counts, at, n);
  }

  lemma FirstUsed(ns: seq<NodeElt>, counts: seq<nat>, at: seq<nat>)
    requires HuffSort.Sorted(ns, counts, at) && Histogram(counts)
    ensures |ns| > 1 && ns[1].count >= 1
  {
    hide Sum;
    var last := |counts| - 1;
    assert ns[at[last] + 1].symbol == last;
    assert ns[at[last] + 1].count == counts[last];
  }

  lemma HistogramIs(counts: seq<nat>)
    requires Histogram(counts)
    ensures 2 <= |counts| <= 256 && 2 <= Sum(counts, |counts|) <= BLOCK_SIZE_MAX
    ensures forall s :: 0 <= s < |counts| ==> counts[s] <= HuffSort.MAX_COUNT
  {
    hide Sum;
    assert counts[|counts| - 1] < Sum(counts, |counts|);
  }

  lemma InUseIs(ns: seq<NodeElt>, counts: seq<nat>, n: nat)
    requires InUse(ns, counts, n)
    ensures 2 <= n <= |counts| < |ns| && Different(Symbols(ns, n), |counts|)
  {
  }

  lemma NodesFitLimit(n: nat, sum: nat, srcLen: nat, size: nat, log: nat)
    requires n <= sum <= srcLen && n <= size && (size <= Pow2(log) || srcLen <= Pow2(log))
    ensures n <= Pow2(log)
  {
  }

  lemma LimitedIs(ns: seq<NodeElt>, n: nat, m: nat)
    requires n < |ns| && HuffRepay.Limited(Lens(ns, n), m)
    ensures m >= 1 && forall k :: 1 <= k <= n ==> ns[k].nbBits <= m
  {
    hide HuffTree.Shares, Pow2;
    forall k | 1 <= k <= n ensures ns[k].nbBits <= m { assert ns[k].nbBits == Lens(ns, n)[k - 1]; }
  }

  lemma SortedFalling(ns: seq<NodeElt>, counts: seq<nat>, at: seq<nat>, n: nat)
    requires HuffSort.Sorted(ns, counts, at) && n <= |counts| < |ns|
    ensures FallingCounts(Counts(ns, n))
  {
    hide Sum;
    forall a, b | 0 <= a < b < n ensures Counts(ns, n)[a] >= Counts(ns, n)[b] { assert ns[a + 1].count >= ns[b + 1].count; }
  }

  lemma CountsSame(ns: seq<NodeElt>, ns': seq<NodeElt>, n: nat)
    requires n < |ns| && SameLeaves(ns, ns', n)
    ensures Counts(ns', n) == Counts(ns, n)
  {
  }

  lemma LastLength(ns: seq<NodeElt>, counts: seq<nat>, n: nat)
    requires InUse(ns, counts, n)
    ensures forall k :: 1 <= k <= n ==> ns[k].symbol < |counts|
    ensures Passed(ns, |counts|, n)[ns[n].symbol] == ns[n].nbBits
  {
    PassedIs(ns, |counts|, n);
  }

  lemma InUseBelow(ns: seq<NodeElt>, counts: seq<nat>, n: nat)
    requires InUse(ns, counts, n)
    ensures forall k :: 1 <= k <= n ==> ns[k].symbol < |counts|
  {
  }

  /** The lengths in the order of the nodes: those of a Huffman tree, cut down to at most the limit. */
  method NodeLengths(node: array<NodeElt>, counts: seq<nat>, srcLen: nat, asked: nat)
    returns (n: nat, m: nat, ghost log: nat, ghost tree: seq<nat>)
    requires node.Length == HuffSort.NODES_LEN + 1 && Histogram(counts) && srcLen == Sum(counts, |counts|)
    requires MIN_TABLE_LOG <= asked <= TABLE_LOG_MAX
    modifies node
    ensures InUse(node[..], counts, n) && HuffRepay.Limited(Lens(node[..], n), m) && m <= log <= TABLE_LOG_MAX
    ensures forall k :: 1 <= k <= n ==> node[k].symbol < |counts|
    ensures srcLen >= 3 ==> IsLimit(asked, srcLen, |counts|, log)
    ensures LeastBits(counts, tree) && ((forall s :: 0 <= s < |tree| ==> tree[s] <= log) ==> Passed(node[..], |counts|, n) == tree)
  {
    hide Pow2, Sum, Histogram, HuffSort.Sorted, InUse, TreeLens, HuffRepay.Whole, HuffRepay.Limited, Minimal, LeastBits, FallingCounts, Passed, IsLimit;
    HistogramIs(counts);
    var limit := OptimalTableLog(asked, srcLen, |counts|);
    ghost var at := HuffSort.Sort(node, counts);
    n := LastUsed(node, counts, at);
    InUseIs(node[..], counts, n);
    NodesFit(node[..], counts, n);
    NodesFitLimit(n, Sum(Counts(node[..], n), n), srcLen, |counts|, limit);
    SortedFalling(node[..], counts, at, n);
    ghost var ns := node[..];
    BuildTree(node, Counts(node[..], n), |counts|);
    StillInUse(ns, node[..], counts, n);
    HuffLimit.TreeIsWhole(Lens(node[..], n));
    CountsSame(ns, node[..], n);
    ns := node[..];
    NodesLeast(ns, counts, n);
    log, tree := limit, Passed(ns, |counts|, n);
    LastLength(ns, counts, n);
    m := HuffLimit.SetMaxHeight(node, n, limit);
    StillInUse(ns, node[..], counts, n);
    InUseBelow(node[..], counts, n);
  }

  /**
   The table of codes for a histogram: a Huffman tree over the symbols that occur, cut down to the longest codes allowed.
   Exactly these symbols have a code, no code is longer than allowed, the codes are canonical, and they use up everything.
   No prefix code needs fewer bits for the block than the tree; if no length of the tree is above the limit, these are its lengths.
   */
  method BuildCTable(node: array<NodeElt>, counts: seq<nat>, srcLen: nat, asked: nat)
    returns (table: seq<CTableEntry>, m: nat, ghost lens: seq<nat>, ghost log: nat, ghost tree: seq<nat>)
    requires node.Length == HuffSort.NODES_LEN + 1 && Histogram(counts) && srcLen == Sum(counts, |counts|)
    requires MIN_TABLE_LOG <= asked <= TABLE_LOG_MAX
    modifies node
    ensures Sendable(lens, m) && |lens| == |counts| == |table|
    ensures forall s :: 0 <= s < |counts| ==> (lens[s] >= 1 <==> counts[s] >= 1)
    ensures forall s :: 0 <= s < |lens| ==> table[s].nBits == lens[s] && (lens[s] >= 1 ==> table[s].val == Code(lens, m, s))
    ensures srcLen >= 3 ==> IsLimit(asked, srcLen, |counts|, log)
    ensures m <= log <= TABLE_LOG_MAX && LeastBits(counts, tree) && ((forall s :: 0 <= s < |tree| ==> tree[s] <= log) ==> lens == tree)
  {
    hide Pow2, Sum, Level, Complete, RankStart, Code, InUse, HuffRepay.Limited, LeastBits, IsLimit;
    var n: nat;
    n, m, log, tree := NodeLengths(node, counts, srcLen, asked);
    InUseIs(node[..], counts, n);
    LimitedIs(node[..], n, m);
    var nbPerRank := CountRanks(node, |counts|, n, m);
    var nBits := new nat[|counts|](_ => 0);
    ghost var ns := node[..];
    for i := 0 to n
      invariant nBits[..] == Passed(ns, |counts|, i)
      modifies nBits
    {
      FreshSymbol(ns, |counts|, n, i);
      ghost var before := nBits[..];
      nBits[node[i + 1].symbol] := node[i + 1].nbBits;
      assert nBits[..] == before[ns[i + 1].symbol := ns[i + 1].nbBits];
    }
    lens := nBits[..];
    PassedComplete(ns, counts, n, m);
    table := AssignCodes(nBits[..], m, nbPerRank);
  }
}
