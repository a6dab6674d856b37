/** The encoder's table of codes and the decoder's table of index values, from the same lengths. */
module HuffTables {
  import opened Bits
  import opened Results
  import opened HuffCodes
  import opened FseCoding

  const TABLE_LOG_MAX: nat := 11

  datatype CTableEntry = CTableEntry(val: nat, nBits: nat)

  /** The symbol and the length of the code an index value begins with. */
  datatype DEntry = DEntry(nBits: nat, symbol: nat)

  // ----- the encoder's table -----

  /** Values within each length in symbol order; each length starts where the longer ones leave off. */
  method AssignCodes(lens: seq<nat>, m: nat, nbPerRank: array<nat>) returns (table: seq<CTableEntry>)
    requires Complete(lens, m) && m <= TABLE_LOG_MAX
    requires nbPerRank.Length > m && forall l :: 1 <= l <= m ==> nbPerRank[l] == Level(lens, l, |lens|)
    ensures |table| == |lens|
    ensures forall s :: 0 <= s < |lens| ==> table[s].nBits == lens[s] && (lens[s] >= 1 ==> table[s].val == Code(lens, m, s))
  {
    hide Pow2, Level, RankStart, Shr, Complete;
    LensBelow(lens, m);
    var valPerRank := new nat[16];
    var min := 0;
    RankEnd(lens, m);
    var n := m;
    while n > 0
      invariant 0 <= n <= m && min * Pow2(m - n) == RankStart(lens, m, n)
      invariant forall k :: n < k <= m ==> valPerRank[k] * Pow2(m - k) == RankStart(lens, m, k)
      invariant forall l :: 1 <= l <= m ==> nbPerRank[l] == Level(lens, l, |lens|)
    {
      valPerRank[n] := min;
      HalfRank(lens, m, n, min);
      min := (min + nbPerRank[n]) / 2;
      n := n - 1;
    }
    NoLevels(lens);
    table := [];
    for s := 0 to |lens|
      invariant |table| == s
      invariant forall k :: 1 <= k <= m ==> (valPerRank[k] - Level(lens, k, s)) * Pow2(m - k) == RankStart(lens, m, k) && valPerRank[k] >= Level(lens, k, s)
      invariant forall t :: 0 <= t < s ==> table[t].nBits == lens[t] && (lens[t] >= 1 ==> table[t].val == Code(lens, m, t))
    {
      var nbits := lens[s];
      var v := valPerRank[nbits];
      if nbits >= 1 { CodeOfRank(lens, m, s, v); }
      LevelNext(lens, s);
      table := table + [CTableEntry(v, nbits)];
      valPerRank[nbits] := v + 1;
    }
  }

  lemma LensBelow(lens: seq<nat>, m: nat)
    requires Complete(lens, m)
    ensures forall s :: 0 <= s < |lens| ==> lens[s] <= m
  {
  }

  lemma NoLevels(lens: seq<nat>)
    ensures forall l: nat :: Level(lens, l, 0) == 0
  {
  }

  lemma RankEnd(lens: seq<nat>, m: nat)
    ensures RankStart(lens, m, m) == 0 && Pow2(m - m) == 1
  {
  }

  lemma LevelNext(lens: seq<nat>, s: nat)
    requires s < |lens|
    ensures forall l: nat :: Level(lens, l, s + 1) == Level(lens, l, s) + if lens[s] == l then 1 else 0
  {
  }

  /** The start of the next shorter codes is a whole number of their widths. */
  lemma HalfRank(lens: seq<nat>, m: nat, n: nat, min: nat)
    requires Complete(lens, m) && 1 <= n <= m && min * Pow2(m - n) == RankStart(lens, m, n)
    ensures (min + Level(lens, n, |lens|)) / 2 * Pow2(m - (n - 1)) == RankStart(lens, m, n - 1)
  {
    hide Pow2, Level, Complete, RankStart;
    var c := RankAligned(lens, m, n - 1);
    var k, p := Level(lens, n, |lens|), Pow2(m - n);
    Pow2Next(m - n);
    RankStep(lens, m, n);
    HalfOf(min, k, c, p, RankStart(lens, m, n));
  }

  lemma RankStep(lens: seq<nat>, m: nat, n: nat)
    requires 1 <= n <= m
    ensures RankStart(lens, m, n - 1) == RankStart(lens, m, n) + Level(lens, n, |lens|) * Pow2(m - n)
  {
  }

  lemma HalfOf(min: nat, k: nat, c: nat, p: nat, r: nat)
    requires min * p == r && p >= 1 && r + k * p == c * (2 * p)
    ensures (min + k) / 2 * (2 * p) == r + k * p
  {
    MulDifference(min + k, k, p);
    MulDouble(c, p);
    MulDouble(p, c);
    SameFactor(min + k, 2 * c, p);
  }

  lemma SameFactor(a: nat, b: nat, p: nat)
    requires a * p == b * p && p >= 1
    ensures a == b
  {
    if a < b { MulStep(a, b, p); }
    if b < a { MulStep(b, a, p); }
  }

  lemma CodeOfRank(lens: seq<nat>, m: nat, s: nat, v: nat)
    requires s < |lens| && 1 <= lens[s] <= m && v >= Level(lens, lens[s], s)
    requires (v - Level(lens, lens[s], s)) * Pow2(m - lens[s]) == RankStart(lens, m, lens[s])
    ensures v == Code(lens, m, s)
  {
    hide Pow2, Level, RankStart, Shr, Low;
    var p := Pow2(m - lens[s]);
    MulDifference(v, Level(lens, lens[s], s), p);
    ShrOfShl(v, m - lens[s], 0);
  }

  // ----- weights -----

  /** The share of a weight: nothing, or half a power of two. */
  function WeightShare(w: nat): nat { if w == 0 then 0 else Pow2(w - 1) }

  function WeightShares(ws: seq<nat>): nat
  {
    if ws == [] then 0 else WeightShares(ws[..|ws| - 1]) + WeightShare(ws[|ws| - 1])
  }

  function LenOf(w: nat, m: nat): nat { if 1 <= w <= m then m + 1 - w else 0 }

  function LensOf(ws: seq<nat>, m: nat): (lens: seq<nat>)
    ensures |lens| == |ws| && forall s :: 0 <= s < |ws| ==> lens[s] == LenOf(ws[s], m)
  {
    seq(|ws|, s requires 0 <= s < |ws| => LenOf(ws[s], m))
  }

  function WeightsOf(lens: seq<nat>, m: nat): (ws: seq<nat>)
    requires forall s :: 0 <= s < |lens| ==> lens[s] <= m
    ensures |ws| == |lens| && forall s :: 0 <= s < |lens| ==> ws[s] == if lens[s] == 0 then 0 else m + 1 - lens[s]
  {
    seq(|lens|, s requires 0 <= s < |lens| => if lens[s] == 0 then 0 else m + 1 - lens[s])
  }

  lemma LensOfWeights(lens: seq<nat>, m: nat)
    requires forall s :: 0 <= s < |lens| ==> lens[s] <= m
    ensures LensOf(WeightsOf(lens, m), m) == lens && forall s :: 0 <= s < |lens| ==> WeightsOf(lens, m)[s] <= m
  {
  }

  lemma LevelSnoc(lens: seq<nat>, x: nat, l: nat, n: nat)
    requires n <= |lens|
    ensures Level(lens + [x], l, n) == Level(lens, l, n)
    decreases n
  {
    if n > 0 { LevelSnoc(lens, x, l, n - 1); }
  }

  /** One more symbol takes its width, below all starts of shorter codes. */
  lemma {:induction false} RankSnoc(lens: seq<nat>, x: nat, m: nat, l: nat)
    requires l <= m && x <= m
    ensures RankStart(lens + [x], m, l) == RankStart(lens, m, l) + if x > l then Pow2(m - x) else 0
    decreases m - l
  {
    hide Pow2;
    if l < m {
      RankSnoc(lens, x, m, l + 1);
      LevelSnoc(lens, x, l + 1, |lens|);
      var k, p := Level(lens, l + 1, |lens|), Pow2(m - (l + 1));
      assert (k + 1) * p == k * p + p;
    }
  }

  /** The values used up are the shares of the weights. */
  lemma {:induction false} SharesAreRanks(ws: seq<nat>, m: nat)
    requires forall s :: 0 <= s < |ws| ==> ws[s] <= m
    ensures RankStart(LensOf(ws, m), m, 0) == WeightShares(ws)
    decreases |ws|
  {
    hide Pow2;
    if ws == [] {
      NoRanks(m, 0);
      assert LensOf(ws, m) == [];
    } else {
      var front, w := ws[..|ws| - 1], ws[|ws| - 1];
      SharesAreRanks(front, m);
      assert LensOf(ws, m) == LensOf(front, m) + [LenOf(w, m)];
      RankSnoc(LensOf(front, m), LenOf(w, m), m, 0);
    }
  }

  lemma {:induction false} NoRanks(m: nat, l: nat)
    requires l <= m
    ensures RankStart([], m, l) == 0
    decreases m - l
  {
    if l < m { NoRanks(m, l + 1); }
  }

  // ----- the decoder's table -----

  /** Every index value shows the symbol it belongs to. */
  ghost predicate Shows(dt: seq<DEntry>, lens: seq<nat>, m: nat, n: nat)
    requires Complete(lens, m) && n <= |lens|
  {
    |dt| >= Pow2(m) && forall s :: 0 <= s < n && lens[s] >= 1 ==> ShowsSymbol(dt, lens, m, s)
  }

  ghost predicate ShowsSymbol(dt: seq<DEntry>, lens: seq<nat>, m: nat, s: nat)
    requires s < |lens| && lens[s] <= m
  {
    && Start(lens, m, s) + Width(lens, m, s) <= |dt|
    && forall u :: Start(lens, m, s) <= u < Start(lens, m, s) + Width(lens, m, s) ==> dt[u] == DEntry(lens[s], s)
  }

  /** Counts the weights and their shares. */
  method Stats(ws: seq<nat>) returns (r: Result<(array<nat>, nat)>)
    ensures r.Ok? <==> forall s :: 0 <= s < |ws| ==> ws[s] <= TABLE_LOG_MAX
    ensures r.Ok? ==> fresh(r.value.0) && r.value.0.Length == 16 && r.value.1 == WeightShares(ws)
    ensures r.Ok? ==> forall w :: 0 <= w < 16 ==> r.value.0[w] == Level(ws, w, |ws|)
  {
    hide Pow2, Level;
    var rankStats := new nat[16](_ => 0);
    var weightTotal := 0;
    NoLevels(ws);
    for s := 0 to |ws|
      invariant forall k :: 0 <= k < s ==> ws[k] <= TABLE_LOG_MAX
      invariant weightTotal == WeightShares(ws[..s])
      invariant forall w :: 0 <= w < 16 ==> rankStats[w] == Level(ws, w, s)
    {
      if ws[s] > TABLE_LOG_MAX {
        return Err(BadTable);
      }
      LevelNext(ws, s);
      assert ws[..s + 1][..s] == ws[..s];
      rankStats[ws[s]] := rankStats[ws[s]] + 1;
      weightTotal := weightTotal + WeightShare(ws[s]);
    }
    assert ws[..|ws|] == ws;
    return Ok((rankStats, weightTotal));
  }

  /** The weight that completes the shares to a power of two, if one does. */
  method LastWeight(weightTotal: nat) returns (r: Result<(nat, nat)>)
    requires weightTotal > 0
    ensures r.Ok? ==> var (tableLog, w) := r.value;
                      1 <= tableLog <= TABLE_LOG_MAX && 1 <= w <= tableLog && weightTotal + WeightShare(w) == Pow2(tableLog)
    ensures forall m: nat, w: nat :: m <= TABLE_LOG_MAX && 1 <= w <= m && weightTotal + WeightShare(w) == Pow2(m) ==> r == Ok((m, w))
  {
    hide Pow2, BitLen;
    forall m: nat, w: nat | 1 <= w <= m && weightTotal + WeightShare(w) == Pow2(m)
      ensures HighBit(weightTotal) + 1 == m && HighBit(Pow2(m) - weightTotal) == w - 1
    {
      LastShare(weightTotal, m, w);
    }
    BitLenRange(weightTotal);
    var tableLog := HighBit(weightTotal) + 1;
    Pow2Next(tableLog - 1);
    if tableLog > TABLE_LOG_MAX {
      return Err(BadTable);
    }
    var rest := Pow2(tableLog) - weightTotal;
    var verif := Pow2(HighBit(rest));
    var lastWeight := HighBit(rest) + 1;
    if verif != rest {
      return Err(BadTable);
    }
    if lastWeight > tableLog { Pow2Mono(tableLog, HighBit(rest)); }
    return Ok((tableLog, lastWeight));
  }

  lemma LastShare(t: nat, m: nat, w: nat)
    requires t > 0 && 1 <= w <= m && t + Pow2(w - 1) == Pow2(m)
    ensures HighBit(t) + 1 == m && HighBit(Pow2(m) - t) == w - 1
  {
    hide Pow2, BitLen;
    Pow2Mono(w - 1, m - 1);
    Pow2Next(m - 1);
    BitLenIs(t, m - 1);
    BitLenIs(Pow2(w - 1), w - 1);
  }

  lemma {:induction false} LevelOfWeights(ws: seq<nat>, m: nat, w: nat, n: nat)
    requires 1 <= w <= m && n <= |ws|
    ensures Level(LensOf(ws, m), m + 1 - w, n) == Level(ws, w, n)
    decreases n
  {
    if n > 0 { LevelOfWeights(ws, m, w, n - 1); }
  }

  /** Where the codes of each weight start. */
  method RankStarts(rankStats: array<nat>, ws: seq<nat>, m: nat)
    requires rankStats.Length == 16 && m <= TABLE_LOG_MAX
    requires forall w :: 0 <= w < 16 ==> rankStats[w] == Level(ws, w, |ws|)
    modifies rankStats
    ensures forall w :: 1 <= w <= m ==> rankStats[w] == RankStart(LensOf(ws, m), m, m + 1 - w)
  {
    hide Pow2, Level, RankStart;
    ghost var lens := LensOf(ws, m);
    var nextRankStart := 0;
    RankEnd(lens, m);
    for n := 1 to m + 1
      invariant nextRankStart == RankStart(lens, m, m + 1 - n)
      invariant forall w :: 1 <= w < n ==> rankStats[w] == RankStart(lens, m, m + 1 - w)
      invariant forall w :: n <= w < 16 ==> rankStats[w] == Level(ws, w, |ws|)
    {
      LevelOfWeights(ws, m, n, |ws|);
      RankStep(lens, m, m + 1 - n);
      var current := nextRankStart;
      nextRankStart := nextRankStart + rankStats[n] * Pow2(n - 1);
      rankStats[n] := current;
    }
  }

  /** Fills the values of one symbol. */
  method Fill(dt: array<DEntry>, from: nat, n: nat, d: DEntry)
    requires from + n <= dt.Length
    modifies dt
    ensures forall u :: from <= u < from + n ==> dt[u] == d
    ensures forall u :: 0 <= u < dt.Length && !(from <= u < from + n) ==> dt[u] == old(dt[u])
  {
    for i := 0 to n
      invariant forall u :: from <= u < from + i ==> dt[u] == d
      invariant forall u :: 0 <= u < dt.Length && !(from <= u < from + i) ==> dt[u] == old(dt[u])
    {
      dt[from + i] := d;
    }
  }

  /** Filling a symbol's values leaves those of the earlier ones. */
  lemma ShowsNext(dt: seq<DEntry>, dt': seq<DEntry>, lens: seq<nat>, m: nat, s: nat)
    requires Complete(lens, m) && s < |lens| && lens[s] >= 1 && |dt'| == |dt| && Shows(dt, lens, m, s)
    requires Start(lens, m, s) + Width(lens, m, s) <= |dt|
    requires forall u :: Start(lens, m, s) <= u < Start(lens, m, s) + Width(lens, m, s) ==> dt'[u] == DEntry(lens[s], s)
    requires forall u :: 0 <= u < |dt| && !(Start(lens, m, s) <= u < Start(lens, m, s) + Width(lens, m, s)) ==> dt'[u] == dt[u]
    ensures Shows(dt', lens, m, s + 1)
  {
    hide Pow2, Level, RankStart, Start, Width;
    forall t | 0 <= t < s + 1 && lens[t] >= 1
      ensures ShowsSymbol(dt', lens, m, t)
    {
      if t < s {
        assert ShowsSymbol(dt, lens, m, t);
        Disjoint(lens, m, s, t);
      }
    }
  }

  lemma ShowsSkip(dt: seq<DEntry>, lens: seq<nat>, m: nat, s: nat)
    requires Complete(lens, m) && s < |lens| && lens[s] == 0 && Shows(dt, lens, m, s)
    ensures Shows(dt, lens, m, s + 1)
  {
  }

  /** Fills the table, symbol by symbol, and notes the codes. */
  method FillTable(rankStats: array<nat>, ws: seq<nat>, m: nat, dt: array<DEntry>) returns (codes: seq<CTableEntry>)
    requires rankStats.Length == 16 && 1 <= m <= TABLE_LOG_MAX && dt.Length >= Pow2(m) && |ws| <= 256
    requires forall s :: 0 <= s < |ws| ==> ws[s] <= m
    requires Complete(LensOf(ws, m), m)
    requires forall w :: 1 <= w <= m ==> rankStats[w] == RankStart(LensOf(ws, m), m, m + 1 - w)
    modifies rankStats, dt
    ensures Shows(dt[..], LensOf(ws, m), m, |ws|)
    ensures |codes| == |ws| && forall s :: 0 <= s < |ws| && ws[s] >= 1 ==> codes[s] == CTableEntry(Code(LensOf(ws, m), m, s), m + 1 - ws[s])
  {
    hide Pow2, Level, RankStart, Start, Complete, Shows, Code, Shr;
    ghost var lens := LensOf(ws, m);
    codes := [];
    NoLevels(lens);
    ShowsNothing(dt[..], lens, m);
    for s := 0 to |ws|
      invariant Shows(dt[..], lens, m, s) && |codes| == s
      invariant forall w :: 1 <= w <= m ==> rankStats[w] == RankStart(lens, m, m + 1 - w) + Level(lens, m + 1 - w, s) * Pow2(w - 1)
      invariant forall t :: 0 <= t < s && ws[t] >= 1 ==> codes[t] == CTableEntry(Code(lens, m, t), m + 1 - ws[t])
    {
      var w := ws[s];
      LevelNext(lens, s);
      if w == 0 {
        ShowsSkip(dt[..], lens, m, s);
        codes := codes + [CTableEntry(0, 0)];
        continue;
      }
      var length := WeightShare(w);
      var rank := rankStats[w];
      StartOf(lens, m, s, w);
      ghost var before := dt[..];
      Fill(dt, rank, length, DEntry(m + 1 - w, s));
      ShowsNext(before, dt[..], lens, m, s);
      codes := codes + [CTableEntry(Shr(rank, w - 1), m + 1 - w)];
      Another(Level(lens, m + 1 - w, s), Pow2(w - 1));
      rankStats[w] := rankStats[w] + length;
    }
  }

  lemma Another(k: nat, p: nat)
    ensures (k + 1) * p == k * p + p
  {
  }

  lemma ShowsNothing(dt: seq<DEntry>, lens: seq<nat>, m: nat)
    requires Complete(lens, m) && |dt| >= Pow2(m)
    ensures Shows(dt, lens, m, 0)
  {
  }

  lemma StartOf(lens: seq<nat>, m: nat, s: nat, w: nat)
    requires Complete(lens, m) && s < |lens| && 1 <= w <= m && lens[s] == m + 1 - w
    ensures Start(lens, m, s) == RankStart(lens, m, m + 1 - w) + Level(lens, m + 1 - w, s) * Pow2(w - 1)
    ensures Width(lens, m, s) == WeightShare(w) && Start(lens, m, s) + Width(lens, m, s) <= Pow2(m)
    ensures Code(lens, m, s) == Shr(Start(lens, m, s), w - 1)
  {
    hide Pow2;
    CodeIs(lens, m, s);
  }

  /** Lengths an encoder can send: complete, the longest in use, and the last symbol present. */
  predicate Sendable(lens: seq<nat>, m: nat)
  {
    1 <= m <= TABLE_LOG_MAX && |lens| <= 256 && Complete(lens, m) && lens != [] && lens[|lens| - 1] >= 1 && Level(lens, m, |lens|) >= 1
  }

  /** These are the weights sent for an assignment: all but the last symbol's. */
  ghost predicate SentAs(weights: seq<nat>, sent: seq<nat>, m: nat)
  {
    Sendable(sent, m) && |weights| + 1 == |sent| && weights + [WeightsOf(sent, m)[|sent| - 1]] == WeightsOf(sent, m)
  }

  /**
   Builds the table from the weights of all symbols but the last, which is implied. What it accepts is a complete assignment
   of lengths, every index value shows the symbol whose code it begins with, and the codes are the canonical ones;
   it accepts the weights of every assignment an encoder can send, as just that assignment.
   */
  method ReadTable(weights: seq<nat>, ghost sent: seq<nat>, ghost sentLog: nat)
    returns (r: Result<(seq<DEntry>, nat, seq<CTableEntry>)>, ghost lens: seq<nat>)
    requires |weights| <= 255
    ensures r.Ok? ==>
              var (dt, m, codes) := r.value;
              && Sendable(lens, m) && |lens| == |weights| + 1 && Shows(dt, lens, m, |lens|) && |dt| == Pow2(TABLE_LOG_MAX)
              && |codes| == |lens| && forall s :: 0 <= s < |lens| && lens[s] >= 1 ==> codes[s] == CTableEntry(Code(lens, m, s), lens[s])
    ensures SentAs(weights, sent, sentLog) ==> r.Ok? && lens == sent && r.value.1 == sentLog
  {
    hide Pow2, Level, RankStart, Complete, Shows, Start, Code, WeightShares, Sendable, SentAs, WeightShare;
    ghost var good := SentAs(weights, sent, sentLog);
    lens := [];
    if good { SentWeights(sent, sentLog, weights); }
    var stats := Stats(weights);
    if stats.Err? {
      return Err(BadTable), lens;
    }
    var (rankStats, weightTotal) := stats.value;
    if weightTotal == 0 {
      return Err(BadTable), lens;
    }
    var last := LastWeight(weightTotal);
    if last.Err? {
      return Err(last.error), lens;
    }
    var (tableLog, w) := last.value;
    var ws := weights + [w];
    rankStats[w] := rankStats[w] + 1;
    lens := LensOf(ws, tableLog);
    AllShares(weights, w, tableLog);
    LevelOfWeights(ws, tableLog, 1, |ws|);
    if rankStats[1] < 2 || rankStats[1] % 2 != 0 {
      return Err(BadTable), lens;
    }
    NowSendable(lens, tableLog, w);
    RankStarts(rankStats, ws, tableLog);
    var dt := new DEntry[Pow2(TABLE_LOG_MAX)];
    Pow2Mono(tableLog, TABLE_LOG_MAX);
    var codes := FillTable(rankStats, ws, tableLog, dt);
    return Ok((dt[..], tableLog, codes)), lens;
  }

  /** With the implied weight the lengths are complete. */
  lemma AllShares(weights: seq<nat>, w: nat, m: nat)
    requires 1 <= w <= m && WeightShares(weights) + WeightShare(w) == Pow2(m)
    ensures forall s :: 0 <= s < |weights| ==> weights[s] <= m
    ensures Complete(LensOf(weights + [w], m), m)
    ensures forall l: nat :: Level(weights + [w], l, |weights| + 1) == Level(weights, l, |weights|) + if w == l then 1 else 0
  {
    hide Pow2;
    var ws := weights + [w];
    SharesBound(weights, m);
    assert ws[..|weights|] == weights;
    SharesAreRanks(ws, m);
    forall l: nat
      ensures Level(ws, l, |weights| + 1) == Level(weights, l, |weights|) + if w == l then 1 else 0
    {
      LevelSnoc(weights, w, l, |weights|);
    }
  }

  /** A weight whose share fits into less than 2^m is at most m. */
  lemma {:induction false} SharesBound(ws: seq<nat>, m: nat)
    requires WeightShares(ws) < Pow2(m)
    ensures forall s :: 0 <= s < |ws| ==> ws[s] <= m
    decreases |ws|
  {
    hide Pow2;
    if ws != [] {
      SharesBound(ws[..|ws| - 1], m);
      var w := ws[|ws| - 1];
      if w > m { Pow2Mono(m, w - 1); }
    }
  }

  lemma NowSendable(lens: seq<nat>, m: nat, w: nat)
    requires Complete(lens, m) && 1 <= w <= m <= TABLE_LOG_MAX && lens != [] && |lens| <= 256 && lens[|lens| - 1] == LenOf(w, m)
    requires Level(lens, m, |lens|) >= 1
    ensures Sendable(lens, m)
  {
  }

  /** The weights of a sendable assignment pass the first checks, and the implied weight is the right one. */
  lemma SentWeights(sent: seq<nat>, m: nat, weights: seq<nat>)
    requires SentAs(weights, sent, m)
    ensures m <= TABLE_LOG_MAX && |weights| == |sent| - 1 && forall s :: 0 <= s < |weights| ==> weights[s] <= TABLE_LOG_MAX
    ensures var w := m + 1 - sent[|sent| - 1];
            && 1 <= w <= m && WeightShares(weights) + WeightShare(w) == Pow2(m) && WeightShares(weights) > 0
            && LensOf(weights + [w], m) == sent
            && Level(weights + [w], 1, |sent|) >= 2 && Level(weights + [w], 1, |sent|) % 2 == 0
  {
    hide Pow2, RankStart, Level;
    var w := m + 1 - sent[|sent| - 1];
    var ws := WeightsOf(sent, m);
    LensOfWeights(sent, m);
    SharesAreRanks(ws, m);
    assert ws == weights + [w];
    assert ws[..|ws| - 1] == weights;
    Pow2Mono(w - 1, m);
    SentEven(sent, m, ws);
  }

  lemma OneTimes(k: nat, c: nat)
    ensures k * 1 == k && (k == c * 2 ==> k % 2 == 0)
  {
  }

  lemma SentEven(sent: seq<nat>, m: nat, ws: seq<nat>)
    requires Sendable(sent, m) && ws == WeightsOf(sent, m)
    ensures Level(ws, 1, |ws|) >= 2 && Level(ws, 1, |ws|) % 2 == 0
  {
    hide Pow2, Level;
    LensOfWeights(sent, m);
    LevelOfWeights(ws, m, 1, |ws|);
    RankEnd(sent, m);
    RankStep(sent, m, m);
    var c := RankAligned(sent, m, m - 1);
    Pow2Next(0);
    PowersToByte();
    OneTimes(Level(sent, m, |sent|), c);
  }
}
