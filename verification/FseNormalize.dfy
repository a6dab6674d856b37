/** From a histogram to normalised counts: as many cells as the table has, and one at least for every symbol that occurs. */
module FseNormalize {
  import opened Bits
  import opened Counting
  import opened FseSpread
  import opened Results

  const MIN_ENC_LOG: nat := 5
  const MAX_NORM_LOG: nat := 8
  /** The most symbols an alphabet of codes has, and the most sequences of a block. */
  const MAX_SYMBOLS: nat := 53
  const MAX_LENGTH: nat := 65535

  /** By how much a small probability has to miss before it is rounded up, in 2^-20ths. */
  const RTB: seq<nat> := [0, 473195, 504333, 520860, 550000, 700000, 750000, 830000]

  const NOT_YET: int := -2

  const TWO62: nat := 0x4000_0000_0000_0000

  lemma Powers()
    ensures Pow2(62) == TWO62 && Pow2(54) >= TWO32 && Pow2(31) == TWO31
  {
    hide Pow2;
    PowersToByte();
    Pow2Add(8, 8);
    Pow2Add(16, 16);
    Pow2Next(30);
    Pow2Next(31);
    Pow2Add(32, 30);
    Pow2Mono(32, 54);
  }

  function Present(counts: seq<nat>, n: nat): (k: nat)
    requires n <= |counts|
    ensures k <= n && k <= Sum(counts, n)
  {
    if n == 0 then 0 else Present(counts, n - 1) + if counts[n - 1] >= 1 then 1 else 0
  }

  /** The occurrences of some symbols in a list of the given length. */
  predicate Occurrences(counts: seq<nat>, length: nat)
  {
    1 <= |counts| <= MAX_SYMBOLS && 1 <= length <= MAX_LENGTH && Sum(counts, |counts|) == length
  }

  /** Counts for a table of 2^log cells, which give cells to exactly the symbols that occur. */
  predicate Normalised(norm: seq<int>, counts: seq<nat>, log: nat)
  {
    && |norm| == |counts| && Counts(norm) && Total(norm) == Pow2(log)
    && forall i :: 0 <= i < |norm| ==> (norm[i] != 0 <==> counts[i] >= 1)
  }

  // ----- the size of the table -----

  /** `uint8(highBit(x))`. */
  function HighByte(x: nat): nat { (BitLen(x) - 1) % 256 }

  /** A table of 2^l cells will do: eight occurrences to a cell at most, and two cells to a symbol or more cells than occurrences. */
  predicate WillDo(length: nat, symbolLen: nat, l: nat)
  {
    l == MAX_NORM_LOG || (length <= Pow2(l + 3) && (2 * symbolLen <= Pow2(l) || length < Pow2(l)))
  }

  /** The smallest table that will do; up to four occurrences the subtraction wraps, and it is the largest. */
  method OptimalTableLog(length: nat, symbolLen: nat) returns (log: nat)
    requires 1 <= length <= MAX_LENGTH && 1 <= symbolLen <= MAX_SYMBOLS
    ensures MIN_ENC_LOG <= log <= MAX_NORM_LOG && (2 * symbolLen <= Pow2(log) || length < Pow2(log))
    ensures if length <= 4 then log == MAX_NORM_LOG
            else WillDo(length, symbolLen, log) && forall l :: MIN_ENC_LOG <= l < log ==> !WillDo(length, symbolLen, l)
  {
    hide Pow2, BitLen, WillDo;
    LengthLess(length);
    var minBitsSrc := BitLen(length) - 1 + 1;
    var minBitsSymbols := BitLen(symbolLen - 1) - 1 + 2;
    var minBits := if minBitsSrc < minBitsSymbols then minBitsSrc else minBitsSymbols;
    var maxBitsSrc := (HighByte(length - 1) - 2) % 256;
    log := MAX_NORM_LOG;
    if maxBitsSrc < log { log := maxBitsSrc; }
    if minBits > log { log := minBits; }
    if log < MIN_ENC_LOG { log := MIN_ENC_LOG; }
    MoreCells(length, symbolLen, log);
    if log > MAX_NORM_LOG { log := MAX_NORM_LOG; }
    forall l: nat | MIN_ENC_LOG <= l <= MAX_NORM_LOG
      ensures WillDo(length, symbolLen, l) <==> l == MAX_NORM_LOG || (BitLen(length - 1) <= l + 3 && (BitLen(symbolLen - 1) + 1 <= l || BitLen(length) <= l))
    {
      WillDoIs(length, symbolLen, l);
    }
  }

  lemma LengthLess(length: nat)
    requires 1 <= length <= MAX_LENGTH
    ensures length <= 4 ==> BitLen(length - 1) <= 2
    ensures length >= 5 ==> 3 <= BitLen(length - 1) <= 16
  {
    hide BitLen, Pow2;
    PowersToByte();
    FirstPowers();
    Pow2Add(8, 8);
    BitLenAtMost(length - 1, 2);
    BitLenAtMost(length - 1, 16);
  }

  lemma WillDoIs(length: nat, symbolLen: nat, l: nat)
    requires length >= 1 && symbolLen >= 1 && l >= 1
    ensures WillDo(length, symbolLen, l) <==> l == MAX_NORM_LOG || (BitLen(length - 1) <= l + 3 && (BitLen(symbolLen - 1) + 1 <= l || BitLen(length) <= l))
  {
    hide BitLen, Pow2;
    BitLenAtMost(length - 1, l + 3);
    BitLenAtMost(symbolLen - 1, l - 1);
    BitLenAtMost(length, l);
    Pow2Next(l - 1);
  }

  lemma MoreCells(length: nat, symbolLen: nat, log: nat)
    requires 1 <= length && 1 <= symbolLen <= MAX_SYMBOLS && log >= 1 && (log >= BitLen(length) || log >= BitLen(symbolLen - 1) + 1)
    ensures 2 * symbolLen <= Pow2(log) || length < Pow2(log)
    ensures 2 * symbolLen <= Pow2(MAX_NORM_LOG)
  {
    hide Pow2, BitLen;
    PowersToByte();
    if log >= BitLen(length) {
      BitLenRange(length);
      Pow2Next(BitLen(length) - 1);
      Pow2Mono(BitLen(length), log);
    } else if symbolLen == 1 {
      Pow2Mono(1, log);
      Pow2Next(0);
    } else {
      BitLenRange(symbolLen - 1);
      Pow2Next(BitLen(symbolLen - 1) - 1);
      Pow2Next(BitLen(symbolLen - 1));
      Pow2Mono(BitLen(symbolLen - 1) + 1, log);
    }
  }

  function Quot(a: nat, b: nat): nat
    requires b >= 1
  {
    a / b
  }

  /** With more cells than symbols, some symbol has more than its cell's share. */
  lemma SomeFrequent(counts: seq<nat>, length: nat, cells: nat) returns (i: nat)
    requires Sum(counts, |counts|) == length >= 1 && cells >= 1 && (|counts| < cells || length < cells)
    ensures i < |counts| && counts[i] > Quot(length, cells)
  {
    if forall k :: 0 <= k < |counts| ==> counts[k] <= length / cells {
      RareSum(counts, length / cells, |counts|);
      FewRare(Present(counts, |counts|), length / cells, cells, length);
      assert false;
    }
    i :| i < |counts| && counts[i] > length / cells;
  }

  lemma {:induction false} RareSum(counts: seq<nat>, q: nat, n: nat)
    requires n <= |counts| && forall k :: 0 <= k < |counts| ==> counts[k] <= q
    ensures Sum(counts, n) <= Present(counts, n) * q
    decreases n
  {
    if n > 0 {
      RareSum(counts, q, n - 1);
      OneMore(Present(counts, n - 1), q);
    }
  }

  lemma OneMore(k: nat, q: nat)
    ensures (k + 1) * q == k * q + q
  {
  }

  lemma FewRare(k: nat, q: nat, cells: nat, length: nat)
    requires k < cells && q == length / cells && length >= 1
    ensures k * q < length
  {
    if q == 0 { assert k * q == 0; } else { MulStep(k, cells, q); assert cells * q <= length; }
  }

  // ----- the first method -----

  /** The scaled share of a count, in 2^-(62 - log)ths of a cell. */
  function Scaled(cnt: nat, length: nat): nat
    requires length >= 1
  {
    cnt * (TWO62 / length)
  }

  /** A count above its cell's share comes to a whole cell, rounding errors and all. */
  lemma WholeCell(cnt: nat, length: nat, log: nat)
    requires 1 <= length <= MAX_LENGTH && cnt <= length && log <= 8 && cnt > Quot(length, Pow2(log))
    ensures Scaled(cnt, length) >= Pow2(62 - log)
  {
    hide Pow2;
    Powers();
    Pow2Add(log, 62 - log);
    Pow2Mono(54, 62 - log);
    CellShare(cnt, length, Pow2(log), Pow2(62 - log), TWO62);
  }

  lemma CellShare(cnt: nat, length: nat, l: nat, s: nat, b: nat)
    requires l >= 1 && l * s == b && 1 <= length <= MAX_LENGTH && cnt <= length && cnt > length / l && s >= TWO32
    ensures cnt * (b / length) >= s
  {
    var step := b / length;
    AboveShare(cnt, length, l);
    StepTimes(b, length);
    MulDifference(cnt * l, length + 1, s);
    Assoc(cnt, l, s);
    MulDifference(step * length, b - length + 1, cnt);
    Assoc2(cnt, step, length);
    SmallProduct(cnt, length);
    if cnt * step < s {
      MulDifference(s - 1, cnt * step, length);
      Expanded1(s, length);
      Expanded2(s, length);
      Expanded3(cnt, b, length);
    }
  }

  lemma AboveShare(cnt: nat, length: nat, l: nat)
    requires l >= 1 && cnt > length / l
    ensures cnt * l >= length + 1
  {
    MulStep(length / l, cnt, l);
  }

  lemma StepTimes(b: nat, length: nat)
    requires length >= 1
    ensures b >= (b / length) * length >= b - length + 1
  {
  }

  lemma Assoc(a: nat, b: nat, c: nat)
    ensures (a * b) * c == a * (b * c)
  {
  }

  lemma Assoc2(cnt: nat, step: nat, length: nat)
    ensures (step * length) * cnt == (cnt * step) * length
  {
    Assoc(step, length, cnt);
    Assoc(step, cnt, length);
    assert length * cnt == cnt * length && step * cnt == cnt * step;
  }

  lemma SmallProduct(cnt: nat, length: nat)
    requires cnt <= length <= MAX_LENGTH
    ensures cnt * length < TWO32
  {
    MulDifference(length, cnt, length);
    MulDifference(MAX_LENGTH, length, length);
    MulDifference(MAX_LENGTH, length, MAX_LENGTH);
  }

  lemma Expanded1(s: nat, length: nat)
    ensures (s - 1) * length == s * length - length
  {
  }

  lemma Expanded2(s: nat, length: nat)
    ensures (length + 1) * s == s * length + s
  {
  }

  lemma Expanded3(cnt: nat, b: nat, length: nat)
    ensures (b - length + 1) * cnt == cnt * b - cnt * length + cnt
  {
  }

  /** A count's probability in cells, rounded to nearest for the larger ones and cautiously for the small. */
  function Proba(cnt: nat, length: nat, log: nat): (p: nat)
    requires length >= 1 && log <= 42
  {
    var x, scale := Scaled(cnt, length), 62 - log;
    var p := Shr(x, scale);
    if p < 8 && x - p * Pow2(scale) > Pow2(scale - 20) * RTB[p] then p + 1 else p
  }

  lemma ProbaPositive(cnt: nat, length: nat, log: nat)
    requires 1 <= length <= MAX_LENGTH && cnt <= length && log <= 8 && cnt > Quot(length, Pow2(log))
    ensures Proba(cnt, length, log) >= 1
  {
    hide Pow2, Shr, Scaled, Quot;
    WholeCell(cnt, length, log);
    ShrLow(Scaled(cnt, length), 62 - log);
    var q := Shr(Scaled(cnt, length), 62 - log);
    ZeroTimes(q, Pow2(62 - log));
  }

  /** What is left over of a share of 2^62 in 2^15 parts, cut to cells of a table of 256. */
  lemma ShareInParts(cnt: nat)
    ensures Shr(Scaled(cnt, 0x8000), 54) == cnt / 128
    ensures Scaled(cnt, 0x8000) - (cnt / 128) * Pow2(54) == (cnt % 128) * 0x8000_0000_0000 && Pow2(34) == 0x4_0000_0000
  {
    hide Pow2, Shr, Low;
    Powers();
    Pow2Add(31, 3);
    Pow2Add(8, 54);
    FirstPowers();
    PowersToByte();
    var p, f := cnt / 128, cnt % 128;
    assert cnt == 128 * p + f;
    assert Scaled(cnt, 0x8000) == p * Pow2(54) + f * 0x8000_0000_0000;
    ShlIs(p, 54);
    ShrOfShl(p, 54, f * 0x8000_0000_0000);
  }

  /**
   Where small probabilities are rounded up, by the example of 2^15 occurrences in a table of 256 cells, 128 to a cell: from these
   parts of a cell on after one to seven whole cells, and from eight cells on never.
   */
  lemma RoundedUp(cnt: nat)
    requires cnt >= 128
    ensures var p, f := cnt / 128, cnt % 128;
            Proba(cnt, 0x8000, 8) == if p < 8 && f >= [1, 58, 62, 64, 68, 86, 92, 102][p] then p + 1 else p
  {
    hide Pow2, Shr, Scaled;
    ShareInParts(cnt);
  }

  lemma ShlIs(v: nat, n: nat)
    ensures Shl(v, n) == v * Pow2(n)
  {
  }

  lemma ZeroTimes(q: nat, p: nat)
    ensures q == 0 ==> q * p == 0
  {
  }

  lemma TotalSnoc(norm: seq<int>, v: int)
    requires Counts(norm) && v >= -1
    ensures Counts(norm + [v]) && Total(norm + [v]) == Total(norm) + Weight(v)
  {
    assert (norm + [v])[..|norm|] == norm;
  }

  lemma {:induction false} TotalSet(norm: seq<int>, i: nat, v: int)
    requires Counts(norm) && i < |norm| && v >= -1
    ensures Counts(norm[i := v]) && Total(norm[i := v]) == Total(norm) - Weight(norm[i]) + Weight(v)
    decreases |norm|
  {
    var k := |norm| - 1;
    if i < k {
      TotalSet(norm[..k], i, v);
      assert norm[i := v][..k] == norm[..k][i := v];
    } else {
      assert norm[i := v][..k] == norm[..k];
    }
  }

  datatype Outcome = UseRle | Counted(norm: seq<int>, log: nat) | Failed(error: Error)

  /** The cells of a count: one of the last for less than a cell's share. */
  function Share(cnt: nat, length: nat, log: nat): int
    requires length >= 1 && log <= 8
  {
    if cnt == 0 then 0 else if cnt <= Quot(length, Pow2(log)) then -1 else Proba(cnt, length, log)
  }

  function AllShares(counts: seq<nat>, length: nat, log: nat): (s: seq<int>)
    requires length >= 1 && log <= 8
    ensures |s| == |counts| && forall i :: 0 <= i < |s| ==> s[i] == Share(counts[i], length, log)
  {
    seq(|counts|, i requires 0 <= i < |counts| => Share(counts[i], length, log))
  }

  /** What the shares take too much is less than half of the largest. */
  ghost predicate CloseEnough(shares: seq<int>, log: nat)
  {
    Counts(shares) && exists i :: 0 <= i < |shares| && (forall k :: 0 <= k < |shares| ==> shares[k] <= shares[i]) && Total(shares) - Pow2(log) < shares[i] / 2
  }

  /** All but one of the largest as they were. */
  ghost predicate Corrected(norm: seq<int>, shares: seq<int>)
  {
    |norm| == |shares| && exists i :: 0 <= i < |shares| && (forall k :: 0 <= k < |shares| ==> shares[k] <= shares[i] && (k == i || norm[k] == shares[k]))
  }

  lemma LargestOnly(shares: seq<int>, i: nat, log: nat)
    requires i < |shares| && CloseEnough(shares, log) && forall k :: 0 <= k < |shares| ==> shares[k] <= shares[i]
    ensures Total(shares) - Pow2(log) < shares[i] / 2
  {
    hide Pow2, Total;
    var j :| 0 <= j < |shares| && (forall k :: 0 <= k < |shares| ==> shares[k] <= shares[j]) && Total(shares) - Pow2(log) < shares[j] / 2;
    assert shares[j] == shares[i];
  }

  lemma ShareIs(cnt: nat, length: nat, log: nat)
    requires length >= 1 && log <= 8
    ensures Share(cnt, length, log) == if cnt == 0 then 0 else if cnt <= Quot(length, Pow2(log)) then -1 else Proba(cnt, length, log)
  {
  }

  /** The first method: every symbol its share, and the rest to the one with the largest. */
  method Shares(counts: seq<nat>, length: nat, log: nat) returns (norm: seq<int>, still: int, largest: nat)
    requires Occurrences(counts, length) && log <= 8 && (|counts| < Pow2(log) || length < Pow2(log))
    ensures |norm| == |counts| && Counts(norm) && Total(norm) + still == Pow2(log)
    ensures forall i :: 0 <= i < |norm| ==> (norm[i] != 0 <==> counts[i] >= 1)
    ensures largest < |norm| && norm[largest] >= 1 && forall i :: 0 <= i < |norm| ==> norm[i] <= norm[largest]
    ensures norm == AllShares(counts, length, log)
  {
    hide Pow2, Total, Sum, Proba, Quot, Share;
    var lowThreshold := Quot(length, Pow2(log));
    ghost var f := SomeFrequent(counts, length, Pow2(log));
    norm, still, largest := [], Pow2(log), 0;
    NoTotal();
    var largestP := 0;
    for i := 0 to |counts|
      invariant |norm| == i && Counts(norm) && Total(norm) + still == Pow2(log)
      invariant forall k :: 0 <= k < i ==> (norm[k] != 0 <==> counts[k] >= 1)
      invariant forall k :: 0 <= k < i ==> norm[k] == Share(counts[k], length, log) && norm[k] <= largestP
      invariant largestP >= 1 ==> largest < i && norm[largest] == largestP
      invariant f < i ==> largestP >= 1
    {
      var cnt := counts[i];
      OneInSum(counts, i, |counts|);
      var v: int := 0;
      if cnt != 0 {
        if cnt <= lowThreshold {
          v := -1;
        } else {
          v := Proba(cnt, length, log);
          ProbaPositive(cnt, length, log);
          if v > largestP {
            largestP := v;
            largest := i;
          }
        }
      }
      ShareIs(cnt, length, log);
      TotalSnoc(norm, v);
      norm := norm + [v];
      still := still - Weight(v);
    }
  }

  lemma NoTotal()
    ensures Total([]) == 0
  {
  }

  // ----- the second method -----

  /** The cells of the first n symbols that have got theirs. */
  function Given(norm: seq<int>, n: nat): nat
    requires n <= |norm|
  {
    if n == 0 then 0 else Given(norm, n - 1) + if norm[n - 1] == NOT_YET then 0 else Abs(norm[n - 1])
  }

  function Abs(v: int): nat { if v < 0 then -v else v }

  /** The occurrences of those that have not. */
  function Open(norm: seq<int>, counts: seq<nat>, n: nat): nat
    requires n <= |norm| && n <= |counts|
  {
    if n == 0 then 0 else Open(norm, counts, n - 1) + if norm[n - 1] == NOT_YET then counts[n - 1] else 0
  }

  lemma {:induction false} GivenSame(a: seq<int>, b: seq<int>, n: nat)
    requires n <= |a| && n <= |b| && a[..n] == b[..n]
    ensures Given(a, n) == Given(b, n)
    decreases n
  {
    if n > 0 {
      assert a[..n][n - 1] == b[..n][n - 1] && a[..n][..n - 1] == a[..n - 1] && b[..n][..n - 1] == b[..n - 1];
      GivenSame(a, b, n - 1);
    }
  }

  lemma {:induction false} OpenSame(a: seq<int>, b: seq<int>, counts: seq<nat>, n: nat)
    requires n <= |a| && n <= |b| && n <= |counts| && a[..n] == b[..n]
    ensures Open(a, counts, n) == Open(b, counts, n)
    decreases n
  {
    if n > 0 {
      assert a[..n][n - 1] == b[..n][n - 1] && a[..n][..n - 1] == a[..n - 1] && b[..n][..n - 1] == b[..n - 1];
      OpenSame(a, b, counts, n - 1);
    }
  }

  lemma {:induction false} GivenSet(norm: seq<int>, i: nat, v: int, n: nat)
    requires i < |norm| && n <= |norm| && norm[i] == NOT_YET && v != NOT_YET
    ensures Given(norm[i := v], n) == Given(norm, n) + if i < n then Abs(v) else 0
    decreases n
  {
    if n > 0 { GivenSet(norm, i, v, n - 1); }
  }

  lemma {:induction false} OpenSet(norm: seq<int>, counts: seq<nat>, i: nat, v: int, n: nat)
    requires i < |norm| == |counts| && n <= |norm| && norm[i] == NOT_YET && v != NOT_YET
    ensures Open(norm[i := v], counts, n) + (if i < n then counts[i] else 0) == Open(norm, counts, n)
    decreases n
  {
    if n > 0 { OpenSet(norm, counts, i, v, n - 1); }
  }

  lemma {:induction false} OpenNone(norm: seq<int>, counts: seq<nat>, i: nat, n: nat)
    requires i < n <= |norm| == |counts| && norm[i] == NOT_YET
    ensures Open(norm, counts, n) >= counts[i]
    decreases n
  {
    if i < n - 1 { OpenNone(norm, counts, i, n - 1); }
  }

  /** So far one cell each for some, none yet for the frequent. */
  ghost predicate OneEach(norm: seq<int>, counts: seq<nat>, low: nat)
  {
    |norm| == |counts| && forall k :: 0 <= k < |norm| ==> SetOut(norm[k], counts[k], low)
  }

  predicate SetOut(v: int, cnt: nat, low: nat)
  {
    if cnt == 0 then v == 0 else if cnt <= low then v == -1 else v == 1 || v == NOT_YET
  }

  lemma {:induction false} GivenFew(norm: seq<int>, counts: seq<nat>, low: nat, n: nat)
    requires OneEach(norm, counts, low) && n <= |norm|
    ensures Given(norm, n) <= Present(counts, n)
    decreases n
  {
    if n > 0 {
      GivenFew(norm, counts, low, n - 1);
      assert SetOut(norm[n - 1], counts[n - 1], low);
    }
  }

  lemma Fewer(counts: seq<nat>, length: nat, cells: nat)
    requires Sum(counts, |counts|) == length && (|counts| < cells || length < cells)
    ensures Present(counts, |counts|) < cells
  {
  }

  /** Those that have not got theirs occur more often than b times. */
  ghost predicate Above(norm: seq<int>, counts: seq<nat>, b: nat)
    requires |norm| == |counts|
  {
    forall k :: 0 <= k < |norm| && norm[k] == NOT_YET ==> counts[k] > b
  }

  /** Every one of them is worth a whole cell at least. */
  ghost predicate Enough(norm: seq<int>, counts: seq<nat>, total: nat, cells: nat)
    requires |norm| == |counts|
  {
    forall k :: 0 <= k < |norm| && norm[k] == NOT_YET ==> counts[k] * cells >= total
  }

  /** One cell each for the rare and the less than average. */
  method FirstOnes(counts: seq<nat>, length: nat, lowThreshold: nat, lowOne: nat) returns (norm: seq<int>, distributed: nat, total: nat)
    requires Sum(counts, |counts|) == length
    ensures OneEach(norm, counts, lowThreshold) && Above(norm, counts, lowOne) && total + distributed <= length
    ensures distributed == Given(norm, |norm|) && total == Open(norm, counts, |norm|)
  {
    hide Sum, SetOut;
    norm, distributed, total := [], 0, length;
    SumEnds(counts, 0);
    for i := 0 to |counts|
      invariant |norm| == i && forall k :: 0 <= k < i ==> SetOut(norm[k], counts[k], lowThreshold)
      invariant total + distributed <= length && forall k :: 0 <= k < i && norm[k] == NOT_YET ==> counts[k] > lowOne
      invariant distributed == Given(norm, i) && total + Sum(counts, i) == length + Open(norm, counts, i)
    {
      var cnt := counts[i];
      var v := NOT_YET;
      if cnt == 0 {
        v := 0;
      } else if cnt <= lowThreshold {
        v := -1;
      } else if cnt <= lowOne {
        v := 1;
      }
      SetOutIs(v, cnt, lowThreshold);
      GivenSame(norm, norm + [v], i);
      OpenSame(norm, norm + [v], counts, i);
      SumEnds(counts, i + 1);
      SumRest(counts, i + 1);
      norm := norm + [v];
      if v != NOT_YET && v != 0 {
        distributed := distributed + 1;
        total := total - cnt;
      }
    }
  }

  lemma SetOutIs(v: int, cnt: nat, low: nat)
    ensures cnt == 0 && v == 0 ==> SetOut(v, cnt, low)
    ensures 0 < cnt <= low && v == -1 ==> SetOut(v, cnt, low)
    ensures cnt > low && cnt > 0 && (v == 1 || v == NOT_YET) ==> SetOut(v, cnt, low)
  {
  }

  lemma SumEnds(counts: seq<nat>, n: nat)
    requires n <= |counts|
    ensures Sum(counts, 0) == 0 && (n > 0 ==> Sum(counts, n) == Sum(counts, n - 1) + counts[n - 1])
  {
  }

  lemma {:induction false} SumRest(counts: seq<nat>, n: nat)
    requires n <= |counts|
    ensures Sum(counts, n) <= Sum(counts, |counts|)
    decreases |counts| - n
  {
    if n < |counts| { SumRest(counts, n + 1); }
  }

  /** And for those still below a new average. */
  method MoreOnes(norm0: seq<int>, counts: seq<nat>, lowThreshold: nat, lowOne: nat, distributed0: nat, total0: nat) returns (norm: seq<int>, distributed: nat, total: nat)
    requires OneEach(norm0, counts, lowThreshold) && distributed0 == Given(norm0, |norm0|) && total0 == Open(norm0, counts, |norm0|)
    ensures OneEach(norm, counts, lowThreshold) && Above(norm, counts, lowOne) && total <= total0
    ensures distributed == Given(norm, |norm|) && total == Open(norm, counts, |norm|)
  {
    hide SetOut;
    norm, distributed, total := norm0, distributed0, total0;
    for i := 0 to |counts|
      invariant OneEach(norm, counts, lowThreshold) && distributed == Given(norm, |norm|) && total == Open(norm, counts, |norm|)
      invariant total <= total0 && forall k :: 0 <= k < i && norm[k] == NOT_YET ==> counts[k] > lowOne
    {
      if norm[i] == NOT_YET && counts[i] <= lowOne {
        OneNow(norm, counts, lowThreshold, i);
        GivenSet(norm, i, 1, |norm|);
        OpenSet(norm, counts, i, 1, |norm|);
        OpenNone(norm, counts, i, |norm|);
        norm := norm[i := 1];
        distributed := distributed + 1;
        total := total - counts[i];
      }
    }
  }

  lemma OneNow(norm: seq<int>, counts: seq<nat>, low: nat, i: nat)
    requires OneEach(norm, counts, low) && i < |norm| && norm[i] == NOT_YET
    ensures OneEach(norm[i := 1], counts, low)
  {
    assert SetOut(norm[i], counts[i], low);
  }

  /** Every symbol that occurs has cells, and no other. */
  ghost predicate Served(norm: seq<int>, counts: seq<nat>)
  {
    |norm| == |counts| && forall k :: 0 <= k < |norm| ==> norm[k] >= -1 && (norm[k] != 0 <==> counts[k] >= 1)
  }

  lemma {:induction false} GivenIsTotal(norm: seq<int>)
    requires Counts(norm)
    ensures Given(norm, |norm|) == Total(norm)
    decreases |norm|
  {
    if norm != [] {
      GivenIsTotal(norm[..|norm| - 1]);
      GivenSame(norm, norm[..|norm| - 1], |norm| - 1);
    }
  }

  lemma NothingOpen(norm: seq<int>, counts: seq<nat>, low: nat)
    requires OneEach(norm, counts, low) && Open(norm, counts, |norm|) == 0
    ensures Served(norm, counts) && Counts(norm)
    ensures forall k :: 0 <= k < |norm| && counts[k] > low ==> norm[k] == 1
  {
    forall k | 0 <= k < |norm| ensures norm[k] != NOT_YET && SetOut(norm[k], counts[k], low) {
      if norm[k] == NOT_YET { OpenNone(norm, counts, k, |norm|); }
    }
  }

  function Around(i: nat, n: nat): (j: nat)
    requires i < n
    ensures j == if i + 1 == n then 0 else i + 1
  {
    (i + 1) % n
  }

  /** The rest of the cells go round those that have more than a rare one's. */
  method RoundRobin(norm0: seq<int>, counts: seq<nat>, rest: nat, ghost p: nat) returns (norm: seq<int>)
    requires Served(norm0, counts) && p < |norm0| && norm0[p] >= 1
    ensures Served(norm, counts) && Counts(norm) && Counts(norm0) && Total(norm) == Total(norm0) + rest
  {
    hide Total, Around;
    norm := norm0;
    var toDistribute, i := rest, 0;
    while toDistribute > 0
      invariant Served(norm, counts) && Counts(norm) && Counts(norm0) && Total(norm) + toDistribute == Total(norm0) + rest
      invariant 0 <= i < |norm| && norm[p] >= 1 && toDistribute >= 0
      decreases toDistribute, if i <= p then p - i else p + |norm| - i
    {
      if norm[i] > 0 {
        toDistribute := toDistribute - 1;
        TotalSet(norm, i, norm[i] + 1);
        norm := norm[i := norm[i] + 1];
      }
      i := Around(i, |norm|);
    }
  }

  /** Shares of what is left, by where each begins and ends on the line of all cells. */
  method Weights(norm0: seq<int>, counts: seq<nat>, low: nat, total: nat, toDistribute: nat, log: nat) returns (r: Outcome)
    requires OneEach(norm0, counts, low) && total == Open(norm0, counts, |norm0|) && 1 <= total <= MAX_LENGTH && log <= 8
    requires toDistribute + Given(norm0, |norm0|) == Pow2(log)
    ensures !r.UseRle? && (r.Counted? ==> Normalised(r.norm, counts, log) && r.log == log)
    ensures Enough(norm0, counts, total, toDistribute) ==> r.Counted?
  {
    hide Pow2, Shr, Total, SetOut, Step, Line, Given, Open;
    var vStepLog := 62 - log;
    var rStep := Step(toDistribute, total, vStepLog);
    var tmpTotal: nat, norm := Pow2(vStepLog - 1) - 1, norm0;
    LineStarts(vStepLog, rStep);
    for i := 0 to |norm0|
      invariant |norm| == |norm0| == |counts| && total >= Open(norm, counts, |norm|)
      invariant tmpTotal == Line(vStepLog, total - Open(norm, counts, |norm|), rStep)
      invariant Given(norm, |norm|) == Given(norm0, |norm0|) + Shr(tmpTotal, vStepLog)
      invariant forall k :: 0 <= k < i ==> norm[k] >= -1 && (norm[k] != 0 <==> counts[k] >= 1)
      invariant forall k :: i <= k < |norm| ==> norm[k] == norm0[k] && SetOut(norm[k], counts[k], low)
    {
      SetOutMeans(norm[i], counts[i], low);
      if norm[i] == NOT_YET {
        OpenNone(norm, counts, i, |norm|);
        LineNext(vStepLog, total - Open(norm, counts, |norm|), counts[i], rStep);
        var end := tmpTotal + counts[i] * rStep;
        var sStart: int := Shr(tmpTotal, vStepLog);
        var sEnd: int := Shr(end, vStepLog);
        var weight := sEnd - sStart;
        if counts[i] * toDistribute >= total { WholeCells(counts[i], toDistribute, total, vStepLog, tmpTotal); }
        if weight < 1 {
          return Failed(BadTable);
        }
        OpenSet(norm, counts, i, weight, |norm|);
        GivenSet(norm, i, weight, |norm|);
        norm := norm[i := weight];
        tmpTotal := end;
      }
    }
    AllServed(norm, counts);
    GivenIsTotal(norm);
    LineEnds(total, toDistribute, vStepLog);
    r := Counted(norm, log);
  }

  /** What is worth a whole cell gets one, wherever it begins. */
  lemma WholeCells(cnt: nat, d: nat, total: nat, v: nat, at: nat)
    requires cnt * d >= total && 54 <= v && 1 <= total <= MAX_LENGTH
    ensures Shr(at + cnt * Step(d, total, v), v) >= Shr(at, v) + 1
  {
    hide Pow2, Shr, Step;
    Powers();
    Pow2Mono(54, v);
    Pow2Next(v - 1);
    var p, mid, rStep := Pow2(v), Pow2(v - 1) - 1, Step(d, total, v);
    StepIs(d, total, v);
    StepTimes(p * d + mid, total);
    StepWorth(cnt, d, total, p, mid, rStep);
    ShrStep(at, at + cnt * rStep, v);
  }

  lemma StepIs(d: nat, total: nat, v: nat)
    requires total >= 1 && v >= 1
    ensures Step(d, total, v) == (Pow2(v) * d + (Pow2(v - 1) - 1)) / total
  {
  }

  lemma StepWorth(cnt: nat, d: nat, total: nat, p: nat, mid: nat, rStep: nat)
    requires cnt * d >= total >= 1 && total <= mid && total * rStep + total > p * d + mid
    ensures cnt * rStep >= p
  {
    assert total * rStep >= p * d;
    if cnt * rStep < p {
      StepShort(cnt, d, total, p, rStep);
      assert false;
    }
  }

  lemma StepShort(cnt: nat, d: nat, total: nat, p: nat, rStep: nat)
    requires cnt * d >= total >= 1 && total * rStep >= p * d && p >= 1
    ensures cnt * rStep >= p
  {
    calc {
      total * (cnt * rStep);
      cnt * (total * rStep);
    >= { Scale(cnt, total * rStep, p * d); }
      cnt * (p * d);
      p * (cnt * d);
    >= { Scale(p, cnt * d, total); }
      p * total;
    }
    if cnt * rStep < p {
      MulStep(cnt * rStep, p, total);
      Swapped(cnt * rStep, total, p, total);
      assert false;
    }
  }

  lemma Scale(a: nat, b: nat, c: nat)
    requires b >= c
    ensures a * b >= a * c
  {
  }

  lemma ShrStep(a: nat, b: nat, v: nat)
    requires b >= a + Pow2(v)
    ensures Shr(b, v) >= Shr(a, v) + 1
  {
    hide Pow2, Shr, Low;
    ShrLow(a, v);
    ShrLow(b, v);
    if Shr(b, v) <= Shr(a, v) {
      Scale(Pow2(v), Shr(a, v), Shr(b, v));
      Swapped(Pow2(v), Shr(a, v), Pow2(v), Shr(b, v));
      assert false;
    }
  }

  lemma SetOutMeans(v: int, cnt: nat, low: nat)
    requires SetOut(v, cnt, low)
    ensures v == NOT_YET ==> cnt >= 1
    ensures v != NOT_YET ==> v >= -1 && (v != 0 <==> cnt >= 1)
  {
  }

  /** The scale for what is left, and a point on the line of all cells: half a cell in, less a bit, and so many occurrences. */
  function Step(toDistribute: nat, total: nat, v: nat): nat
    requires total >= 1 && v >= 1
  {
    (Pow2(v) * toDistribute + (Pow2(v - 1) - 1)) / total
  }

  function Line(v: nat, used: nat, rStep: nat): nat
    requires v >= 1
  {
    Pow2(v - 1) - 1 + used * rStep
  }

  lemma LineNext(v: nat, used: nat, more: nat, rStep: nat)
    requires v >= 1
    ensures Line(v, used + more, rStep) == Line(v, used, rStep) + more * rStep && more * rStep >= 0
  {
    assert (used + more) * rStep == used * rStep + more * rStep;
  }

  lemma LineStarts(v: nat, rStep: nat)
    requires v >= 1
    ensures Shr(Pow2(v - 1) - 1, v) == 0 && Line(v, 0, rStep) == Pow2(v - 1) - 1
  {
    hide Shr;
    ShrZero(Pow2(v - 1) - 1, v);
  }

  lemma {:induction false} AllServed(norm: seq<int>, counts: seq<nat>)
    requires |norm| == |counts| && forall k :: 0 <= k < |norm| ==> norm[k] >= -1 && (norm[k] != 0 <==> counts[k] >= 1)
    ensures Served(norm, counts) && Counts(norm) && Open(norm, counts, |norm|) == 0
  {
    NoneOpen(norm, counts, |norm|);
  }

  lemma {:induction false} NoneOpen(norm: seq<int>, counts: seq<nat>, n: nat)
    requires n <= |norm| == |counts| && forall k :: 0 <= k < n ==> norm[k] != NOT_YET
    ensures Open(norm, counts, n) == 0
    decreases n
  {
    if n > 0 { NoneOpen(norm, counts, n - 1); }
  }

  /** The line ends inside its last cell: all cells are given out, and not one more. */
  lemma LineEnds(total: nat, d: nat, v: nat)
    requires 54 <= v && 1 <= total <= MAX_LENGTH
    ensures Shr(Line(v, total, Step(d, total, v)), v) == d
  {
    hide Pow2, Shr, Step, Line;
    Powers();
    Pow2Mono(54, v);
    var rest := LineRest(total, d, v);
    ShrOfShl(d, v, rest);
  }

  lemma LineRest(total: nat, d: nat, v: nat) returns (rest: nat)
    requires v >= 1 && 1 <= total < Pow2(v)
    ensures rest < Pow2(v) && Line(v, total, Step(d, total, v)) == Shl(d, v) + rest
  {
    hide Pow2;
    Pow2Next(v - 1);
    var cells, mid := Pow2(v) * d, Pow2(v - 1) - 1;
    StepTimes(cells + mid, total);
    Swapped(Step(d, total, v), total, d, Pow2(v));
    rest := mid + total * Step(d, total, v) - cells;
  }

  lemma Swapped(a: nat, b: nat, c: nat, e: nat)
    ensures a * b == b * a && c * e == e * c
  {
  }

  /** Above the average is worth a whole cell. */
  lemma FirstEnough(norm: seq<int>, counts: seq<nat>, total: nat, cells: nat, low: nat)
    requires |norm| == |counts| && Above(norm, counts, low) && cells >= 1 && Quot(total, cells) <= low
    ensures Enough(norm, counts, total, cells)
  {
    forall k | 0 <= k < |norm| && norm[k] == NOT_YET
      ensures counts[k] * cells >= total
    {
      MulStep(low, counts[k], cells);
      QuotBound(total, cells, low);
    }
  }

  lemma QuotBound(total: nat, cells: nat, low: nat)
    requires cells >= 1 && total / cells <= low
    ensures total < low * cells + cells
  {
    var q := total / cells;
    assert total == q * cells + total % cells;
    MulDifference(low, q, cells);
  }

  /**
   That the average has risen so far means that more than a third of the cells are given out. With no more symbols than half the
   cells, two thirds at least of those that remain then stay for the symbols above one and a half times the new average.
   */
  lemma ManyGone(length: nat, cells: nat, gone: nat, total: nat, symbols: nat)
    requires gone < cells && total + gone <= length && Quot(total, cells - gone) > Quot(length * 3, cells * 2)
    requires 2 * symbols <= cells || length < cells
    ensures 3 * symbols <= cells + 2 * gone
  {
    hide Quot;
    var d, t := cells - gone, Quot(total, cells - gone);
    QuotIs(total, d);
    QuotIs(length * 3, cells * 2);
    if length < cells { TooFew(total, d); }
    QuotBound(length * 3, cells * 2, t - 1);
    Enlarged(t, 2 * cells);
    Rises(total, d, t, cells);
    Cancel(total, 3 * d, 2 * cells);
  }

  lemma QuotIs(a: nat, b: nat)
    requires b >= 1
    ensures Quot(a, b) == a / b && a >= Quot(a, b) * b
  {
  }

  lemma TooFew(total: nat, d: nat)
    requires total < d
    ensures Quot(total, d) == 0
  {
  }

  lemma Enlarged(t: nat, c: nat)
    requires t >= 1
    ensures (t - 1) * c + c == t * c
  {
  }

  lemma Cancel(a: nat, b: nat, c: nat)
    requires a * b < a * c
    ensures b < c
  {
    if b >= c { Scale(a, b, c); }
  }

  lemma Rises(total: nat, d: nat, t: nat, cells: nat)
    requires total >= t * d && 3 * total < t * (2 * cells) && d >= 1
    ensures total * (3 * d) < total * (2 * cells)
  {
    calc {
      total * (3 * d);
      (3 * total) * d;
    < { Below(3 * total, t * (2 * cells), d); }
      t * (2 * cells) * d;
      (t * d) * (2 * cells);
    <= { Scale(2 * cells, total, t * d); }
      total * (2 * cells);
    }
  }

  lemma Below(a: nat, b: nat, d: nat)
    requires a < b && d >= 1
    ensures a * d < b * d
  {
  }

  lemma SecondEnough(norm: seq<int>, counts: seq<nat>, total0: nat, cells0: nat, total: nat, cells: nat)
    requires |norm| == |counts| && cells0 >= 1 && Above(norm, counts, Quot(total0 * 3, cells0 * 2))
    requires total <= total0 && 3 * cells >= 2 * cells0
    ensures Enough(norm, counts, total, cells)
  {
    forall k | 0 <= k < |norm| && norm[k] == NOT_YET
      ensures counts[k] * cells >= total
    {
      var q := total0 * 3 / (cells0 * 2);
      MulStep(q, counts[k], cells0 * 2);
      QuotBound(total0 * 3, cells0 * 2, q);
      Scale(counts[k], 3 * cells, 2 * cells0);
    }
  }

  /**
   When the first method would take too much from the largest: one cell each to start with, then shares of what is left. It
   succeeds on the tables that OptimalTableLog chooses.
   */
  method NormalizeCount2(counts: seq<nat>, length: nat, log: nat) returns (r: Outcome)
    requires Occurrences(counts, length) && MIN_ENC_LOG <= log <= MAX_NORM_LOG && (|counts| < Pow2(log) || length < Pow2(log))
    ensures !r.UseRle? && (r.Counted? ==> Normalised(r.norm, counts, log) && r.log == log)
    ensures 2 * |counts| <= Pow2(log) || length < Pow2(log) ==> r.Counted?
  {
    hide Pow2, Sum, Present, Given, Open, SetOut, OneEach, Above, Enough, Total, Quot;
    Pow2Next(log);
    var lowThreshold, lowOne := Quot(length, Pow2(log)), Quot(length * 3, Pow2(log + 1));
    ghost var p := SomeFrequent(counts, length, Pow2(log));
    Fewer(counts, length, Pow2(log));
    var norm, distributed, total := FirstOnes(counts, length, lowThreshold, lowOne);
    OneEachSize(norm, counts, lowThreshold);
    GivenFew(norm, counts, lowThreshold, |norm|);
    var toDistribute: nat := Pow2(log) - distributed;
    if Quot(total, toDistribute) > lowOne {
      ghost var total0, cells0 := total, toDistribute;
      if 2 * |counts| <= Pow2(log) || length < Pow2(log) { ManyGone(length, Pow2(log), distributed, total, |counts|); }
      lowOne := Quot(total * 3, toDistribute * 2);
      norm, distributed, total := MoreOnes(norm, counts, lowThreshold, lowOne, distributed, total);
      OneEachSize(norm, counts, lowThreshold);
      GivenFew(norm, counts, lowThreshold, |norm|);
      toDistribute := Pow2(log) - distributed;
      if 2 * |counts| <= Pow2(log) || length < Pow2(log) { SecondEnough(norm, counts, total0, cells0, total, toDistribute); }
    } else {
      FirstEnough(norm, counts, total, toDistribute, lowOne);
    }
    // never more ones than symbols: what the source does when there is one more is dead code
    assert distributed != |counts| + 1;
    if total == 0 {
      NothingOpen(norm, counts, lowThreshold);
      GivenIsTotal(norm);
      norm := RoundRobin(norm, counts, toDistribute, p);
      r := Counted(norm, log);
    } else {
      OpenInSum(norm, counts, |norm|);
      r := Weights(norm, counts, lowThreshold, total, toDistribute, log);
    }
  }

  lemma OneEachSize(norm: seq<int>, counts: seq<nat>, low: nat)
    requires OneEach(norm, counts, low)
    ensures |norm| == |counts|
  {
  }

  lemma {:induction false} OpenInSum(norm: seq<int>, counts: seq<nat>, n: nat)
    requires n <= |norm| == |counts|
    ensures Open(norm, counts, n) <= Sum(counts, n)
    decreases n
  {
    if n > 0 { OpenInSum(norm, counts, n - 1); }
  }

  lemma EnoughCells(symbols: nat, log: nat)
    requires symbols >= 1
    ensures 2 * symbols <= Pow2(log) ==> symbols < Pow2(log)
  {
  }

  /** Normalised counts for a histogram, or the word that there is only one symbol. */
  method NormalizeCount(counts: seq<nat>, length: nat, maxCount: nat) returns (r: Outcome)
    requires Occurrences(counts, length) && maxCount in counts && forall i :: 0 <= i < |counts| ==> counts[i] <= maxCount
    ensures r.UseRle? <==> maxCount == length
    ensures r.UseRle? || r.Counted?
    ensures r.Counted? ==> MIN_ENC_LOG <= r.log <= MAX_NORM_LOG && Normalised(r.norm, counts, r.log)
    ensures r.Counted? && CloseEnough(AllShares(counts, length, r.log), r.log) ==> Corrected(r.norm, AllShares(counts, length, r.log))
  {
    hide Pow2, Sum, Total, Share;
    var log := OptimalTableLog(length, |counts|);
    EnoughCells(|counts|, log);
    if maxCount == length {
      return UseRle;
    }
    var norm, still, largest := Shares(counts, length, log);
    if -still >= norm[largest] / 2 {
      r := NormalizeCount2(counts, length, log);
      if CloseEnough(norm, log) {
        LargestOnly(norm, largest, log);
        assert false;
      }
      return;
    }
    ghost var shares := norm;
    TotalSet(norm, largest, norm[largest] + still);
    norm := norm[largest := norm[largest] + still];
    assert forall k :: 0 <= k < |shares| ==> shares[k] <= shares[largest] && (k == largest || norm[k] == shares[k]);
    r := Counted(norm, log);
  }
}
