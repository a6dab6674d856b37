/** The tables for a block's sequences, from their codes: histograms, normalised counts, cells. */
module SequenceTables {
  import opened Bits
  import opened Counting
  import opened Results
  import opened FseSpread
  import opened FseCoder
  import opened FseNormalize
  import opened SequenceCodes
  import opened SequenceSpec
  import opened SequenceCoder

  /** Every symbol that occurs has a cell, and only symbols of the alphabet have. */
  ghost predicate Covers(cells: seq<nat>, counts: seq<nat>)
  {
    && (forall c :: 0 <= c < |counts| && counts[c] >= 1 ==> Count(cells, c) >= 1)
    && (forall u :: 0 <= u < |cells| ==> cells[u] < |counts|)
  }

  lemma {:induction false} InCells(cells: seq<nat>, u: nat)
    requires u < |cells|
    ensures Count(cells, cells[u]) >= 1
    decreases |cells|
  {
    if u < |cells| - 1 { InCells(cells[..|cells| - 1], u); }
  }

  /** Cells spread by normalised counts cover the histogram. */
  lemma SpreadCovers(norm: seq<int>, counts: seq<nat>, log: nat, cells: seq<nat>)
    requires Normalised(norm, counts, log) && IsSpread(norm, log, cells)
    ensures Covers(cells, counts)
  {
    hide Pow2, Total, IsSpread, Count;
    forall c | 0 <= c < |counts| && counts[c] >= 1 ensures Count(cells, c) >= 1 { SpreadCounts(norm, log, cells, c); }
    forall u | 0 <= u < |cells| ensures cells[u] < |counts| {
      InCells(cells, u);
      SpreadCounts(norm, log, cells, cells[u]);
    }
  }

  lemma FewRare(norm: seq<int>, counts: seq<nat>, log: nat)
    requires Normalised(norm, counts, log)
    ensures |Rare(norm)| <= Pow2(log)
  {
    hide Pow2;
    Sizes(norm);
  }

  /** The table for a histogram; `first` is the first code, which is the only one if there is only one. */
  method MakeTable(e: FseEncoder, counts: seq<nat>, length: nat, maxCount: nat, first: nat) returns (err: Option<Error>)
    requires Occurrences(counts, length) && maxCount in counts && forall i :: 0 <= i < |counts| ==> counts[i] <= maxCount
    requires first < |counts| && counts[first] >= 1
    modifies e
    ensures err == None && fresh(e.stateTable) && fresh(e.symbolTT)
    ensures EncoderOk(e) && e.actualTableLog <= MAX_NORM_LOG && Covers(e.cells, counts) && (e.useRLE <==> maxCount == length)
  {
    hide Pow2, Sum, Total, Normalised, IsSpread, FseEncoder.TablesOk;
    var r := NormalizeCount(counts, length, maxCount);
    match r
    case UseRle =>
      e.SetRLE(first);
      OneCovers(counts, length, maxCount, first);
      OneSize(first);
      err := None;
    case Counted(norm, log) =>
      FewRare(norm, counts, log);
      CountsOf(norm, counts, log);
      err := e.BuildCTable(norm, log);
      SpreadCovers(norm, counts, log, e.cells);
      TableSize(e);
  }

  lemma CountsOf(norm: seq<int>, counts: seq<nat>, log: nat)
    requires Normalised(norm, counts, log)
    ensures Counts(norm) && Total(norm) == Pow2(log)
  {
  }

  lemma TableSize(e: FseEncoder)
    requires e.Valid() && !e.useRLE
    ensures SizeOk(TableOf(e))
  {
  }

  lemma OneSize(first: nat)
    ensures SizeOk(Table([first], 0))
  {
  }

  /** When one count is all of the sum, every other is zero. */
  lemma OneCovers(counts: seq<nat>, length: nat, maxCount: nat, first: nat)
    requires Sum(counts, |counts|) == length == maxCount && maxCount in counts && first < |counts| && counts[first] >= 1
    ensures Covers([first], counts)
  {
    hide Sum;
    assert [first][..0] == [];
    assert Count([first], first) == 1;
    var m :| 0 <= m < |counts| && counts[m] == maxCount;
    forall c | 0 <= c < |counts| && counts[c] >= 1 ensures c == first {
      if c != m { TwoInSum(counts, c, m, |counts|); }
      if first != m { TwoInSum(counts, first, m, |counts|); }
    }
  }

  lemma {:induction false} TwoInSum(counts: seq<nat>, a: nat, b: nat, n: nat)
    requires a < n <= |counts| && b < n && a != b
    ensures counts[a] + counts[b] <= Sum(counts, n)
    decreases n
  {
    if a == n - 1 {
      OneInSum(counts, b, n - 1);
    } else if b == n - 1 {
      OneInSum(counts, a, n - 1);
    } else {
      TwoInSum(counts, a, b, n - 1);
    }
  }

  // ----- the histograms -----

  /** The codes of the sequences. */
  function LlCodes(qs: seq<Seq>): (cs: seq<nat>)
    ensures |cs| == |qs| && forall k :: 0 <= k < |qs| ==> cs[k] == LlCode(qs[k].litLen)
  {
    seq(|qs|, k requires 0 <= k < |qs| => LlCode(qs[k].litLen))
  }

  function MlCodes(qs: seq<Seq>): (cs: seq<nat>)
    ensures |cs| == |qs| && forall k :: 0 <= k < |qs| ==> cs[k] == MlCode(qs[k].matchLen)
  {
    seq(|qs|, k requires 0 <= k < |qs| => MlCode(qs[k].matchLen))
  }

  function OfCodes(qs: seq<Seq>): (cs: seq<nat>)
    requires forall k :: 0 <= k < |qs| ==> SeqOk(qs[k])
    ensures |cs| == |qs| && forall k :: 0 <= k < |qs| ==> SeqOk(qs[k]) && cs[k] == OfCode(qs[k].offset)
  {
    seq(|qs|, k requires 0 <= k < |qs| && SeqOk(qs[k]) => OfCode(qs[k].offset))
  }

  /** How often every code occurs, up to the largest, and the most often any does. */
  method Tally(codes: seq<nat>) returns (counts: seq<nat>, maxCount: nat)
    requires codes != [] && |codes| <= MAX_LENGTH && forall i :: 0 <= i < |codes| ==> codes[i] < MAX_SYMBOLS
    ensures Occurrences(counts, |codes|) && maxCount in counts && forall i :: 0 <= i < |counts| ==> counts[i] <= maxCount
    ensures forall v: nat :: v < |counts| ==> counts[v] == Count(codes, v)
    ensures forall i :: 0 <= i < |codes| ==> codes[i] < |counts| && counts[codes[i]] >= 1
    ensures |counts| - 1 in codes
  {
    hide Sum, Count;
    var hist := new nat[256](_ => 0);
    NoCount();
    SumZeros(hist[..], 0, 256);
    NoSum(hist[..]);
    var max: nat := 0;
    for i := 0 to |codes|
      invariant Sum(hist[..], 256) == i
      invariant forall v: nat :: v < 256 ==> hist[v] == Count(codes[..i], v)
      invariant max < MAX_SYMBOLS && forall k :: 0 <= k < i ==> codes[k] <= max && hist[codes[k]] >= 1
      invariant forall v :: max < v < 256 ==> hist[v] == 0
      invariant max == 0 || max in codes
    {
      var v := codes[i];
      CountNext(codes, i);
      SumBump(hist[..], v, 256);
      ghost var was := hist[..];
      hist[v] := hist[v] + 1;
      assert hist[..] == was[v := was[v] + 1];
      if v > max { max := v; }
    }
    assert codes[..|codes|] == codes && codes[0] <= max;
    counts := hist[..max + 1];
    SumZeros(hist[..], max + 1, 256);
    SumFront(counts, hist[..], max + 1);
    maxCount := counts[0];
    for i := 1 to |counts|
      invariant maxCount in counts && forall k :: 0 <= k < i ==> counts[k] <= maxCount
      modifies {}
    {
      if counts[i] > maxCount { maxCount := counts[i]; }
    }
  }

  const LL_SYMBOLS: nat := 36
  const OF_SYMBOLS: nat := 31

  lemma SmallCodes(qs: seq<Seq>)
    requires forall k :: 0 <= k < |qs| ==> SeqOk(qs[k])
    ensures forall k :: 0 <= k < |qs| ==> LlCodes(qs)[k] < LL_SYMBOLS && MlCodes(qs)[k] < MAX_SYMBOLS && OfCodes(qs)[k] < OF_SYMBOLS
  {
    hide LlCode, MlCode, OfCode;
    forall k | 0 <= k < |qs|
      ensures LlCodes(qs)[k] < LL_SYMBOLS && MlCodes(qs)[k] < MAX_SYMBOLS && OfCodes(qs)[k] < OF_SYMBOLS
    {
      LlCodeOk(qs[k].litLen);
      MlCodeOk(qs[k].matchLen);
      OfSmall(qs[k].offset);
    }
  }

  lemma OfSmall(offset: nat)
    requires 1 <= offset < OF_LIMIT
    ensures OfCode(offset) < OF_SYMBOLS
  {
    hide Pow2, BitLen;
    Powers();
    BitLenBound(offset, 31);
  }

  /** The table for the codes of one kind. */
  method TableOfCodes(codes: seq<nat>, ghost symbols: nat) returns (err: Option<Error>, e: FseEncoder)
    requires codes != [] && |codes| <= MAX_LENGTH && symbols <= MAX_SYMBOLS && forall i :: 0 <= i < |codes| ==> codes[i] < symbols
    ensures err == None && fresh(e) && EncoderOk(e) && SizeOk(TableOf(e))
    ensures forall i :: 0 <= i < |codes| ==> Count(e.cells, codes[i]) >= 1
    ensures forall u :: 0 <= u < |e.cells| ==> e.cells[u] < symbols
  {
    hide Count, FseEncoder.Valid, Occurrences;
    e := new FseEncoder();
    var counts, max := Tally(codes);
    err := MakeTable(e, counts, |codes|, max, codes[0]);
  }

  /**
   The tables for a block's sequences. They can always be made, and every sequence of the block can be coded with them, which
   is all that the sequences need for the way through the bitstream.
   */
  method TablesFor(qs: seq<Seq>) returns (err: Option<Error>, ll: FseEncoder, of: FseEncoder, ml: FseEncoder)
    requires qs != [] && |qs| <= MAX_LENGTH && forall k :: 0 <= k < |qs| ==> SeqOk(qs[k])
    ensures err == None && fresh(ll) && fresh(of) && fresh(ml)
    ensures EncoderOk(ll) && EncoderOk(of) && EncoderOk(ml)
    ensures var ts := Tables(TableOf(ll), TableOf(ml), TableOf(of)); TablesOk(ts) && AllCodable(ts, qs)
    ensures forall u :: 0 <= u < |ll.cells| ==> ll.cells[u] < LL_SYMBOLS
    ensures forall u :: 0 <= u < |of.cells| ==> of.cells[u] < OF_SYMBOLS
    ensures forall u :: 0 <= u < |ml.cells| ==> ml.cells[u] < MAX_SYMBOLS
  {
    hide Count, LlCode, MlCode, OfCode, FseEncoder.Valid, SizeOk;
    SmallCodes(qs);
    var e1, e2, e3;
    e1, ll := TableOfCodes(LlCodes(qs), LL_SYMBOLS);
    e2, of := TableOfCodes(OfCodes(qs), OF_SYMBOLS);
    e3, ml := TableOfCodes(MlCodes(qs), MAX_SYMBOLS);
    err := if e1.Some? then e1 else if e2.Some? then e2 else e3;
  }
}
