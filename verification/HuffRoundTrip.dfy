/** A block of bytes through the Huffman coder and back: histogram, table, weights, stream. */
module HuffRoundTrip {
  import opened Bits
  import opened Counting
  import opened Results
  import opened HuffCodes
  import opened HuffTables
  import opened HuffTableBuild
  import HuffBuild
  import HuffSort
  import HuffStream
  import BitStream

  // ----- the histogram of a block -----

  /** How often every symbol occurs, up to the last one that does, and the most often any does. */
  method CountSimple(src: seq<nat>) returns (counts: seq<nat>, max: nat)
    requires forall i :: 0 <= i < |src| ==> src[i] < 256
    ensures |counts| <= 256 && Sum(counts, |counts|) == |src| && (counts != [] ==> counts[|counts| - 1] >= 1)
    ensures forall v: nat :: v < 256 ==> Count(src, v) == if v < |counts| then counts[v] else 0
    ensures forall s :: 0 <= s < |counts| ==> counts[s] <= max
    ensures src != [] ==> max in counts
  {
    hide Sum, Count;
    var count := new nat[256](_ => 0);
    NoCount();
    SumZeros(count[..], 0, 256);
    NoSum(count[..]);
    for i := 0 to |src|
      invariant Sum(count[..], 256) == i
      invariant forall v: nat :: v < 256 ==> count[v] == Count(src[..i], v)
    {
      CountNext(src, i);
      SumBump(count[..], src[i], 256);
      ghost var was := count[..];
      count[src[i]] := count[src[i]] + 1;
      assert count[..] == was[src[i] := was[src[i]] + 1];
    }
    assert src[..|src|] == src;
    max := 0;
    var symbolLen := 0;
    for i := 0 to 256
      invariant symbolLen <= i && (symbolLen > 0 ==> count[symbolLen - 1] >= 1)
      invariant forall s :: symbolLen <= s < i ==> count[s] == 0
      invariant forall s :: 0 <= s < i ==> count[s] <= max
      invariant (symbolLen == 0 && max == 0) || exists s :: 0 <= s < symbolLen && count[s] == max
      modifies {}
    {
      if count[i] != 0 {
        if count[i] > max { max := count[i]; }
        symbolLen := i + 1;
      }
    }
    counts := count[..symbolLen];
    SumZeros(count[..], symbolLen, 256);
    SumFront(counts, count[..], symbolLen);
    NoSum(counts);
  }

  lemma ManySymbols(counts: seq<nat>, max: nat, size: nat)
    requires |counts| <= 256 && Sum(counts, |counts|) == size <= BLOCK_SIZE_MAX && (counts != [] ==> counts[|counts| - 1] >= 1)
    requires max < size && forall s :: 0 <= s < |counts| ==> counts[s] <= max
    ensures Histogram(counts)
  {
    assert counts != [] ==> Sum(counts, |counts|) == Sum(counts, |counts| - 1) + counts[|counts| - 1];
  }

  // ----- a block and back -----

  /** The weights of all symbols but the last, and the stream of codes. */
  datatype HuffBlock = HuffBlock(weights: seq<nat>, stream: seq<Byte>)

  /** Blocks too long, of one symbol only, of different symbols only, or without frequent ones are not compressed. */
  predicate Compressible(src: seq<nat>, max: nat)
  {
    |src| <= BLOCK_SIZE_MAX && max < |src| && max != 1 && max >= |src| / 128
  }

  /** The weights sent: the longer the code, the smaller. */
  method WriteWeights(table: seq<CTableEntry>, m: nat, ghost lens: seq<nat>) returns (weights: seq<nat>)
    requires Sendable(lens, m) && |table| == |lens| && forall s :: 0 <= s < |lens| ==> table[s].nBits == lens[s]
    ensures SentAs(weights, lens, m)
  {
    hide Complete, Level, Pow2;
    LensBelow(lens, m);
    var bitsToWeight := new nat[TABLE_LOG_MAX + 1](_ => 0);
    for n := 1 to m + 1
      invariant bitsToWeight[0] == 0 && forall k :: 1 <= k < n ==> bitsToWeight[k] == m + 1 - k
    {
      bitsToWeight[n] := m + 1 - n;
    }
    weights := [];
    for n := 0 to |table| - 1
      invariant |weights| == n && forall s :: 0 <= s < n ==> weights[s] == WeightsOf(lens, m)[s]
      modifies {}
    {
      weights := weights + [bitsToWeight[table[n].nBits]];
    }
    assert weights + [WeightsOf(lens, m)[|lens| - 1]] == WeightsOf(lens, m);
  }

  method Compress1XBlock(src: seq<nat>, asked: nat) returns (r: Result<HuffBlock>, max: nat, ghost lens: seq<nat>, ghost m: nat)
    requires (forall i :: 0 <= i < |src| ==> src[i] < 256) && MIN_TABLE_LOG <= asked <= TABLE_LOG_MAX
    ensures r.Ok? <==> Compressible(src, max)
    ensures MostOften(src, max)
    ensures r.Ok? ==> SentAs(r.value.weights, lens, m) && SentStream(r.value.stream, lens, m, src)
  {
    hide Sum, Count, Sendable, Code, Level, SentAs, SentStream;
    lens, m := [], 0;
    var counts;
    counts, max := CountSimple(src);
    if |src| > BLOCK_SIZE_MAX || max >= |src| || max == 1 || max < |src| / 128 {
      r := Err(LimitReached);
      return;
    }
    ManySymbols(counts, max, |src|);
    var nodes := new HuffBuild.NodeElt[HuffSort.NODES_LEN + 1](_ => HuffBuild.NodeElt(0, 0, 0, 0));
    var table, log;
    ghost var limit, tree;
    table, log, lens, limit, tree := BuildCTable(nodes, counts, |src|, asked);
    m := log;
    var weights := WriteWeights(table, log, lens);
    SymbolsHaveCodes(src, counts, lens);
    CodesFit(table, lens, log, src);
    var stream := HuffStream.Compress1X(table, log, src, []);
    StreamSent(stream, table, lens, log, src);
    r := Ok(HuffBlock(weights, stream));
  }

  lemma StreamSent(stream: seq<Byte>, table: seq<CTableEntry>, lens: seq<nat>, m: nat, src: seq<nat>)
    requires CodesOf(table, lens, m) && HuffStream.Writable(table, src)
    requires BitStream.Closed(HuffStream.CodeBits(table, src, 0), stream[0..])
    ensures SentStream(stream, lens, m, src)
  {
    assert stream[0..] == stream;
  }

  /** These are the canonical codes of the lengths. */
  ghost predicate CodesOf(codes: seq<CTableEntry>, lens: seq<nat>, m: nat)
  {
    |codes| == |lens| && Sendable(lens, m) && forall s :: 0 <= s < |lens| ==> codes[s].nBits == lens[s] && (lens[s] >= 1 ==> codes[s].val == Code(lens, m, s))
  }

  /** The closed stream of the text in canonical codes. */
  ghost predicate SentStream(stream: seq<Byte>, lens: seq<nat>, m: nat, src: seq<nat>)
  {
    exists codes: seq<CTableEntry> :: CodesOf(codes, lens, m) && HuffStream.Writable(codes, src)
                                      && BitStream.Closed(HuffStream.CodeBits(codes, src, 0), stream)
  }

  lemma SymbolsHaveCodes(src: seq<nat>, counts: seq<nat>, lens: seq<nat>)
    requires |lens| == |counts| && forall s :: 0 <= s < |counts| ==> (lens[s] >= 1 <==> counts[s] >= 1)
    requires forall i :: 0 <= i < |src| ==> src[i] < 256
    requires forall v: nat :: v < 256 ==> Count(src, v) == if v < |counts| then counts[v] else 0
    ensures forall i :: 0 <= i < |src| ==> src[i] < |lens| && lens[src[i]] >= 1
  {
    forall i | 0 <= i < |src| ensures src[i] < |lens| && lens[src[i]] >= 1 { Occurs(src, i); }
  }

  lemma {:induction false} Occurs(src: seq<nat>, i: nat)
    requires i < |src|
    ensures Count(src, src[i]) >= 1
    decreases |src|
  {
    if i < |src| - 1 { Occurs(src[..|src| - 1], i); }
  }

  lemma CodesFit(table: seq<CTableEntry>, lens: seq<nat>, m: nat, src: seq<nat>)
    requires Sendable(lens, m) && |table| == |lens|
    requires forall s :: 0 <= s < |lens| ==> table[s].nBits == lens[s] && (lens[s] >= 1 ==> table[s].val == Code(lens, m, s))
    requires forall i :: 0 <= i < |src| ==> src[i] < |lens| && lens[src[i]] >= 1
    ensures m <= TABLE_LOG_MAX && HuffStream.CodesOk(table, m) && HuffStream.Writable(table, src) && CodesOf(table, lens, m)
  {
    hide Pow2, RankStart, Level, Code;
    forall s | 0 <= s < |lens| && lens[s] >= 1 ensures table[s].nBits <= m && table[s].val < Pow2(table[s].nBits) {
      CodeIs(lens, m, s);
    }
  }

  method Decompress1XBlock(blk: HuffBlock, maxDecodedSize: nat, ghost lens: seq<nat>, ghost m: nat, ghost src: seq<nat>)
    returns (r: Result<seq<nat>>)
    requires |blk.weights| <= 255
    ensures SentAs(blk.weights, lens, m) && SentStream(blk.stream, lens, m, src) && |src| <= maxDecodedSize ==> r == Ok(src)
    ensures r.Ok? ==> |r.value| <= maxDecodedSize
  {
    hide SentAs, SentStream, Sendable, Shows, Code, Pow2, HuffStream.TableSafe;
    var table, found := ReadTable(blk.weights, lens, m);
    if table.Err? {
      r := Err(table.error);
      return;
    }
    var (dt, log, codes) := table.value;
    TableIsSafe(dt, codes, found, log);
    ghost var sent: seq<CTableEntry>, text: seq<nat> := [], [];
    NothingToWrite();
    if SentAs(blk.weights, lens, m) && SentStream(blk.stream, lens, m, src) {
      sent := StreamCodes(dt, blk.stream, lens, m, src);
      text := src;
    }
    r := HuffStream.Decompress1X(dt, log, blk.stream, maxDecodedSize, sent, text);
  }

  lemma NothingToWrite()
    ensures HuffStream.Writable([], [])
  {
  }

  lemma StreamCodes(dt: seq<DEntry>, stream: seq<Byte>, lens: seq<nat>, m: nat, src: seq<nat>) returns (codes: seq<CTableEntry>)
    requires SentStream(stream, lens, m, src) && Shows(dt, lens, m, |lens|)
    ensures HuffStream.Inverts(dt, codes, m) && HuffStream.Writable(codes, src)
    ensures BitStream.Closed(HuffStream.CodeBits(codes, src, 0), stream)
  {
    hide Shows, Code, Complete, Level, HuffStream.Inverts;
    codes :| CodesOf(codes, lens, m) && HuffStream.Writable(codes, src)
             && BitStream.Closed(HuffStream.CodeBits(codes, src, 0), stream);
    HuffStream.TablesInvert(dt, codes, lens, m);
  }

  /** Whatever the input, a table that has been accepted can be used. */
  lemma TableIsSafe(dt: seq<DEntry>, codes: seq<CTableEntry>, lens: seq<nat>, m: nat)
    requires Sendable(lens, m) && Shows(dt, lens, m, |lens|) && |dt| == Pow2(TABLE_LOG_MAX)
    ensures m <= TABLE_LOG_MAX && HuffStream.TableSafe(dt, m)
  {
    hide Pow2, RankStart, Level;
    forall u | 0 <= u < |dt| && u < Pow2(m) ensures dt[u].nBits <= m {
      var s := Covered(lens, m, u);
      assert ShowsSymbol(dt, lens, m, s);
    }
  }

  /** Whatever can be compressed comes back, and no symbol of it needs more than eleven bits. */
  method RoundTrip(src: seq<nat>, asked: nat, maxDecodedSize: nat) returns (r: Result<seq<nat>>, compressed: bool)
    requires (forall i :: 0 <= i < |src| ==> src[i] < 256) && MIN_TABLE_LOG <= asked <= TABLE_LOG_MAX && |src| <= maxDecodedSize
    ensures compressed ==> r == Ok(src)
    ensures compressed <==> exists max: nat :: Compressible(src, max) && MostOften(src, max)
  {
    hide SentAs, SentStream, Count;
    var blk, max, lens, m := Compress1XBlock(src, asked);
    compressed := blk.Ok?;
    OneMost(src, max);
    if blk.Err? {
      r := Err(blk.error);
      return;
    }
    FewWeights(blk.value.weights, lens, m);
    r := Decompress1XBlock(blk.value, maxDecodedSize, lens, m, src);
  }

  /** How often the most frequent symbol occurs. */
  ghost predicate MostOften(src: seq<nat>, max: nat)
  {
    (forall v: nat :: v < 256 ==> Count(src, v) <= max) && (src != [] ==> exists v: nat :: v < 256 && Count(src, v) == max)
  }

  lemma OneMost(src: seq<nat>, max: nat)
    requires MostOften(src, max)
    ensures forall k: nat :: MostOften(src, k) && src != [] ==> k == max
  {
    hide Count;
    forall k: nat | MostOften(src, k) && src != [] ensures k == max {
      var v: nat, w: nat :| v < 256 && w < 256 && Count(src, v) == max && Count(src, w) == k;
    }
  }

  lemma FewWeights(weights: seq<nat>, lens: seq<nat>, m: nat)
    requires SentAs(weights, lens, m)
    ensures |weights| <= 255
  {
  }
}
