/** A run of the fast match finder past its reset mark, whose block does not execute to what was encoded. */
module FastStale {
  import opened Bits
  import opened Results
  import opened SequenceSpec
  import opened SequenceDecoder
  import opened SequenceExec
  import opened FastMatch
  import opened FastEncoder
  import BitStream
  import OpSpec

  const ZEROS: seq<Byte> := [0, 0, 0, 0, 0, 0, 0, 0, 0, 0]
  const ONES: seq<Byte> := [1, 1, 1, 1, 1, 1, 1, 1, 1, 1]

  lemma HashOfZeros(u: seq<Byte>)
    requires |u| >= 6 && forall i :: 0 <= i < 6 ==> u[i] == 0
    ensures HashLen(u) == 0
  {
    LittleOfSix(u[..6], 0);
  }

  lemma HashOfOnes(u: seq<Byte>)
    requires |u| >= 6 && forall i :: 0 <= i < 6 ==> u[i] == 1
    ensures HashLen(u) == 28551
  {
    LittleOfSix(u[..6], 1);
  }

  lemma LittleOfSix(u: seq<Byte>, b: Byte)
    requires |u| == 6 && forall i :: 0 <= i < 6 ==> u[i] == b
    ensures BitStream.Little(u) == b * 0x1_0101_0101_01
  {
    assert u[1..][1..] == u[2..] && u[2..][1..] == u[3..] && u[3..][1..] == u[4..] && u[4..][1..] == u[5..] && u[5..][1..] == [];
    assert BitStream.Little(u[5..]) == b;
    assert BitStream.Little(u[4..]) == b + 256 * BitStream.Little(u[5..]);
    assert BitStream.Little(u[3..]) == b + 256 * BitStream.Little(u[4..]);
    assert BitStream.Little(u[2..]) == b + 256 * BitStream.Little(u[3..]);
    assert BitStream.Little(u[1..]) == b + 256 * BitStream.Little(u[2..]);
  }

  /** A prefix of ten bytes puts its second position into the table, and no other. */
  lemma PrimedByTen(tab: seq<TableEntry>, cur: int, prefix: seq<Byte>)
    requires |tab| == TABLE_SIZE && |prefix| == 10
    ensures Primed(tab, cur, prefix, 1) == tab[HashLen(prefix[1..9]) := TableEntry(prefix[1..5], cur + 1)]
  {
    hide HashLen;
    var tab' := tab[HashLen(prefix[1..9]) := TableEntry(prefix[1..5], cur + 1)];
    assert Primed(tab', cur, prefix, 5) == tab';
  }

  /** What the wrong block executes to, whatever the recent offsets. */
  lemma WrongBlock(prev: Offsets)
    ensures SeqOk(Seq(0, 1, 12))
    ensures Execute([], ONES, MAX_WINDOW, [], ResolveAll(prev, [Seq(0, 1, 12)]).0, ZEROS[4..]) == Ok(ONES[..4] + ZEROS[4..])
  {
    hide OpSpec.CopyBack, Resolve, SeqOk;
    var q := Seq(0, 1, 12);
    ResolveNew(prev, 0, 1, 9);
    ResolveSnoc(prev, [], q);
    assert [] + [q] == [q] && [] + [SeqVals(0, 9, 4)] == [SeqVals(0, 9, 4)];
    assert ResolveAll(prev, [q]).0 == [SeqVals(0, 9, 4)];
    OnesAgain();
    var lits := ZEROS[4..];
    assert [] + lits[..0] == [] && lits[0..] == lits && [SeqVals(0, 9, 4)][1..] == [];
  }

  lemma OnesAgain()
    ensures CopyMatch([] + ONES, [], 9, 4) == ONES[..4]
  {
    assert [] + ONES + [] == ONES;
    assert ONES + ONES[..4] == ONES + [1] + [1] + [1] + [1];
    assert OpSpec.CopyBack(ONES + [1] + [1] + [1] + [1], 9, 0) == ONES + [1] + [1] + [1] + [1];
    assert OpSpec.CopyBack(ONES + [1] + [1] + [1], 9, 1) == ONES + [1] + [1] + [1] + [1];
    assert OpSpec.CopyBack(ONES + [1] + [1], 9, 2) == ONES + [1] + [1] + [1] + [1];
    assert OpSpec.CopyBack(ONES + [1], 9, 3) == ONES + [1] + [1] + [1] + [1];
    assert OpSpec.CopyBack(ONES, 9, 4) == ONES + [1] + [1] + [1] + [1];
  }

  const STALE: TableEntry := TableEntry([0, 0, 0, 0], 0x4000_0001)

  lemma ZerosPrimed(tab: seq<TableEntry>)
    requires |tab| == TABLE_SIZE
    ensures Primed(tab, 0x4000_0000, ZEROS, 1)[0] == STALE
  {
    hide HashLen, Primed;
    HashOfZeros(ZEROS[1..9]);
    PrimedByTen(tab, 0x4000_0000, ZEROS);
    assert ZEROS[1..5] == [0, 0, 0, 0];
  }

  lemma OnesPrimed(tab: seq<TableEntry>)
    requires |tab| == TABLE_SIZE
    ensures Primed(tab, 0x4000_0000, ONES, 1)[0] == tab[0]
  {
    hide HashLen, Primed;
    HashOfOnes(ONES[1..9]);
    PrimedByTen(tab, 0x4000_0000, ONES);
  }

  lemma StaleIs()
    ensures !EntryOk(STALE, 0x4000_0000, ONES, MAX_WINDOW, 10, 10)
    ensures Protected(STALE, 0x4000_0000, 10, MAX_WINDOW, MAX_INT32 - 2 * MAX_WINDOW) == TableEntry([0, 0, 0, 0], MAX_WINDOW + 1)
    ensures OnlyHit(TableEntry([0, 0, 0, 0], MAX_WINDOW + 1), MAX_WINDOW, ONES + ZEROS, 10, MAX_WINDOW)
  {
    assert ONES[1..5][0] == 1;
    assert (ONES + ZEROS)[10..14] == [0, 0, 0, 0];
  }

  /** The largest window, a stream, and two jobs that continue one but bring no data of their own: the count passes the mark. */
  method TwoPrefixes() returns (e: FastEncoder)
    ensures fresh(e) && fresh(e.table) && e.SizesOk() && !e.Valid()
    ensures e.maxMatchOff == MAX_WINDOW && e.hist == ONES && e.cur == 0x4000_0000 && e.table[0] == STALE
  {
    hide HashLen, Primed, TableGood;
    e := new FastEncoder(MAX_WINDOW, false);
    e.Reset();
    ZerosPrimed(e.table[..]);
    e.ResetPrefix(ZEROS);
    OnesPrimed(e.table[..]);
    e.ResetPrefix(ONES);
    StaleIs();
  }

  /** A block of zeros behind them: the entry of the older job is taken for a match, and the block executes to something else. */
  method StaleRun() returns (e: FastEncoder, blk: Block)
    ensures e.hist == ONES + ZEROS && e.maxMatchOff == MAX_WINDOW
    ensures blk.sequences == [Seq(0, 1, 12)] && SeqOk(Seq(0, 1, 12))
    ensures forall prev :: Execute([], ONES, MAX_WINDOW, [], ResolveAll(prev, [Seq(0, 1, 12)]).0, blk.literals) == Ok(ONES[..4] + ZEROS[4..])
    ensures ONES[..4] + ZEROS[4..] != ZEROS
  {
    hide HashLen, Execute, SeqOk, ResolveAll, OnlyHit, Protected;
    assert (ONES[..4] + ZEROS[4..])[0] == 1;
    e := TwoPrefixes();
    StaleIs();
    HashOfZeros(ZEROS[..8]);
    assert e.table[..][0] == STALE;
    var astray, recent;
    ghost var start;
    astray, blk, start, recent := e.Encode(ZEROS, Offsets(1, 4, 8));
    assert e.hist == e.hist[..start] + e.hist[start..];
    assert ONES[10 - start..] == ONES;
    forall prev
      ensures SeqOk(Seq(0, 1, 12)) && Execute([], ONES, MAX_WINDOW, [], ResolveAll(prev, [Seq(0, 1, 12)]).0, ZEROS[4..]) == Ok(ONES[..4] + ZEROS[4..])
    {
      WrongBlock(prev);
    }
    WrongBlock(recent);
  }
}
