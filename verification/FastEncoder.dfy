/** The fast match finder: a hash table of positions, repeat distances, and a sliding history. */
module FastEncoder {
  import opened Bits
  import opened Results
  import opened LzmaBuffer
  import opened SequenceSpec
  import opened SequenceDecoder
  import opened SequenceExec
  import opened SequenceSync
  import opened FastMatch
  import BitStream

  const TABLE_SIZE: nat := 0x8000
  const MAX_MATCH_LENGTH: nat := 131074
  const INPUT_MARGIN: nat := 8
  const MAX_INT32: int := 0x7fff_ffff
  const MAX_WINDOW: nat := 0x2000_0000

  /** A position, counted from before the history, and the four bytes there, which stand for their little-endian number. */
  datatype TableEntry = TableEntry(val: seq<Byte>, offset: int)

  /** The top 15 bits of a product of the lowest six bytes. */
  function HashLen(u: seq<Byte>): (h: nat)
    requires |u| >= 6
    ensures h < TABLE_SIZE
  {
    BitStream.Little(u[..6]) * 0x1_0000 * 227718039650203 % 0x1_0000_0000_0000_0000 / 0x2_0000_0000_0000
  }

  const ZERO_ENTRY: TableEntry := TableEntry([0, 0, 0, 0], 0)

  // ----- the table as a value -----

  /**
   An entry is good for a search at s in a block that begins at start: it names a position before s and holds the bytes
   there, or it is too far away to be used.
   */
  predicate EntryOk(e: TableEntry, cur: int, hist: seq<Byte>, maxMatchOff: nat, start: int, s: int)
  {
    var t := e.offset - cur;
    (0 <= t < s && t + 4 <= |hist| && e.val == hist[t..t + 4]) || t <= start - maxMatchOff
  }

  predicate TableGood(tab: seq<TableEntry>, cur: int, hist: seq<Byte>, maxMatchOff: nat)
  {
    forall i :: 0 <= i < |tab| ==> EntryOk(tab[i], cur, hist, maxMatchOff, |hist|, |hist|)
  }

  /** Where the count of positions goes on after a reset: out of reach of all entries, unless it is past the mark. */
  function NextCur(cur: int, histLen: nat, maxMatchOff: nat, bufferReset: int): int
  {
    if cur < bufferReset then cur + maxMatchOff + histLen else cur
  }

  /** Every fourth position of a prefix put into the table. */
  function Primed(tab: seq<TableEntry>, cur: int, prefix: seq<Byte>, i: nat): (tab': seq<TableEntry>)
    requires |tab| == TABLE_SIZE
    ensures |tab'| == TABLE_SIZE
    decreases |prefix| - i
  {
    if i + 8 >= |prefix| then tab
    else Primed(tab[HashLen(prefix[i..i + 8]) := TableEntry(prefix[i..i + 4], cur + i)], cur, prefix, i + 4)
  }

  /** An entry and the count of positions after the protection against 32-bit overflow. */
  function Protected(e: TableEntry, cur: int, histLen: nat, maxMatchOff: nat, bufferReset: int): TableEntry
  {
    if cur < bufferReset - histLen then e
    else if histLen == 0 then ZERO_ENTRY
    else e.(offset := if e.offset < cur + histLen - maxMatchOff then 0 else e.offset - cur + maxMatchOff)
  }

  function ProtectedCur(cur: int, histLen: nat, maxMatchOff: nat, bufferReset: int): int
  {
    if cur < bufferReset - histLen then cur else maxMatchOff
  }

  /** An entry that a search at s takes, good or not. */
  predicate Hit(e: TableEntry, cur: int, hist: seq<Byte>, s: nat, maxMatchOff: nat)
    requires s + 4 <= |hist|
  {
    0 <= e.offset - cur < s && s - (e.offset - cur) < maxMatchOff && e.val == hist[s..s + 4]
  }

  /** It is a match of just four bytes, and nothing comes behind it but the margin. */
  predicate OnlyHit(e: TableEntry, cur: int, hist: seq<Byte>, s: nat, maxMatchOff: nat)
  {
    s + INPUT_MARGIN < |hist| <= s + 4 + INPUT_MARGIN && Hit(e, cur, hist, s, maxMatchOff) && hist[s + 4] != hist[e.offset - cur + 4]
  }

  lemma {:induction false} PrimedGood(tab: seq<TableEntry>, cur: int, prefix: seq<Byte>, maxMatchOff: nat, i: nat)
    requires |tab| == TABLE_SIZE && TableGood(tab, cur, prefix, maxMatchOff)
    ensures TableGood(Primed(tab, cur, prefix, i), cur, prefix, maxMatchOff)
    decreases |prefix| - i
  {
    hide HashLen;
    if i + 8 < |prefix| {
      PrimedGood(tab[HashLen(prefix[i..i + 8]) := TableEntry(prefix[i..i + 4], cur + i)], cur, prefix, maxMatchOff, i + 4);
    }
  }

  /** All entries are from before the end of the history. */
  predicate TableBehind(tab: seq<TableEntry>, cur: int, histLen: nat)
  {
    forall i :: 0 <= i < |tab| ==> tab[i].offset <= cur + histLen
  }

  lemma BumpedGood(tab: seq<TableEntry>, cur: int, histLen: nat, prefix: seq<Byte>, maxMatchOff: nat)
    requires TableBehind(tab, cur, histLen)
    ensures TableGood(tab, cur + maxMatchOff + histLen, prefix, maxMatchOff)
  {
  }

  /**
   Whether a job that continues a stream starts with a good table, whatever valid table it finds and whatever its prefix:
   exactly when the count of positions has not passed the mark.
   */
  lemma PrefixGuard(cur: int, maxMatchOff: nat, bufferReset: int)
    requires maxMatchOff >= 1024
    ensures cur < bufferReset <==>
            forall tab: seq<TableEntry>, hist: seq<Byte>, prefix: seq<Byte> ::
              |tab| == TABLE_SIZE && TableGood(tab, cur, hist, maxMatchOff) ==>
              PrefixGood(tab, cur, hist, prefix, maxMatchOff, bufferReset)
  {
    hide HashLen, Primed, TableGood;
    if cur < bufferReset {
      forall tab: seq<TableEntry>, hist: seq<Byte>, prefix: seq<Byte> | |tab| == TABLE_SIZE && TableGood(tab, cur, hist, maxMatchOff)
        ensures PrefixGood(tab, cur, hist, prefix, maxMatchOff, bufferReset)
      {
        GoodBehind(tab, cur, hist, maxMatchOff);
        BumpedGood(tab, cur, |hist|, prefix, maxMatchOff);
        PrimedGood(tab, cur + maxMatchOff + |hist|, prefix, maxMatchOff, 1);
      }
    } else {
      var tab, hist, prefix := StaleTable(cur, maxMatchOff, bufferReset);
      assert !PrefixGood(tab, cur, hist, prefix, maxMatchOff, bufferReset);
    }
  }

  ghost predicate PrefixGood(tab: seq<TableEntry>, cur: int, hist: seq<Byte>, prefix: seq<Byte>, maxMatchOff: nat, bufferReset: int)
    requires |tab| == TABLE_SIZE
  {
    var cur' := NextCur(cur, |hist|, maxMatchOff, bufferReset);
    TableGood(Primed(tab, cur', prefix, 1), cur', prefix, maxMatchOff)
  }

  lemma GoodBehind(tab: seq<TableEntry>, cur: int, hist: seq<Byte>, maxMatchOff: nat)
    requires TableGood(tab, cur, hist, maxMatchOff)
    ensures TableBehind(tab, cur, |hist|)
  {
  }

  /** Past the mark, a prefix of ones behind a history of zeros. */
  lemma StaleTable(cur: int, maxMatchOff: nat, bufferReset: int) returns (tab: seq<TableEntry>, hist: seq<Byte>, prefix: seq<Byte>)
    requires maxMatchOff >= 1024 && cur >= bufferReset
    ensures |tab| == TABLE_SIZE && TableGood(tab, cur, hist, maxMatchOff)
    ensures !PrefixGood(tab, cur, hist, prefix, maxMatchOff, bufferReset)
  {
    hide HashLen, EntryOk, TableGood, Uniform, Primed;
    hist, prefix := [0, 0, 0, 0], [1, 1, 1, 1];
    tab := Uniform(TableEntry(hist, cur));
    OneStale(cur, maxMatchOff, hist, prefix);
    UniformGood(TableEntry(hist, cur), cur, hist, maxMatchOff);
    UniformGood(TableEntry(hist, cur), cur, prefix, maxMatchOff);
    NotPrimed(tab, cur, prefix);
  }

  function Uniform(e: TableEntry): (tab: seq<TableEntry>)
    ensures |tab| == TABLE_SIZE && forall i :: 0 <= i < TABLE_SIZE ==> tab[i] == e
  {
    seq(TABLE_SIZE, _ => e)
  }

  lemma UniformGood(e: TableEntry, cur: int, hist: seq<Byte>, maxMatchOff: nat)
    ensures TableGood(Uniform(e), cur, hist, maxMatchOff) <==> EntryOk(e, cur, hist, maxMatchOff, |hist|, |hist|)
  {
    hide EntryOk;
    assert Uniform(e)[0] == e;
  }

  lemma NotPrimed(tab: seq<TableEntry>, cur: int, prefix: seq<Byte>)
    requires |tab| == TABLE_SIZE && |prefix| < 8
    ensures Primed(tab, cur, prefix, 1) == tab
  {
  }

  lemma OneStale(cur: int, maxMatchOff: nat, older: seq<Byte>, prefix: seq<Byte>)
    requires maxMatchOff >= 1024 && |older| == |prefix| == 4 && older != prefix
    ensures EntryOk(TableEntry(older, cur), cur, older, maxMatchOff, |older|, |older|)
    ensures !EntryOk(TableEntry(older, cur), cur, prefix, maxMatchOff, |prefix|, |prefix|)
  {
    assert older[0..4] == older && prefix[0..4] == prefix;
  }

  class FastEncoder {
    const maxMatchOff: nat
    const bufferReset: int
    const lowMem: bool
    var table: array<TableEntry>
    /** The offset at the start of the history. */
    var cur: int
    var hist: seq<Byte>
    var histCap: nat

    ghost predicate EntriesOk(start: int, s: int)
      reads this, table
    {
      forall i :: 0 <= i < table.Length ==> EntryOk(table[i], cur, hist, maxMatchOff, start, s)
    }

    ghost predicate SizesOk()
      reads this, table
    {
      && table.Length == TABLE_SIZE
      && 1024 <= maxMatchOff <= MAX_WINDOW && bufferReset == MAX_INT32 - 2 * maxMatchOff
      && |hist| <= histCap && (histCap == 0 || maxMatchOff + MAX_BLOCK_SIZE <= histCap <= MostHist())
    }

    /** The most that is ever kept as history. */
    ghost function MostHist(): nat
    {
      var l: nat := if lowMem || maxMatchOff <= MAX_BLOCK_SIZE then maxMatchOff + MAX_BLOCK_SIZE else 2 * maxMatchOff;
      if l < 0x10_0000 && !lowMem then 0x10_0000 else l
    }

    /** Between blocks. */
    ghost predicate Valid()
      reads this, table
    {
      SizesOk() && EntriesOk(|hist|, |hist|)
    }

    /** What a block may start from: after a reset late in the count the table is stale, but about to be cleared. */
    ghost predicate Ready()
      reads this, table
    {
      SizesOk() && (EntriesOk(|hist|, |hist|) || (hist == [] && cur >= bufferReset))
    }

    ghost predicate Behind()
      reads this, table
    {
      TableBehind(table[..], cur, |hist|)
    }

    /** Before its first reset an encoder must not be used. */
    constructor (windowSize: nat, low: bool)
      requires 1024 <= windowSize <= MAX_WINDOW
      ensures SizesOk() && Behind() && fresh(table) && maxMatchOff == windowSize && lowMem == low && hist == [] && cur == 0
      ensures table[..] == seq(TABLE_SIZE, _ => ZERO_ENTRY)
    {
      maxMatchOff, bufferReset, lowMem := windowSize, MAX_INT32 - 2 * windowSize, low;
      table := new TableEntry[TABLE_SIZE](_ => ZERO_ENTRY);
      cur, hist, histCap := 0, [], 0;
    }

    /** Starts a new stream: everything in the table moves out of reach, or is left to be cleared. */
    method Reset()
      requires SizesOk()
      modifies this`cur, this`hist
      ensures SizesOk() && hist == [] && cur == NextCur(old(cur), |old(hist)|, maxMatchOff, bufferReset)
      ensures old(cur) < bufferReset && old(Behind()) ==> Valid()
      ensures old(cur) >= bufferReset ==> Ready()
    {
      if cur < bufferReset {
        if Behind() { BumpedGood(table[..], cur, |hist|, [], maxMatchOff); }
        cur := cur + maxMatchOff + |hist|;
      }
      hist := [];
    }

    /** Clears or shifts the table before positions get too large for 32 bits. */
    method Protect()
      requires SizesOk()
      modifies this`cur, table
      ensures SizesOk() && cur == ProtectedCur(old(cur), |hist|, maxMatchOff, bufferReset)
      ensures forall i :: 0 <= i < table.Length ==> table[i] == Protected(old(table[i]), old(cur), |hist|, maxMatchOff, bufferReset)
      ensures cur + |hist| < bufferReset || cur == maxMatchOff
      ensures old(Ready()) ==> Valid()
    {
      ghost var was, good := cur, Ready();
      ghost var tab := table[..];
      if cur >= bufferReset - |hist| {
        if |hist| == 0 {
          for i := 0 to table.Length
            invariant forall k :: 0 <= k < i ==> table[k] == ZERO_ENTRY
            modifies table
          {
            table[i] := ZERO_ENTRY;
          }
          cur := maxMatchOff;
          assert forall i :: 0 <= i < table.Length ==> EntryOk(table[i], cur, hist, maxMatchOff, 0, 0);
          return;
        }
        var minOff := cur + |hist| - maxMatchOff;
        for i := 0 to table.Length
          invariant forall k :: 0 <= k < i ==> table[k] == Protected(old(table[k]), cur, |hist|, maxMatchOff, bufferReset)
          invariant forall k :: i <= k < table.Length ==> table[k] == old(table[k])
          modifies table
        {
          var v := table[i].offset;
          if v < minOff {
            v := 0;
          } else {
            v := v - cur + maxMatchOff;
          }
          table[i] := table[i].(offset := v);
        }
        cur := maxMatchOff;
        if good {
          forall i | 0 <= i < table.Length ensures EntryOk(table[i], cur, hist, maxMatchOff, |hist|, |hist|) {
            ProtectedOk(tab[i], was, hist, maxMatchOff, bufferReset);
          }
        }
      }
    }

    static lemma ProtectedOk(e: TableEntry, cur: int, hist: seq<Byte>, maxMatchOff: nat, bufferReset: int)
      requires EntryOk(e, cur, hist, maxMatchOff, |hist|, |hist|) && hist != [] && cur >= bufferReset - |hist|
      ensures EntryOk(Protected(e, cur, |hist|, maxMatchOff, bufferReset), maxMatchOff, hist, maxMatchOff, |hist|, |hist|)
    {
    }

    /** Appends the block to the history, whose oldest part goes when there is no room. */
    method AddBlock(src: seq<Byte>) returns (s: nat)
      requires SizesOk() && 1 <= |src| <= MAX_BLOCK_SIZE
      modifies this`cur, this`hist, this`histCap
      ensures SizesOk() && cur + s == old(cur) + |old(hist)| && s <= |hist|
      ensures s <= |old(hist)| && (s < |old(hist)| ==> s == maxMatchOff) && hist == old(hist)[|old(hist)| - s..] + src
      ensures old(EntriesOk(|hist|, |hist|)) ==> EntriesOk(s, s)
    {
      if |hist| + |src| > histCap {
        if histCap == 0 {
          EnsureHist(|src|);
        } else {
          MoveDown();
        }
      }
      s := |hist|;
      if EntriesOk(|hist|, |hist|) { Appended(hist, src); }
      hist := hist + src;
    }

    /** Keeps the last maxMatchOff bytes. */
    method MoveDown()
      requires SizesOk() && maxMatchOff < |hist|
      modifies this`cur, this`hist
      ensures SizesOk() && |hist| == maxMatchOff && hist == old(hist)[|old(hist)| - maxMatchOff..]
      ensures cur + |hist| == old(cur) + |old(hist)|
      ensures old(EntriesOk(|hist|, |hist|)) ==> EntriesOk(|hist|, |hist|)
    {
      var offset := |hist| - maxMatchOff;
      if EntriesOk(|hist|, |hist|) { Moved(offset); }
      cur := cur + offset;
      hist := hist[offset..];
    }

    method EnsureHist(n: nat)
      requires SizesOk() && n <= maxMatchOff + MAX_BLOCK_SIZE
      modifies this`histCap
      ensures SizesOk() && histCap >= n
    {
      if histCap >= n {
        return;
      }
      var l: nat := maxMatchOff;
      if (lowMem && maxMatchOff > MAX_BLOCK_SIZE) || maxMatchOff <= MAX_BLOCK_SIZE {
        l := l + MAX_BLOCK_SIZE;
      } else {
        l := l + maxMatchOff;
      }
      if l < 0x10_0000 && !lowMem {
        l := 0x10_0000;
      }
      if l < n {
        l := n;
      }
      histCap := l;
    }

    /** Dropping the oldest part of the history moves its positions out of reach. */
    lemma Moved(offset: nat)
      requires SizesOk() && EntriesOk(|hist|, |hist|) && offset == |hist| - maxMatchOff
      ensures forall i :: 0 <= i < table.Length ==> EntryOk(table[i], cur + offset, hist[offset..], maxMatchOff, |hist| - offset, |hist| - offset)
    {
      forall i | 0 <= i < table.Length
        ensures EntryOk(table[i], cur + offset, hist[offset..], maxMatchOff, |hist| - offset, |hist| - offset)
      {
        EntryMoves(table[i], cur, hist, maxMatchOff, offset);
      }
    }

    static lemma EntryMoves(e: TableEntry, cur: int, hist: seq<Byte>, maxMatchOff: nat, offset: nat)
      requires EntryOk(e, cur, hist, maxMatchOff, |hist|, |hist|) && offset == |hist| - maxMatchOff
      ensures EntryOk(e, cur + offset, hist[offset..], maxMatchOff, maxMatchOff, maxMatchOff)
    {
      var t := e.offset - cur;
      if t > offset {
        assert 0 <= t < |hist| && t + 4 <= |hist| && e.val == hist[t..t + 4];
        assert hist[offset..][t - offset..t - offset + 4] == hist[t..t + 4];
      }
    }

    /** More history behind changes nothing. */
    lemma Appended(h: seq<Byte>, src: seq<Byte>)
      requires forall i :: 0 <= i < table.Length ==> EntryOk(table[i], cur, h, maxMatchOff, |h|, |h|)
      ensures forall i :: 0 <= i < table.Length ==> EntryOk(table[i], cur, h + src, maxMatchOff, |h|, |h|)
    {
      forall i | 0 <= i < table.Length
        ensures EntryOk(table[i], cur, h + src, maxMatchOff, |h|, |h|)
      {
        var t := table[i].offset - cur;
        if 0 <= t && t + 4 <= |h| { assert (h + src)[t..t + 4] == h[t..t + 4]; }
      }
    }

    /**
     Starts a job that continues a stream: its history is the end of the job before. When the count of positions is past
     the mark it is left alone, and so the entries of the job before stay within reach although the history is another one.
     */
    method ResetPrefix(prefix: seq<Byte>)
      requires SizesOk() && |prefix| <= maxMatchOff
      modifies this, table
      ensures SizesOk() && hist == prefix && table == old(table)
      ensures cur == NextCur(old(cur), |old(hist)|, maxMatchOff, bufferReset)
      ensures table[..] == Primed(old(table[..]), cur, prefix, 1)
      ensures old(cur) < bufferReset && old(Behind()) ==> Valid()
    {
      hide HashLen;
      EnsureHist(|prefix| + MAX_BLOCK_SIZE);
      ghost var tab := table[..];
      ghost var bumped := cur < bufferReset && Behind();
      if bumped { BumpedGood(tab, cur, |hist|, prefix, maxMatchOff); }
      if cur < bufferReset {
        cur := cur + maxMatchOff + |hist|;
      }
      hist := prefix;
      if bumped { PrimedGood(tab, cur, prefix, maxMatchOff, 1); }
      if |prefix| < 8 {
        return;
      }
      var i := 1;
      while i < |prefix| - 8
        invariant 1 <= i && SizesOk() && table == old(table) && hist == prefix && cur == NextCur(old(cur), |old(hist)|, maxMatchOff, bufferReset)
        invariant Primed(table[..], cur, prefix, i) == Primed(tab, cur, prefix, 1)
      {
        var cv := prefix[i..i + 8];
        ghost var was := table[..];
        assert cv[..4] == prefix[i..i + 4];
        table[HashLen(cv)] := TableEntry(cv[..4], cur + i);
        assert table[..] == was[HashLen(cv) := TableEntry(cv[..4], cur + i)];
        i := i + 4;
      }
    }

    // ----- a block -----

    /** The sequences can be coded, and the two offsets, once they come from the block, reach back into the history. */
    ghost predicate InBlock(blk: Block, start: nat, upTo: nat, offset1: int, offset2: int)
      reads this, blk
    {
      && start <= upTo <= |hist|
      && (forall k :: 0 <= k < |blk.sequences| ==> SeqOk(blk.sequences[k]))
      && (|blk.sequences| >= 1 ==> 1 <= offset1 <= upTo && offset1 <= maxMatchOff)
      && (|blk.sequences| >= 2 ==> 1 <= offset2 <= upTo && offset2 <= maxMatchOff)
    }

    /** Besides, if the table was good, what has been put into the block says the history up to `upTo`. */
    ghost predicate Told(blk: Block, start: nat, upTo: nat, offset1: int, offset2: int, good: bool)
      reads this, blk
    {
      InBlock(blk, start, upTo, offset1, offset2)
      && (good ==> Says(hist, start, upTo, maxMatchOff, blk.sequences, blk.xs, blk.literals, offset1, offset2))
    }

    /** The number of equal bytes from two positions on, the second before the first. */
    method CommonLen(s: nat, t: nat) returns (n: nat)
      requires t < s <= |hist|
      ensures s + n <= |hist| && (s + n < |hist| ==> hist[s + n] != hist[t + n])
      ensures forall i :: s <= i < s + n ==> hist[i] == hist[i - (s - t)]
    {
      n := MatchLen(hist[s..], hist[t..]);
      forall i | s <= i < s + n
        ensures hist[i] == hist[i - (s - t)]
      {
        assert hist[s..][..n][i - s] == hist[t..][..n][i - s];
      }
    }

    /** Four bytes, taken to be equal, and what follows them. */
    method Extend(s: nat, t: nat) returns (l: nat)
      requires t < s && s + 4 <= |hist|
      ensures 4 <= l && s + l <= |hist| && (s + 4 < |hist| && hist[s + 4] != hist[t + 4] ==> l == 4)
      ensures hist[s..s + 4] == hist[t..t + 4] ==> Repeats(hist, s, s - t, l)
    {
      var n := CommonLen(s + 4, t + 4);
      l := n + 4;
      if hist[s..s + 4] == hist[t..t + 4] {
        forall i | s <= i < s + l
          ensures hist[i] == hist[i - (s - t)]
        {
          if i < s + 4 {
            assert hist[s..s + 4][i - s] == hist[t..t + 4][i - s];
          }
        }
      }
    }

    /** Backwards from a match, as long as bytes agree: at most to `low`, and not below `limit`. */
    method ExtendBack(s0: nat, t0: nat, l0: nat, low: nat, limit: nat, most: nat) returns (s: nat, l: nat)
      requires t0 < s0 && limit <= s0 && s0 + l0 <= |hist|
      ensures limit <= s <= s0 && l == l0 + (s0 - s) && s0 - t0 <= s
      ensures Repeats(hist, s0, s0 - t0, l0) ==> Repeats(hist, s, s0 - t0, l)
      ensures l0 <= most ==> l <= most
    {
      s, l := s0, l0;
      var t := t0;
      while t > low && s > limit && hist[t - 1] == hist[s - 1] && l < most
        invariant 0 <= t < s && s - t == s0 - t0 && limit <= s <= s0 && l == l0 + (s0 - s)
        invariant Repeats(hist, s0, s0 - t0, l0) ==> Repeats(hist, s, s0 - t0, l)
        invariant l0 <= most ==> l <= most
      {
        s, t, l := s - 1, t - 1, l + 1;
      }
    }

    /** Puts an entry for a position into its slot. */
    method Put(u: seq<Byte>, s: nat, at: nat, ghost start: nat)
      requires SizesOk() && at <= s && at + 6 <= |hist| && u == hist[at..at + 6]
      modifies table
      ensures SizesOk() && (old(EntriesOk(start, s)) ==> EntriesOk(start, s + 1))
    {
      assert u[..4] == hist[at..at + 4];
      table[HashLen(u)] := TableEntry(u[..4], at + cur);
    }

    lemma Later(start: nat, s: nat, s': nat)
      requires EntriesOk(start, s) && s <= s'
      ensures EntriesOk(start, s')
    {
    }

    lemma BlockEnds(start: nat)
      requires SizesOk() && EntriesOk(start, |hist|) && start <= |hist|
      ensures Valid()
    {
    }

    /** One more sequence keeps the block codable. */
    lemma OneMore(qs: seq<Seq>, q: Seq)
      requires SeqOk(q) && forall k :: 0 <= k < |qs| ==> SeqOk(qs[k])
      ensures forall k :: 0 <= k < |qs + [q]| ==> SeqOk((qs + [q])[k])
    {
    }

    /** The sequence at the most recent distance, two bytes ahead of the search, grown backwards but leaving a literal. */
    method Repeat(blk: Block, start: nat, s: nat, nextEmit: nat, offset1: nat, ghost offset2: int, ghost good: bool) returns (s': nat)
      requires SizesOk() && start <= nextEmit <= s && s + INPUT_MARGIN < |hist| <= start + MAX_BLOCK_SIZE
      requires Told(blk, start, nextEmit, offset1, offset2, good) && |blk.sequences| >= 2
      requires offset1 <= s + 2 && hist[s + 2 - offset1..s + 6 - offset1] == hist[s + 2..s + 6]
      modifies blk
      ensures s + 6 <= s' <= |hist| && Told(blk, start, s', offset1, offset2, good) && |blk.sequences| == |old(blk.sequences)| + 1
      ensures old(blk.sequences) <= blk.sequences
    {
      hide Says, Repeats, SeqOk;
      var repIndex := s + 2 - offset1;
      var length := Extend(s + 2, repIndex);
      RepeatsFacts(hist, s + 2, offset1, length);
      var sMin: nat := if s >= maxMatchOff then s - maxMatchOff else 0;
      var head, l := ExtendBack(s + 2, repIndex, length, sMin, nextEmit + 1, MAX_MATCH_LENGTH);
      RepeatsFacts(hist, head, offset1, l);
      if good {
        SaysRepeat(hist, start, nextEmit, head, maxMatchOff, blk.sequences, blk.xs, blk.literals, offset1, offset2, l);
      }
      Codes(head - nextEmit, l - 3, 1);
      OneMore(blk.sequences, Seq(head - nextEmit, l - 3, 1));
      blk.literals := blk.literals + hist[nextEmit..head];
      blk.sequences := blk.sequences + [Seq(head - nextEmit, l - 3, 1)];
      blk.xs := blk.xs + [SeqVals(head - nextEmit, offset1, l)];
      s' := s + 2 + length;
    }

    static lemma Codes(ll: nat, ml: nat, offset: nat)
      requires ll < MAX_BLOCK_SIZE && ml < MAX_BLOCK_SIZE && 1 <= offset <= MAX_WINDOW + 3
      ensures SeqOk(Seq(ll, ml, offset))
    {
    }

    /** What a candidate within reach says about its position. */
    lemma Usable(e: TableEntry, start: nat, s: nat)
      requires EntryOk(e, cur, hist, maxMatchOff, start, s) && s - (e.offset - cur) < maxMatchOff && start <= s
      ensures 0 <= e.offset - cur < s && e.offset - cur + 4 <= |hist| && e.val == hist[e.offset - cur..e.offset - cur + 4]
    {
    }

    /** The first entry looked at is within reach and has the bytes looked for. */
    ghost predicate FirstHit(s: nat)
      requires s + 8 <= |hist|
      reads this, table
    {
      table.Length == TABLE_SIZE && Hit(table[HashLen(hist[s..s + 8])], cur, hist, s, maxMatchOff)
    }

    ghost function HitAt(s: nat): int
      requires s + 8 <= |hist| && table.Length == TABLE_SIZE
      reads this, table
    {
      table[HashLen(hist[s..s + 8])].offset - cur
    }

    /** The entries in the slots of s and the position behind it, which take their places. */
    method Enter(s: nat, ghost start: nat) returns (cv: seq<Byte>, candidate: TableEntry, candidate2: TableEntry)
      requires SizesOk() && s + INPUT_MARGIN < |hist|
      modifies table
      ensures SizesOk() && cv == hist[s..s + 8] && cv[..4] == hist[s..s + 4] && cv[1..5] == hist[s + 1..s + 5] && cv[2..6] == hist[s + 2..s + 6]
      ensures candidate == old(table[HashLen(hist[s..s + 8])])
      ensures old(EntriesOk(start, s)) ==> EntriesOk(start, s + 2)
      ensures old(EntriesOk(start, s)) ==> EntryOk(candidate, cur, hist, maxMatchOff, start, s) && EntryOk(candidate2, cur, hist, maxMatchOff, start, s)
    {
      hide EntryOk, HashLen;
      cv := hist[s..s + 8];
      candidate, candidate2 := table[HashLen(cv)], table[HashLen(cv[1..])];
      Parts(s);
      HashOfSix(cv);
      HashOfSix(cv[1..]);
      Put(cv[..6], s, s, start);
      Put(cv[1..][..6], s + 1, s + 1, start);
    }

    /**
     Looks for a match at s: at the most recent distance, which is put into the block at once, or in the table. An entry of
     a table that is not good may name a position that is not before s: that is `Astray`.
     */
    method Look(blk: Block, start: nat, s: nat, nextEmit: nat, offset1: int, ghost offset2: int, canRepeat: bool, ghost good: bool)
      returns (found: Found, s': nat, t: nat, nextEmit': nat)
      requires SizesOk() && (good ==> EntriesOk(start, s)) && start <= nextEmit <= s && s + INPUT_MARGIN < |hist| <= start + MAX_BLOCK_SIZE
      requires Told(blk, start, nextEmit, offset1, offset2, good) && (canRepeat ==> |blk.sequences| > 2)
      modifies blk, table
      ensures SizesOk() && start <= nextEmit' && Told(blk, start, nextEmit', offset1, offset2, good) && old(blk.sequences) <= blk.sequences
      ensures found == Match ==> s <= s' && nextEmit' <= s' && s' + INPUT_MARGIN <= |hist| && t < s' && s' - t < maxMatchOff
      ensures s <= s' && (found == On ==> s < s')
      ensures found == On ==> nextEmit' <= s' && (good ==> EntriesOk(start, s'))
      ensures good ==> found != Astray && EntriesOk(start, |hist|)
      ensures good && found == Match ==> hist[s'..s' + 4] == hist[t..t + 4] && EntriesOk(start, s' + 2)
      ensures !canRepeat && old(FirstHit(s)) ==> found == Match && s' == s && t == old(HitAt(s)) && nextEmit' == nextEmit
      ensures !canRepeat ==> blk.sequences == old(blk.sequences) && blk.literals == old(blk.literals)
    {
      hide Says, EntryOk, HashLen, SeqOk;
      s', t, nextEmit' := s, 0, nextEmit;
      var cv, candidate, candidate2 := Enter(s, start);
      var repIndex := s - offset1 + 2;
      if good { Later(start, s + 2, |hist|); }
      if canRepeat && repIndex >= 0 && hist[repIndex..repIndex + 4] == cv[2..6] {
        s' := Repeat(blk, start, s, nextEmit, offset1, offset2, good);
        if good { Later(start, s + 2, s'); }
        return On, s', t, s';
      }
      found, s', t := Compare(start, s, cv, candidate, candidate2, good);
      if found == On {
        s' := s + 2 + (s - nextEmit) / 32;
        if good { Later(start, s + 2, s'); }
      } else if good && found == Match {
        Later(start, s + 2, s' + 2);
      }
    }

    /** Compares the bytes at s and behind it with what the entries say. */
    method Compare(ghost start: nat, s: nat, cv: seq<Byte>, candidate: TableEntry, candidate2: TableEntry, ghost good: bool)
      returns (found: Found, s': nat, t: nat)
      requires start <= s && s + INPUT_MARGIN < |hist| && |cv| == 8 && cv[..4] == hist[s..s + 4] && cv[1..5] == hist[s + 1..s + 5]
      requires good ==> EntryOk(candidate, cur, hist, maxMatchOff, start, s) && EntryOk(candidate2, cur, hist, maxMatchOff, start, s)
      ensures s <= s' && (found == On ==> s' == s) && (good ==> found != Astray)
      ensures found == Match ==> s' <= s + 1 && t < s' && s' - t < maxMatchOff && (good ==> hist[s'..s' + 4] == hist[t..t + 4])
      ensures Hit(candidate, cur, hist, s, maxMatchOff) ==> found == Match && s' == s && t == candidate.offset - cur
    {
      hide EntryOk;
      s', t := s, 0;
      var coffset0 := s - (candidate.offset - cur);
      var coffset1 := s - (candidate2.offset - cur) + 1;
      if coffset0 < maxMatchOff && cv[..4] == candidate.val {
        if good { Usable(candidate, start, s); }
        if !(0 <= candidate.offset - cur < s) {
          return Astray, s, t;
        }
        return Match, s, candidate.offset - cur;
      }
      if coffset1 < maxMatchOff && cv[1..5] == candidate2.val {
        if good { Usable(candidate2, start, s); }
        if !(0 <= candidate2.offset - cur < s + 1) {
          return Astray, s, t;
        }
        return Match, s + 1, candidate2.offset - cur;
      }
      found := On;
    }

    /** Searches for the next four-byte match. Positions are skipped faster the longer nothing is found. */
    method Search(blk: Block, start: nat, s0: nat, nextEmit0: nat, offset1: int, ghost offset2: int, canRepeat: bool, ghost good: bool)
      returns (found: Found, s: nat, t: nat, nextEmit: nat)
      requires SizesOk() && (good ==> EntriesOk(start, s0)) && start <= nextEmit0 <= s0 && s0 + INPUT_MARGIN < |hist| <= start + MAX_BLOCK_SIZE
      requires Told(blk, start, nextEmit0, offset1, offset2, good) && (canRepeat ==> |blk.sequences| > 2)
      modifies blk, table
      ensures SizesOk() && start <= nextEmit && Told(blk, start, nextEmit, offset1, offset2, good) && old(blk.sequences) <= blk.sequences
      ensures found != On
      ensures found == Match ==> s0 <= s && nextEmit <= s && s + INPUT_MARGIN <= |hist| && t < s && s - t < maxMatchOff
      ensures good ==> found != Astray && EntriesOk(start, |hist|)
      ensures good && found == Match ==> hist[s..s + 4] == hist[t..t + 4] && EntriesOk(start, s + 2)
      ensures !canRepeat && old(FirstHit(s0)) ==> found == Match && s == s0 && t == old(HitAt(s0)) && nextEmit == nextEmit0
      ensures !canRepeat ==> blk.sequences == old(blk.sequences) && blk.literals == old(blk.literals)
    {
      hide Says, EntryOk, HashLen, SeqOk, FirstHit;
      found, s, t, nextEmit := Look(blk, start, s0, nextEmit0, offset1, offset2, canRepeat, good);
      while found == On && s + INPUT_MARGIN < |hist|
        invariant SizesOk() && start <= nextEmit && Told(blk, start, nextEmit, offset1, offset2, good)
        invariant old(blk.sequences) <= blk.sequences && s0 <= s
        invariant found == Match ==> nextEmit <= s && s + INPUT_MARGIN <= |hist| && t < s && s - t < maxMatchOff
        invariant found == On ==> nextEmit <= s && (good ==> EntriesOk(start, s))
        invariant good ==> found != Astray && EntriesOk(start, |hist|)
        invariant good && found == Match ==> hist[s..s + 4] == hist[t..t + 4] && EntriesOk(start, s + 2)
        invariant !canRepeat && old(FirstHit(s0)) ==> found == Match && s == s0 && t == old(HitAt(s0)) && nextEmit == nextEmit0
        invariant !canRepeat ==> blk.sequences == old(blk.sequences) && blk.literals == old(blk.literals)
        decreases |hist| - s, found == On
      {
        found, s, t, nextEmit := Look(blk, start, s, nextEmit, offset1, offset2, canRepeat, good);
      }
      if found == On { found := Nothing; }
    }

    /** The parts of the eight bytes at s. */
    lemma Parts(s: nat)
      requires s + 8 <= |hist|
      ensures var cv := hist[s..s + 8];
              && cv[..6] == hist[s..s + 6] && cv[1..][..6] == hist[s + 1..s + 7]
              && cv[..4] == hist[s..s + 4] && cv[1..5] == hist[s + 1..s + 5] && cv[2..6] == hist[s + 2..s + 6]
    {
      Part(hist, s, 0, 6);
      Part(hist, s, 1, 7);
      Part(hist, s, 0, 4);
      Part(hist, s, 1, 5);
      Part(hist, s, 2, 6);
    }

    static lemma Part(h: seq<Byte>, s: nat, a: nat, b: nat)
      requires s + 8 <= |h| && a <= b <= 8
      ensures h[s..s + 8][a..b] == h[s + a..s + b]
      ensures h[s..s + 8][a..][..b - a] == h[s + a..s + b]
    {
      var w, x := h[s..s + 8], h[s + a..s + b];
      forall k | 0 <= k < b - a
        ensures w[a..b][k] == x[k] && w[a..][..b - a][k] == x[k]
      {
        assert w[a + k] == h[s + a + k];
      }
      assert w[a..b] == x && w[a..][..b - a] == x;
    }

    lemma HashOfSix(u: seq<Byte>)
      requires |u| >= 6
      ensures HashLen(u[..6]) == HashLen(u)
    {
      assert u[..6][..6] == u[..6];
    }

    /** A match from the table, grown both ways. */
    method NewMatch(blk: Block, start: nat, s0: nat, t: nat, nextEmit: nat, ghost offset1: int, ghost offset2: int, ghost good: bool) returns (s': nat)
      requires SizesOk() && start <= nextEmit <= s0 && s0 + INPUT_MARGIN <= |hist| <= start + MAX_BLOCK_SIZE
      requires t < s0 && s0 - t < maxMatchOff && (good ==> hist[s0..s0 + 4] == hist[t..t + 4])
      requires Told(blk, start, nextEmit, offset1, offset2, good)
      modifies blk
      ensures s0 + 4 <= s' <= |hist| && Told(blk, start, s', s0 - t, offset1, good) && |blk.sequences| == |old(blk.sequences)| + 1
      ensures old(blk.sequences) <= blk.sequences
      ensures s0 == nextEmit && hist[s0 + 4] != hist[t + 4] ==> s' == s0 + 4 && blk.sequences == old(blk.sequences) + [Seq(0, 1, s0 - t + 3)] && blk.literals == old(blk.literals)
    {
      hide Says, Repeats, SeqOk;
      var d := s0 - t;
      var l0 := Extend(s0, t);
      var tMin: nat := if s0 >= maxMatchOff then s0 - maxMatchOff else 0;
      var s, l := ExtendBack(s0, t, l0, tMin, nextEmit, MAX_MATCH_LENGTH);
      if good {
        RepeatsFacts(hist, s, d, l);
        SaysNew(hist, start, nextEmit, s, maxMatchOff, blk.sequences, blk.xs, blk.literals, offset1, offset2, d, l);
      }
      Codes(s - nextEmit, l - 3, d + 3);
      OneMore(blk.sequences, Seq(s - nextEmit, l - 3, d + 3));
      blk.literals := blk.literals + hist[nextEmit..s];
      blk.sequences := blk.sequences + [Seq(s - nextEmit, l - 3, d + 3)];
      blk.xs := blk.xs + [SeqVals(s - nextEmit, d, l)];
      s' := s + l;
    }

    /** Right behind a match, another one at the distance before. */
    method Swap(blk: Block, start: nat, s: nat, ghost offset1: int, offset2: nat, ghost good: bool) returns (s': nat)
      requires start <= s && s + INPUT_MARGIN < |hist| <= start + MAX_BLOCK_SIZE
      requires Told(blk, start, s, offset1, offset2, good) && |blk.sequences| >= 2
      requires offset2 <= s && hist[s - offset2..s - offset2 + 4] == hist[s..s + 4]
      modifies blk
      ensures s + 4 <= s' <= |hist| && Told(blk, start, s', offset2, offset1, good) && |blk.sequences| == |old(blk.sequences)| + 1
      ensures old(blk.sequences) <= blk.sequences
    {
      hide Says, Repeats, SeqOk;
      var l := Extend(s, s - offset2);
      RepeatsFacts(hist, s, offset2, l);
      if good {
        SaysSwap(hist, start, s, maxMatchOff, blk.sequences, blk.xs, blk.literals, offset1, offset2, l);
      }
      Codes(0, l - 3, 1);
      OneMore(blk.sequences, Seq(0, l - 3, 1));
      blk.sequences := blk.sequences + [Seq(0, l - 3, 1)];
      blk.xs := blk.xs + [SeqVals(0, offset2, l)];
      s' := s + l;
    }

    /** What remains becomes literals. */
    lemma Complete(blk: Block, start: nat, upTo: nat, offset1: int, offset2: int)
      requires Told(blk, start, upTo, offset1, offset2, true)
      ensures upTo <= |hist| && Execute([], hist[..start], maxMatchOff, [], blk.xs, blk.literals + hist[upTo..]) == Ok(hist[start..])
      ensures forall k :: 0 <= k < |blk.sequences| ==> SeqOk(blk.sequences[k])
      ensures forall prev :: ResolveAll(prev, blk.sequences).0 == blk.xs
    {
      hide Execute, ExecPart, SaysFrom, ResolveAll, SeqOk;
      SaysAll(hist, start, upTo, maxMatchOff, blk.sequences, blk.xs, blk.literals, offset1, offset2);
      forall prev
        ensures ResolveAll(prev, blk.sequences).0 == blk.xs
      {
        assert SaysFrom(prev, blk.sequences, blk.xs, offset1, offset2);
        ResolvedAs(prev, blk.sequences, blk.xs, offset1, offset2);
      }
    }

    method EncodeLoop(blk: Block, start: nat, o1: nat, o2: nat, ghost good: bool)
      returns (astray: bool, nextEmit: nat, offset1: nat, offset2: nat)
      requires SizesOk() && (good ==> EntriesOk(start, start)) && start + INPUT_MARGIN < |hist| <= start + MAX_BLOCK_SIZE
      requires blk.sequences == [] && Told(blk, start, start, o1, o2, good)
      modifies blk, table
      ensures SizesOk() && (good ==> !astray && EntriesOk(start, |hist|))
      ensures Told(blk, start, nextEmit, offset1, offset2, good)
      ensures OnlyHit(old(table[HashLen(hist[start..start + 8])]), cur, hist, start, maxMatchOff) ==>
                !astray && nextEmit == start + 4 && blk.literals == old(blk.literals) && blk.sequences == [Seq(0, 1, start - old(HitAt(start)) + 3)]
    {
      hide Says, EntryOk, HashLen, SeqOk;
      ghost var only := OnlyHit(table[HashLen(hist[start..start + 8])], cur, hist, start, maxMatchOff);
      var s := start;
      astray, nextEmit, offset1, offset2 := false, start, o1, o2;
      while true
        invariant SizesOk() && (good ==> EntriesOk(start, s)) && start <= nextEmit <= s && s + INPUT_MARGIN < |hist|
        invariant Told(blk, start, nextEmit, offset1, offset2, good) && !astray
        invariant only ==> s == nextEmit == start && blk.sequences == [] && blk.literals == old(blk.literals) && table[..] == old(table[..])
        decreases |hist| - s
      {
        // repeats only once the block has three sequences of its own
        var canRepeat := |blk.sequences| > 2;
        var found, s1, t, e := Search(blk, start, s, nextEmit, offset1, offset2, canRepeat, good);
        nextEmit := e;
        if found == Nothing {
          return;
        }
        if found == Astray {
          astray := true;
          return;
        }
        s := NewMatch(blk, start, s1, t, nextEmit, offset1, offset2, good);
        offset2 := offset1;
        offset1 := s1 - t;
        nextEmit := s;
        if good { Later(start, s1 + 2, s); }
        if s >= |hist| - INPUT_MARGIN {
          if good { Later(start, s, |hist|); }
          return;
        }
        if canRepeat {
          var at := s - offset2;
          if hist[at..at + 4] == hist[s..s + 4] {
            var s2 := Swap(blk, start, s, offset1, offset2, good);
            Put(hist[s..s + 6], s, s, start);
            if good { Later(start, s + 1, s2); }
            offset1, offset2 := offset2, offset1;
            s, nextEmit := s2, s2;
            if s >= |hist| - INPUT_MARGIN {
              if good { Later(start, s, |hist|); }
              return;
            }
          }
        }
      }
    }

    /** The sequences of the block that begins at start. */
    method EncodeFrom(src: seq<Byte>, start: nat, recent: Offsets, ghost good: bool) returns (astray: bool, blk: Block, recent': Offsets)
      requires SizesOk() && (good ==> EntriesOk(start, start)) && 1 <= |src| <= MAX_BLOCK_SIZE && start <= |hist| && hist[start..] == src
      modifies table
      ensures SizesOk() && fresh(blk)
      ensures forall k :: 0 <= k < |blk.sequences| ==> SeqOk(blk.sequences[k])
      ensures good ==> !astray && Valid() && Execute([], hist[..start], maxMatchOff, [], blk.xs, blk.literals) == Ok(src)
      ensures good ==> forall prev :: ResolveAll(prev, blk.sequences).0 == blk.xs
      ensures |src| >= 10 && OnlyHit(old(table[HashLen(hist[start..start + 8])]), cur, hist, start, maxMatchOff) ==>
                !astray && blk.sequences == [Seq(0, 1, start - old(HitAt(start)) + 3)] && blk.literals == hist[start + 4..]
    {
      hide Says, Execute, EntryOk, HashLen, SeqOk, ResolveAll, Hit;
      blk := new Block();
      recent', astray := recent, false;
      SaysNothing(hist, start, maxMatchOff, recent.o1, recent.o2);
      if good { Later(start, start, |hist|); }
      if |src| < 10 {
        if good {
          assert blk.literals + hist[start..] == src;
          Complete(blk, start, start, recent.o1, recent.o2);
          BlockEnds(start);
        }
        blk.literals := src;
        return;
      }
      var nextEmit, offset1, offset2;
      astray, nextEmit, offset1, offset2 := EncodeLoop(blk, start, recent.o1, recent.o2, good);
      if astray {
        return;
      }
      if good {
        Complete(blk, start, nextEmit, offset1, offset2);
        assert nextEmit == |hist| ==> blk.literals + hist[nextEmit..] == blk.literals;
        BlockEnds(start);
      }
      if nextEmit < |hist| {
        blk.literals := blk.literals + hist[nextEmit..];
      }
      recent' := Offsets(offset1, offset2, recent.o3);
    }

    /** Puts the block behind the history, which is first protected and, for want of room, slid. */
    method Place(src: seq<Byte>) returns (s: nat)
      requires SizesOk() && 1 <= |src| <= MAX_BLOCK_SIZE
      modifies this`cur, this`hist, this`histCap, table
      ensures SizesOk() && s <= |hist| && hist[s..] == src && s <= |old(hist)| && hist[..s] == old(hist)[|old(hist)| - s..]
      ensures s < |old(hist)| ==> s == maxMatchOff
      ensures |src| <= maxMatchOff ==> cur + |hist| <= MAX_INT32
      ensures old(Ready()) ==> EntriesOk(s, s)
      ensures forall i :: 0 <= i < table.Length ==> table[i] == Protected(old(table[i]), old(cur), |old(hist)|, maxMatchOff, bufferReset)
      ensures s == |old(hist)| ==> cur == ProtectedCur(old(cur), s, maxMatchOff, bufferReset)
    {
      hide EntryOk, Protected, ProtectedCur;
      Protect();
      s := AddBlock(src);
      assert hist[..s] == old(hist)[|old(hist)| - s..];
    }

    /**
     Finds the sequences of a block behind the history. From a state that is ready, executing them, from whatever recent
     offsets, gives the block, and the next block finds a valid state. From any other, what the first entry looked at says
     is believed.
     */
    method Encode(src: seq<Byte>, recent: Offsets) returns (astray: bool, blk: Block, ghost start: nat, recent': Offsets)
      requires SizesOk() && 1 <= |src| <= MAX_BLOCK_SIZE
      modifies this`cur, this`hist, this`histCap, table
      ensures SizesOk() && fresh(blk) && start <= |hist| && hist[start..] == src
      ensures start <= |old(hist)| && hist[..start] == old(hist)[|old(hist)| - start..] && (start < |old(hist)| ==> start == maxMatchOff)
      ensures |src| <= maxMatchOff ==> cur + |hist| <= MAX_INT32
      ensures forall k :: 0 <= k < |blk.sequences| ==> SeqOk(blk.sequences[k])
      ensures old(Ready()) ==> !astray && Valid() && Execute([], hist[..start], maxMatchOff, [], blk.xs, blk.literals) == Ok(src)
      ensures old(Ready()) ==> forall prev :: ResolveAll(prev, blk.sequences).0 == blk.xs
      ensures |src| >= 10 && start == |old(hist)| ==>
                var e := Protected(old(table[..])[HashLen(src[..8])], old(cur), start, maxMatchOff, bufferReset);
                var at := ProtectedCur(old(cur), start, maxMatchOff, bufferReset);
                OnlyHit(e, at, hist, start, maxMatchOff) ==>
                  !astray && blk.sequences == [Seq(0, 1, start - (e.offset - at) + 3)] && blk.literals == src[4..]
    {
      hide Says, Execute, EntryOk, HashLen, SeqOk, ResolveAll, OnlyHit, Protected, ProtectedCur;
      ghost var good := Ready();
      var s := Place(src);
      start := s;
      assert |src| >= 10 ==> src[..8] == hist[start..start + 8] && hist[start + 4..] == src[4..];
      astray, blk, recent' := EncodeFrom(src, s, recent, good);
    }
  }

  datatype Found = Match | On | Nothing | Astray

  /** What the encoder puts together for one block. */
  class Block {
    var sequences: seq<Seq>
    var literals: seq<Byte>
    /** The distances the sequences stand for. */
    ghost var xs: seq<SeqVals>

    constructor ()
      ensures sequences == [] && literals == [] && xs == []
    {
      sequences, literals, xs := [], [], [];
    }
  }
}
