/** From the fast match finder through the bitstream and back to the bytes of the block. */
module FastRoundTrip {
  import opened Bits
  import opened Results
  import OpSpec
  import opened SequenceCodes
  import opened SequenceSpec
  import opened SequenceDecoder
  import opened SequenceBlock
  import opened SequenceExec
  import opened SequenceSync
  import opened FastMatch
  import FastEncoder
  import FseNormalize
  import SequenceCoder
  import SequenceTables

  /** Executing makes as many bytes as the sequences and the literals say. */
  lemma {:induction false} ExecSize(dict: seq<Byte>, hist: seq<Byte>, window: nat, out: seq<Byte>, xs: seq<SeqVals>, lits: seq<Byte>)
    requires Execute(dict, hist, window, out, xs, lits).Ok?
    ensures Literals(xs) <= |lits|
    ensures |Execute(dict, hist, window, out, xs, lits).value| == |out| + Size(xs) + (|lits| - Literals(xs))
    ensures forall k :: 0 <= k < |xs| ==> xs[k].mo == 0 ==> xs[k].ml == 0
    decreases |xs|
  {
    hide CopyMatch, Reaches;
    if xs != [] {
      var x := xs[0];
      var out1 := out + lits[..x.ll];
      CopyAllowed(|dict|, |hist| + |out1|, window, x.mo);
      ExecSize(dict, hist, window, CopyMatch(dict + hist, out1, x.mo, x.ml), xs[1..], lits[x.ll..]);
      assert forall k :: 1 <= k < |xs| ==> xs[k] == xs[1..][k - 1];
    }
  }

  lemma CopyAllowed(dictLen: nat, n: nat, window: nat, mo: nat)
    requires Reaches(dictLen, n, window, mo)
    ensures mo <= n + dictLen
  {
  }

  lemma {:induction false} CheckSnoc(p: Progress, vs: seq<Value>, v: Value, maxBlock: nat)
    ensures match CheckSeqs(p, vs, maxBlock)
            case Err(_) => CheckSeqs(p, vs + [v], maxBlock).Err?
            case Ok((xs, p1)) =>
              match CheckSeq(p1, v, maxBlock)
              case Err(_) => CheckSeqs(p, vs + [v], maxBlock).Err?
              case Ok((x, p2)) => CheckSeqs(p, vs + [v], maxBlock) == Ok((xs + [x], p2))
    decreases |vs|
  {
    hide CheckSeq;
    if vs == [] {
      assert vs + [v] == [v];
      CheckOne(p, v, maxBlock);
      var r := CheckSeq(p, v, maxBlock);
      if r.Ok? { assert [] + [r.value.0] == [r.value.0]; }
    } else {
      assert (vs + [v])[0] == vs[0] && (vs + [v])[1..] == vs[1..] + [v];
      var r := CheckSeq(p, vs[0], maxBlock);
      if r.Ok? {
        var (x0, p0) := r.value;
        CheckSnoc(p0, vs[1..], v, maxBlock);
        var rest := CheckSeqs(p0, vs[1..], maxBlock);
        if rest.Ok? {
          var last := CheckSeq(rest.value.1, v, maxBlock);
          if last.Ok? { assert [x0] + (rest.value.0 + [last.value.0]) == [x0] + rest.value.0 + [last.value.0]; }
        }
      }
    }
  }

  lemma {:induction false} SizeSnoc(xs: seq<SeqVals>, x: SeqVals)
    ensures Size(xs + [x]) == Size(xs) + x.ll + x.ml && Literals(xs + [x]) == Literals(xs) + x.ll
    decreases |xs|
  {
    if xs == [] {
      assert [] + [x] == [x] && [x][1..] == [];
    } else {
      assert (xs + [x])[0] == xs[0] && (xs + [x])[1..] == xs[1..] + [x];
      SizeSnoc(xs[1..], x);
    }
  }

  /** The decoder resolves what ResolveAll says, when the sizes fit. */
  lemma {:induction false} CheckResolved(p: Progress, qs: seq<Seq>, maxBlock: nat)
    requires forall k :: 0 <= k < |qs| ==> SeqOk(qs[k])
    requires var xs := ResolveAll(p.prev, qs).0;
             && p.size + Size(xs) <= maxBlock <= MAX_MATCH_LEN && Literals(xs) <= p.lits
             && forall k :: 0 <= k < |xs| ==> xs[k].mo == 0 ==> xs[k].ml == 0
    ensures var (xs, next) := ResolveAll(p.prev, qs);
            CheckSeqs(p, DecodedFrom(qs, 0), maxBlock) == Ok((xs, Progress(next, p.size + Size(xs), p.lits - Literals(xs))))
    decreases |qs|
  {
    hide Resolve, SeqOk, Decoded;
    if qs != [] {
      var front, q := qs[..|qs| - 1], qs[|qs| - 1];
      var (ys, next) := ResolveAll(p.prev, front);
      var x := Resolve(next, Decoded(q)).0;
      var xs := ResolveAll(p.prev, qs).0;
      SizeSnoc(ys, x);
      assert forall k :: 0 <= k < |ys| ==> ys[k] == xs[k];
      CheckResolved(p, front, maxBlock);
      DecodedSnoc(front, q);
      assert front + [q] == qs;
      CheckSnoc(p, DecodedFrom(front, 0), Decoded(q), maxBlock);
      assert xs[|ys|] == x;
    }
  }

  lemma DecodedSnoc(qs: seq<Seq>, q: Seq)
    requires SeqOk(q) && forall k :: 0 <= k < |qs| ==> SeqOk(qs[k])
    ensures forall k :: 0 <= k < |qs + [q]| ==> SeqOk((qs + [q])[k])
    ensures DecodedFrom(qs + [q], 0) == DecodedFrom(qs, 0) + [Decoded(q)]
  {
    hide SeqOk, Decoded;
  }

  /** A byte-by-byte copy does not see what lies further back than it reaches. */
  lemma {:induction false} CopyBehind(more: seq<Byte>, h: seq<Byte>, d: nat, n: nat)
    requires 1 <= d <= |h|
    ensures OpSpec.CopyBack(more + h, d, n) == more + OpSpec.CopyBack(h, d, n)
    decreases n
  {
    if n > 0 {
      ByteBehind(more, h, d);
      CopyBehind(more, h + [h[|h| - d]], d, n - 1);
    }
  }

  lemma ByteBehind(more: seq<Byte>, h: seq<Byte>, d: nat)
    requires 1 <= d <= |h|
    ensures (more + h)[|more + h| - d] == h[|h| - d] && (more + h) + [h[|h| - d]] == more + (h + [h[|h| - d]])
  {
  }

  /** A decoder that kept more history than the encoder executes to the same bytes. */
  lemma {:induction false} MoreHistory(more: seq<Byte>, hist: seq<Byte>, window: nat, out: seq<Byte>, xs: seq<SeqVals>, lits: seq<Byte>)
    requires Execute([], hist, window, out, xs, lits).Ok?
    ensures Execute([], more + hist, window, out, xs, lits) == Execute([], hist, window, out, xs, lits)
    decreases |xs|
  {
    hide CopyMatch;
    if xs != [] {
      var x := xs[0];
      var out1 := out + lits[..x.ll];
      if x.ml > 0 { CopyMore(more, hist, out1, x.mo, x.ml); } else { CopyNothing([] + hist, out1, x.mo); CopyNothing([] + (more + hist), out1, x.mo); }
      MoreHistory(more, hist, window, CopyMatch([] + hist, out1, x.mo, x.ml), xs[1..], lits[x.ll..]);
    }
  }

  lemma CopyMore(more: seq<Byte>, hist: seq<Byte>, out: seq<Byte>, mo: nat, ml: nat)
    requires ml > 0 && 1 <= mo <= |hist| + |out|
    ensures CopyMatch([] + (more + hist), out, mo, ml) == CopyMatch([] + hist, out, mo, ml)
  {
    hide OpSpec.CopyBack;
    CopyBehind(more, hist + out, mo, ml);
    assert [] + hist + out == hist + out;
    assert [] + (more + hist) + out == more + (hist + out);
    var h := OpSpec.CopyBack(hist + out, mo, ml);
    assert (more + h)[|more + hist|..] == h[|hist|..];
  }

  /**
   The block of the fast match finder survives: its sequences written with any tables that have their codes, then read,
   resolved and executed with the literals behind a history that ends with the encoder's, give the block. The decoder's
   recent offsets do not matter.
   */
  lemma FastBlockRoundTrip(bs: Bases, ts: Tables, qs: seq<Seq>, xs: seq<SeqVals>, more: seq<Byte>, hist: seq<Byte>, window: nat, lits: seq<Byte>,
                           src: seq<Byte>, prev: Offsets)
    requires TablesOk(ts) && BasesFor(bs, ts) && BasesOk(bs) && qs != [] && AllCodable(ts, qs)
    requires forall k :: 0 <= k < |qs| ==> SeqOk(qs[k])
    requires ResolveAll(prev, qs).0 == xs
    requires Execute([], hist, window, [], xs, lits) == Ok(src) && |src| <= window && |src| <= MAX_BLOCK_SIZE
    ensures Block(bs, ts, EncodeSeqs(ts, qs), |qs|, prev, [], more + hist, window, [], lits) == Ok(src)
  {
    hide TablesOk, BasesFor, BasesOk, AllCodable, EncodeSeqs, DecodeSeqs, SeqOk, ResolveAll, Execute, CheckSeqs, DecodedFrom;
    var maxBlock := if window < MAX_BLOCK_SIZE then window else MAX_BLOCK_SIZE;
    ExecSize([], hist, window, [], xs, lits);
    CheckResolved(Progress(prev, 0, |lits|), qs, maxBlock);
    SequencesRoundTrip(bs, ts, qs);
    MoreHistory(more, hist, window, [], xs, lits);
  }

  /** Every resolved sequence has a match of three bytes at least. */
  lemma {:induction false} LongMatches(prev: Offsets, qs: seq<Seq>)
    requires forall k :: 0 <= k < |qs| ==> SeqOk(qs[k])
    ensures forall k :: 0 <= k < |qs| ==> ResolveAll(prev, qs).0[k].ml >= 3
    decreases |qs|
  {
    if qs != [] { LongMatches(prev, qs[..|qs| - 1]); }
  }

  lemma {:induction false} SizeOfMany(xs: seq<SeqVals>)
    requires forall k :: 0 <= k < |xs| ==> xs[k].ml >= 3
    ensures Size(xs) >= 3 * |xs|
    decreases |xs|
  {
    if xs != [] { SizeOfMany(xs[1..]); }
  }

  /** A block has no more than 43690 sequences. */
  lemma FewSequences(qs: seq<Seq>, xs: seq<SeqVals>, hist: seq<Byte>, window: nat, lits: seq<Byte>, src: seq<Byte>, prev: Offsets)
    requires (forall k :: 0 <= k < |qs| ==> SeqOk(qs[k])) && ResolveAll(prev, qs).0 == xs
    requires Execute([], hist, window, [], xs, lits) == Ok(src) && |src| <= MAX_BLOCK_SIZE
    ensures |qs| <= FseNormalize.MAX_LENGTH
  {
    hide Execute, ResolveAll;
    LongMatches(prev, qs);
    SizeOfMany(xs);
    ExecSize([], hist, window, [], xs, lits);
  }

  lemma CellsHaveBases(bs: Bases, ts: Tables)
    requires |bs.ll| == SequenceTables.LL_SYMBOLS && |bs.of| == SequenceTables.OF_SYMBOLS && |bs.ml| == FseNormalize.MAX_SYMBOLS
    requires forall u :: 0 <= u < |ts.ll.cells| ==> ts.ll.cells[u] < SequenceTables.LL_SYMBOLS
    requires forall u :: 0 <= u < |ts.of.cells| ==> ts.of.cells[u] < SequenceTables.OF_SYMBOLS
    requires forall u :: 0 <= u < |ts.ml.cells| ==> ts.ml.cells[u] < FseNormalize.MAX_SYMBOLS
    ensures BasesFor(bs, ts)
  {
  }

  /**
   A block from the match finder to its tables: a decoder with these tables and a history that ends with the encoder's
   regenerates the block from the sequences' bits and the literals, whatever its recent offsets.
   */
  method FastBlock(e: FastEncoder.FastEncoder, src: seq<Byte>, recent: Offsets, ghost more: seq<Byte>, ghost prev: Offsets)
    returns (err: Option<Error>, blk: FastEncoder.Block, ghost start: nat, ghost ts: Tables, ghost bs: Bases)
    requires e.Ready() && 1 <= |src| <= MAX_BLOCK_SIZE && |src| <= e.maxMatchOff
    modifies e`cur, e`hist, e`histCap, e.table
    ensures err == None && e.Valid() && start <= |e.hist| && e.hist[start..] == src
    ensures blk.sequences != [] ==>
              && TablesOk(ts) && BasesFor(bs, ts) && AllCodable(ts, blk.sequences)
              && Block(bs, ts, EncodeSeqs(ts, blk.sequences), |blk.sequences|, prev, [], more + e.hist[..start], e.maxMatchOff, [], blk.literals) == Ok(src)
  {
    hide TablesOk, BasesFor, BasesOk, AllCodable, EncodeSeqs, SeqOk, ResolveAll, Execute, Block, FastEncoder.EntryOk;
    var astray, recent';
    astray, blk, start, recent' := e.Encode(src, recent);
    ts, bs := Tables(Table([], 0), Table([], 0), Table([], 0)), Bases([], [], []);
    err := None;
    if blk.sequences != [] {
      FewSequences(blk.sequences, blk.xs, e.hist[..start], e.maxMatchOff, blk.literals, src, prev);
      var ll, of, ml;
      err, ll, of, ml := SequenceTables.TablesFor(blk.sequences);
      var llBases, mlBases, ofBases := PredefinedBases();
      bs := Bases(llBases, mlBases, ofBases);
      ts := Tables(SequenceCoder.TableOf(ll), SequenceCoder.TableOf(ml), SequenceCoder.TableOf(of));
      CellsHaveBases(bs, ts);
      FastBlockRoundTrip(bs, ts, blk.sequences, blk.xs, more, e.hist[..start], e.maxMatchOff, blk.literals, src, prev);
    }
  }

  method PredefinedBases() returns (ll: seq<BaseOffset>, ml: seq<BaseOffset>, of: seq<BaseOffset>)
    ensures |ll| == SequenceTables.LL_SYMBOLS && |of| == SequenceTables.OF_SYMBOLS && |ml| == FseNormalize.MAX_SYMBOLS
    ensures BasesOk(Bases(ll, ml, of))
  {
    hide Undoes, LlCode, MlCode, OfCode, LlBits, MlBits, OfDecoded;
    ll := LlBases();
    ml := MlBases();
    of := OfBases();
  }
}
