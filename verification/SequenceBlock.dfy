/** A block's sequences from the distances an encoder found to the distances a decoder executes. */
module SequenceBlock {
  import opened Results
  import opened SequenceCodes
  import opened SequenceSpec
  import opened SequenceDecoder

  /** A sequence an encoder may produce: a match of at least three bytes, some distance back. */
  predicate Encodable(x: SeqVals)
  {
    x.ll < LL_LIMIT && 3 <= x.ml <= MAX_MATCH_LEN && 1 <= x.mo && x.mo + 3 < OF_LIMIT
  }

  /** Distances replaced by offset codes, recent offsets kept along the way. */
  function Coded(recent: Offsets, xs: seq<SeqVals>): (qs: seq<Seq>)
    requires forall k :: 0 <= k < |xs| ==> Encodable(xs[k])
    ensures |qs| == |xs|
    decreases |xs|
  {
    if xs == [] then []
    else
      assert Encodable(xs[0]);
      var (code, next) := MatchOffset(recent, xs[0].mo, xs[0].ll);
      [Seq(xs[0].ll, xs[0].ml - 3, code)] + Coded(next, xs[1..])
  }

  function LastOffsets(recent: Offsets, xs: seq<SeqVals>): Offsets
    decreases |xs|
  {
    if xs == [] then recent else LastOffsets(MatchOffset(recent, xs[0].mo, xs[0].ll).1, xs[1..])
  }

  function Literals(xs: seq<SeqVals>): nat
    decreases |xs|
  {
    if xs == [] then 0 else xs[0].ll + Literals(xs[1..])
  }

  function Size(xs: seq<SeqVals>): nat
    decreases |xs|
  {
    if xs == [] then 0 else xs[0].ll + xs[0].ml + Size(xs[1..])
  }

  lemma {:induction false} CodedOk(recent: Offsets, xs: seq<SeqVals>)
    requires forall k :: 0 <= k < |xs| ==> Encodable(xs[k])
    ensures forall k :: 0 <= k < |xs| ==> SeqOk(Coded(recent, xs)[k])
    decreases |xs|
  {
    hide MatchOffset;
    if xs != [] {
      OffsetUndone(recent, xs[0].mo, xs[0].ll);
      CodedOk(MatchOffset(recent, xs[0].mo, xs[0].ll).1, xs[1..]);
    }
  }

  /** Checking what was coded succeeds exactly when the block is large enough and has literals enough; it gives back the distances. */
  lemma {:induction false} CodedChecks(p: Progress, xs: seq<SeqVals>, maxBlock: nat)
    requires forall k :: 0 <= k < |xs| ==> Encodable(xs[k])
    ensures forall k :: 0 <= k < |xs| ==> SeqOk(Coded(p.prev, xs)[k])
    ensures var r := CheckSeqs(p, DecodedFrom(Coded(p.prev, xs), 0), maxBlock);
            if xs == [] || (p.size + Size(xs) <= maxBlock && Literals(xs) <= p.lits)
            then r == Ok((xs, Progress(LastOffsets(p.prev, xs), p.size + Size(xs), p.lits - Literals(xs))))
            else r.Err?
    decreases |xs|
  {
    hide MatchOffset, AdjustOffset, OfDecoded, OfCode;
    CodedOk(p.prev, xs);
    if xs != [] {
      var x := xs[0];
      var (code, next) := MatchOffset(p.prev, x.mo, x.ll);
      OffsetUndone(p.prev, x.mo, x.ll);
      var qs := Coded(p.prev, xs);
      var rest := Coded(next, xs[1..]);
      DecodedTail(qs, rest);
      var v := Decoded(qs[0]);
      CheckCons(p, v, DecodedFrom(rest, 0), maxBlock);
      assert Resolve(p.prev, v) == (x, next);
      if p.size + x.ll + x.ml <= maxBlock && x.ll <= p.lits {
        var p1 := Progress(next, p.size + x.ll + x.ml, p.lits - x.ll);
        assert CheckSeq(p, v, maxBlock) == Ok((x, p1));
        CodedChecks(p1, xs[1..], maxBlock);
        assert [x] + xs[1..] == xs;
      } else {
        assert CheckSeq(p, v, maxBlock).Err?;
      }
    }
  }

  lemma DecodedTail(qs: seq<Seq>, rest: seq<Seq>)
    requires qs != [] && qs == [qs[0]] + rest && forall k :: 0 <= k < |qs| ==> SeqOk(qs[k])
    ensures forall k :: 0 <= k < |rest| ==> SeqOk(rest[k])
    ensures DecodedFrom(qs, 0) == [Decoded(qs[0])] + DecodedFrom(rest, 0)
  {
    hide SeqOk, Decoded;
    assert forall k :: 0 <= k < |rest| ==> rest[k] == qs[k + 1];
  }

  /** A whole block: coded, written, read, checked and resolved, the sequences are those the encoder found, and both sides agree on the recent offsets. */
  lemma BlockRoundTrip(bs: Bases, ts: Tables, recent: Offsets, xs: seq<SeqVals>, lits: nat, maxBlock: nat)
    requires TablesOk(ts) && BasesFor(bs, ts) && BasesOk(bs) && xs != []
    requires forall k :: 0 <= k < |xs| ==> Encodable(xs[k])
    requires AllCodable(ts, Coded(recent, xs))
    ensures var r := DecodeBlock(bs, ts, EncodeSeqs(ts, Coded(recent, xs)), |xs|, recent, lits, maxBlock);
            if Size(xs) + (lits - Literals(xs)) <= maxBlock && Literals(xs) <= lits
            then r == Ok((xs, Progress(LastOffsets(recent, xs), Size(xs) + (lits - Literals(xs)), lits - Literals(xs))))
            else r.Err?
  {
    hide TablesOk, BasesFor, BasesOk, AllCodable, EncodeSeqs, DecodeSeqs, Coded, CheckSeqs, DecodedFrom;
    SequencesRoundTrip(bs, ts, Coded(recent, xs));
    CodedChecks(Progress(recent, 0, lits), xs, maxBlock);
  }
}
