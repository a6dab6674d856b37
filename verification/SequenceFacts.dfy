/** The sequences of a block in the format's own terms: recent offsets as a list, codes as ranges, bits in their order. */
module SequenceFacts {
  import opened Bits
  import opened Results
  import opened BitStream
  import opened FseCoding
  import opened SequenceCodes
  import opened SequenceSpec
  import opened SequenceDecoder

  // ----- recent offsets -----

  /** What the format calls the offset value: 1, 2 and 3 name recent offsets, larger ones are distances plus three. */
  function OffsetValue(v: Value): nat { if v.moB <= 1 then v.mo + 1 else v.mo + 3 }

  /** The recent offsets, the most recent first, once the distance of a sequence is in front of them. A distance 0 becomes 1. */
  function Recent(h: seq<nat>, offsetValue: nat, litLen: nat): (h': seq<nat>)
    requires |h| == 3 && offsetValue >= 1
    ensures |h'| == 3
  {
    if offsetValue > 3 then [offsetValue - 3] + h[..2]
    else
      var i := if litLen == 0 then offsetValue else offsetValue - 1;
      if i == 0 then h
      else if i == 3 then [if h[0] > 1 then h[0] - 1 else 1] + h[..2]
      else [if h[i] >= 1 then h[i] else 1] + h[..i] + h[i + 1..]
  }

  function RecentAfter(h: seq<nat>, vs: seq<Value>): (h': seq<nat>)
    requires |h| == 3
    ensures |h'| == 3
    decreases |vs|
  {
    if vs == [] then h else RecentAfter(Recent(h, OffsetValue(vs[0]), vs[0].ll), vs[1..])
  }

  function List(o: Offsets): (h: seq<nat>)
    ensures |h| == 3
  {
    [o.o1, o.o2, o.o3]
  }

  /** Values as the decoder's offset table makes them: 0, 1 and 2 for the first two codes, distances for the others. */
  predicate Proper(v: Value) { if v.moB <= 1 then v.mo <= 2 else v.mo >= 1 }

  /** In every block decoded, every distance is the one its offset value names, and the offsets left over are the last three. */
  lemma BlockOffsets(bs: Bases, ts: Tables, s: seq<Bit>, n: nat, prev: Offsets, lits: nat, maxBlock: nat)
    requires TablesOk(ts) && BasesFor(bs, ts) && BasesOk(bs) && |bs.of| <= 31 && n >= 1
    requires DecodeBlock(bs, ts, s, n, prev, lits, maxBlock).Ok?
    ensures DecodeSeqs(bs, ts, s, n).Ok?
    ensures var vs, (xs, p) := DecodeSeqs(bs, ts, s, n).value, DecodeBlock(bs, ts, s, n, prev, lits, maxBlock).value;
            && |xs| == |vs| && List(p.prev) == RecentAfter(List(prev), vs)
            && forall k :: 0 <= k < |xs| ==> xs[k] == SeqVals(vs[k].ll, RecentAfter(List(prev), vs[..k + 1])[0], vs[k].ml)
  {
    hide TablesOk, BasesFor, BasesOk, CheckSeqs, ReadStates, ReadSeqs, Proper;
    var (st, s1) := ReadStates(ts, s).value;
    ValuesProper(bs, ts, st, s1, n);
    OffsetsFrom(Progress(prev, 0, lits), DecodeSeqs(bs, ts, s, n).value, maxBlock);
  }

  lemma {:induction false} ValuesProper(bs: Bases, ts: Tables, st: States, s: seq<Bit>, n: nat)
    requires TablesOk(ts) && StatesOk(ts, st) && BasesFor(bs, ts) && BasesOk(bs) && |bs.of| <= 31 && n >= 1
    requires ReadSeqs(bs, ts, st, s, n).Ok?
    ensures forall k :: 0 <= k < |ReadSeqs(bs, ts, st, s, n).value.0| ==> Proper(ReadSeqs(bs, ts, st, s, n).value.0[k])
    decreases n
  {
    hide TablesOk, BasesFor, BasesOk, ReadTransition, ReadValue, Proper;
    var (v, s1) := ReadValue(bs, ts, st, s).value;
    ValueProper(bs, ts, st, s);
    if n > 1 {
      var (st', s2) := ReadTransition(ts, st, s1).value;
      ValuesProper(bs, ts, st', s2, n - 1);
    }
  }

  lemma ValueProper(bs: Bases, ts: Tables, st: States, s: seq<Bit>)
    requires StatesOk(ts, st) && BasesFor(bs, ts) && BasesOk(bs) && |bs.of| <= 31 && ReadValue(bs, ts, st, s).Ok?
    ensures Proper(ReadValue(bs, ts, st, s).value.0)
  {
    hide Pow2, Low, BitLen, Pop;
    var c := ts.of.cells[st.of];
    Pow2Limits();
    Pow2Mono(c + 1, 31);
    Pow2Next(c);
    FseCoding.BitLenIs(Pow2(c), c);
    assert Undoes(bs.of, OfCode(Pow2(c)), OfCode(Pow2(c)), Pow2(c), OfDecoded(Pow2(c)));
    NoLowBits(c);
    PoppedBelow(s, c);
    SmallPowers();
    if c >= 2 { Pow2Mono(2, c); }
  }

  lemma NoLowBits(c: nat)
    ensures Low(Pow2(c), c) == 0
  {
    hide Pow2, Low, Shr;
    assert Shl(1, c) + 0 == Pow2(c);
    ShrOfShl(1, c, 0);
  }

  lemma {:induction false} OffsetsFrom(p: Progress, vs: seq<Value>, maxBlock: nat)
    requires CheckSeqs(p, vs, maxBlock).Ok? && forall k :: 0 <= k < |vs| ==> Proper(vs[k])
    ensures var (xs, p') := CheckSeqs(p, vs, maxBlock).value;
            && |xs| == |vs| && List(p'.prev) == RecentAfter(List(p.prev), vs)
            && forall k :: 0 <= k < |xs| ==> xs[k] == SeqVals(vs[k].ll, RecentAfter(List(p.prev), vs[..k + 1])[0], vs[k].ml)
    decreases |vs|
  {
    hide AdjustOffset, Proper;
    if vs != [] {
      var (x, p1) := CheckSeq(p, vs[0], maxBlock).value;
      OneOffset(p.prev, vs[0]);
      OffsetsFrom(p1, vs[1..], maxBlock);
      var (xs, p') := CheckSeqs(p, vs, maxBlock).value;
      forall k | 0 <= k < |xs|
        ensures xs[k] == SeqVals(vs[k].ll, RecentAfter(List(p.prev), vs[..k + 1])[0], vs[k].ml)
      {
        assert vs[..k + 1][0] == vs[0] && vs[..k + 1][1..] == vs[1..][..k];
        if k == 0 { NoneLeft(List(p1.prev)); } else { assert xs[k] == xs[1..][k - 1]; }
      }
    }
  }

  lemma NoneLeft(h: seq<nat>)
    requires |h| == 3
    ensures RecentAfter(h, []) == h
  {
  }

  lemma OneOffset(prev: Offsets, v: Value)
    requires Proper(v)
    ensures var (x, next) := Resolve(prev, v);
            List(next) == Recent(List(prev), OffsetValue(v), v.ll) && x == SeqVals(v.ll, List(next)[0], v.ml)
  {
  }

  /** What the encoder wrote as offset value is what the decoder reads. */
  lemma OffsetValueRead(q: Seq)
    requires SeqOk(q)
    ensures OffsetValue(Decoded(q)) == q.offset
  {
    hide Pow2;
    BitLenRange(q.offset);
    SmallPowers();
    if q.offset >= 4 { BitLenFour(q.offset); } else { BitLenBound(q.offset, 2); }
  }

  /** The example of the format: ten lists of recent offsets, each from the one before. */
  lemma OffsetExample()
    ensures Recent([1, 4, 8], 1114, 11) == [1111, 1, 4]
    ensures Recent([1111, 1, 4], 1, 22) == [1111, 1, 4]
    ensures Recent([1111, 1, 4], 2225, 22) == [2222, 1111, 1]
    ensures Recent([2222, 1111, 1], 1114, 111) == [1111, 2222, 1111]
    ensures Recent([1111, 2222, 1111], 3336, 33) == [3333, 1111, 2222]
    ensures Recent([3333, 1111, 2222], 2, 22) == [1111, 3333, 2222]
    ensures Recent([1111, 3333, 2222], 3, 33) == [2222, 1111, 3333]
    ensures Recent([2222, 1111, 3333], 3, 0) == [2221, 2222, 1111]
    ensures Recent([2221, 2222, 1111], 1, 0) == [2222, 2221, 1111]
  {
  }

  // ----- codes -----

  /** The first value of every code that stands for more than one literal length, and its extra bits. */
  const LL_BASE: seq<nat> := [16, 18, 20, 22, 24, 28, 32, 40, 48, 64, 128, 256, 512, 1024, 2048, 4096, 8192, 16384, 32768, 65536]
  const LL_EXTRA: seq<nat> := [1, 1, 1, 1, 2, 2, 3, 3, 4, 6, 7, 8, 9, 10, 11, 12, 13, 14, 15, 16]

  /** A literal length has the code whose range it is in; the first sixteen lengths are their own codes. */
  lemma LlRange(v: nat, c: nat)
    requires v < LL_LIMIT && 16 <= c < 36
    ensures v < 16 ==> LlCode(v) == v
    ensures LlCode(v) == c <==> LL_BASE[c - 16] <= v < LL_BASE[c - 16] + Pow2(LL_EXTRA[c - 16])
    ensures LlBits(c) == LL_EXTRA[c - 16] && forall d :: d < 16 ==> LlBits(d) == 0
  {
    hide Pow2, Low, BitLen, LlCode, LlBase, LlBits, Shr;
    var d := LlCode(v);
    LlCodeOk(v);
    LlFirst(v, d);
    ShrLow(v, LlBits(d));
    LlTable(c);
    if d >= 16 {
      LlTable(d);
      if c < d { LlLater(c, d); }
      if d < c { LlLater(d, c); }
    } else {
      LlLater16(c);
    }
  }

  lemma LlFirst(v: nat, d: nat)
    requires v < LL_LIMIT && d == LlCode(v)
    ensures (v < 16 <==> d < 16) && (d < 16 ==> d == v) && forall d :: d < 16 ==> LlBits(d) == 0
  {
    hide Pow2, BitLen;
    if v >= 64 {
      BitLenRange(v);
      SmallPowers();
      if BitLen(v) < 7 { Pow2Mono(BitLen(v), 6); Pow2Next(BitLen(v) - 1); }
    }
  }

  lemma LlLater16(c: nat)
    requires 16 <= c < 36
    ensures LL_BASE[c - 16] >= 16
  {
  }

  lemma {:induction false} LlLater(c: nat, d: nat)
    requires 16 <= c < d < 36
    ensures LL_BASE[c - 16] + Pow2(LL_EXTRA[c - 16]) <= LL_BASE[d - 16]
    decreases d - c
  {
    hide Pow2;
    SmallPowers();
    HighPowers();
    if c + 1 < d { LlLater(c + 1, d); }
  }

  lemma LlTable(c: nat)
    requires 16 <= c < 36
    ensures LlBase(c) == LL_BASE[c - 16] && LlBits(c) == LL_EXTRA[c - 16]
  {
    hide Pow2;
    HighPowers();
    if c < 25 { LlSmall(c); } else { LlLarge(c); }
  }

  lemma LlSmall(c: nat)
    requires 16 <= c < 25
    ensures LlBase(c) == LL_BASE[c - 16] && LlBits(c) == LL_EXTRA[c - 16]
  {
    hide Pow2;
  }

  lemma LlLarge(c: nat)
    requires 25 <= c < 36
    ensures LlBase(c) == LL_BASE[c - 16] && LlBits(c) == LL_EXTRA[c - 16]
  {
    hide Pow2;
    HighPowers();
  }

  lemma HighPowers()
    ensures Pow2(6) == 64 && Pow2(7) == 128
    ensures Pow2(8) == 256 && Pow2(9) == 512 && Pow2(10) == 1024 && Pow2(11) == 2048 && Pow2(12) == 4096
    ensures Pow2(13) == 8192 && Pow2(14) == 16384 && Pow2(15) == 32768 && Pow2(16) == 65536
  {
    hide Pow2;
    SmallPowers();
    PowersToByte();
    Pow2Next(8);
    Pow2Next(9);
    Pow2Next(10);
    Pow2Next(11);
    Pow2Next(12);
    Pow2Next(13);
    Pow2Next(14);
    Pow2Next(15);
  }

  /** The first value of every code that stands for more than one match length, less three, and its extra bits. */
  const ML_BASE: seq<nat> := [32, 34, 36, 38, 40, 44, 48, 56, 64, 80, 96, 128, 256, 512, 1024, 2048, 4096, 8192, 16384, 32768, 65536]
  const ML_EXTRA: seq<nat> := [1, 1, 1, 1, 2, 2, 3, 3, 4, 4, 5, 7, 8, 9, 10, 11, 12, 13, 14, 15, 16]

  /** A match length has the code whose range it is in; the first thirty-two lengths are their own codes. */
  lemma MlRange(v: nat, c: nat)
    requires v < ML_LIMIT && 32 <= c < 53
    ensures v < 32 ==> MlCode(v) == v
    ensures MlCode(v) == c <==> ML_BASE[c - 32] <= v < ML_BASE[c - 32] + Pow2(ML_EXTRA[c - 32])
    ensures MlBits(c) == ML_EXTRA[c - 32] && forall d :: d < 32 ==> MlBits(d) == 0
  {
    hide Pow2, Low, BitLen, MlCode, MlBase, MlBits, Shr;
    var d := MlCode(v);
    MlCodeOk(v);
    MlFirst(v, d);
    ShrLow(v, MlBits(d));
    MlTable(c);
    if d >= 32 {
      MlTable(d);
      if c < d { MlLater(c, d); }
      if d < c { MlLater(d, c); }
    } else {
      MlLater32(c);
    }
  }

  lemma MlFirst(v: nat, d: nat)
    requires v < ML_LIMIT && d == MlCode(v)
    ensures (v < 32 <==> d < 32) && (d < 32 ==> d == v) && forall d :: d < 32 ==> MlBits(d) == 0
  {
    hide Pow2, BitLen;
    if v >= 128 {
      BitLenRange(v);
      SmallPowers();
      if BitLen(v) < 8 { Pow2Mono(BitLen(v), 7); Pow2Next(BitLen(v) - 1); }
    }
  }

  lemma MlLater32(c: nat)
    requires 32 <= c < 53
    ensures ML_BASE[c - 32] >= 32
  {
  }

  lemma {:induction false} MlLater(c: nat, d: nat)
    requires 32 <= c < d < 53
    ensures ML_BASE[c - 32] + Pow2(ML_EXTRA[c - 32]) <= ML_BASE[d - 32]
    decreases d - c
  {
    hide Pow2;
    SmallPowers();
    HighPowers();
    if c + 1 < d { MlLater(c + 1, d); }
  }

  lemma MlTable(c: nat)
    requires 32 <= c < 53
    ensures MlBase(c) == ML_BASE[c - 32] && MlBits(c) == ML_EXTRA[c - 32]
  {
    hide Pow2;
    if c < 43 { MlSmall(c); } else { MlLarge(c); }
  }

  lemma MlSmall(c: nat)
    requires 32 <= c < 43
    ensures MlBase(c) == ML_BASE[c - 32] && MlBits(c) == ML_EXTRA[c - 32]
  {
    hide Pow2;
  }

  lemma MlLarge(c: nat)
    requires 43 <= c < 53
    ensures MlBase(c) == ML_BASE[c - 32] && MlBits(c) == ML_EXTRA[c - 32]
  {
    hide Pow2;
    HighPowers();
  }

  /** An offset value has as its code the position of its highest bit. */
  lemma OfRange(v: nat, c: nat)
    requires 1 <= v
    ensures OfCode(v) == c <==> Pow2(c) <= v < 2 * Pow2(c)
  {
    hide Pow2, BitLen;
    BitLenRange(v);
    if Pow2(c) <= v < 2 * Pow2(c) { FseCoding.BitLenIs(v, c); }
  }

  // ----- the order of the bits -----

  /** The last bits are the three first states: those of literal lengths, then offsets, then match lengths. */
  lemma StatesLaid(ts: Tables, s: seq<Bit>, ll: nat, of: nat, ml: nat)
    requires TablesOk(ts) && ll < Pow2(ts.ll.log) && of < Pow2(ts.of.log) && ml < Pow2(ts.ml.log)
    ensures ReadStates(ts, s + BitsOf(ml, ts.ml.log) + BitsOf(of, ts.of.log) + BitsOf(ll, ts.ll.log)) == Ok((States(ll, ml, of), s))
  {
    hide Pow2, BitsOf, Pop, Low;
    PopPushed(s + BitsOf(ml, ts.ml.log) + BitsOf(of, ts.of.log), ll, ts.ll.log);
    PopPushed(s + BitsOf(ml, ts.ml.log), of, ts.of.log);
    PopPushed(s, ml, ts.ml.log);
    ShrZero(ll, ts.ll.log);
    ShrZero(of, ts.of.log);
    ShrZero(ml, ts.ml.log);
  }

  /** Of the extra bits of a sequence those of the offset come last, before them those of the match length, then the literals'. */
  lemma ValueLaid(bs: Bases, ts: Tables, st: States, s: seq<Bit>, ll: nat, ml: nat, of: nat)
    requires StatesOk(ts, st) && BasesFor(bs, ts)
    requires var l, m, o := bs.ll[ts.ll.cells[st.ll]], bs.ml[ts.ml.cells[st.ml]], bs.of[ts.of.cells[st.of]];
             ll < Pow2(l.addBits) && ml < Pow2(m.addBits) && of < Pow2(o.addBits)
    ensures var l, m, o := bs.ll[ts.ll.cells[st.ll]], bs.ml[ts.ml.cells[st.ml]], bs.of[ts.of.cells[st.of]];
            ReadValue(bs, ts, st, s + BitsOf(ll, l.addBits) + BitsOf(ml, m.addBits) + BitsOf(of, o.addBits)) ==
            Ok((Value(l.baseLine + ll, o.baseLine + of, m.baseLine + ml, o.addBits), s))
  {
    hide Pow2, BitsOf, Pop, Low;
    var l, m, o := bs.ll[ts.ll.cells[st.ll]].addBits, bs.ml[ts.ml.cells[st.ml]].addBits, bs.of[ts.of.cells[st.of]].addBits;
    PopPushed(s + BitsOf(ll, l) + BitsOf(ml, m), of, o);
    PopPushed(s + BitsOf(ll, l), ml, m);
    PopPushed(s, ll, l);
    ShrZero(ll, l);
    ShrZero(ml, m);
    ShrZero(of, o);
  }

  /** Of the bits for the next states those of literal lengths come last, before them those of match lengths, then offsets. */
  lemma TransitionLaid(ts: Tables, st: States, s: seq<Bit>, ll: nat, ml: nat, of: nat)
    requires TablesOk(ts) && StatesOk(ts, st)
    requires ll < Pow2(NbBits(ts.ll.cells, ts.ll.log, st.ll)) && ml < Pow2(NbBits(ts.ml.cells, ts.ml.log, st.ml)) && of < Pow2(NbBits(ts.of.cells, ts.of.log, st.of))
    ensures ReadTransition(ts, st, s + BitsOf(of, NbBits(ts.of.cells, ts.of.log, st.of)) + BitsOf(ml, NbBits(ts.ml.cells, ts.ml.log, st.ml)) +
                                   BitsOf(ll, NbBits(ts.ll.cells, ts.ll.log, st.ll))) ==
            Ok((States(Base(ts.ll.cells, ts.ll.log, st.ll) + ll, Base(ts.ml.cells, ts.ml.log, st.ml) + ml, Base(ts.of.cells, ts.of.log, st.of) + of), s))
  {
    hide Pow2, BitsOf, Pop, Low, NbBits, Base, SizeOk;
    SizesOk(ts);
    var l, m, o := NbBits(ts.ll.cells, ts.ll.log, st.ll), NbBits(ts.ml.cells, ts.ml.log, st.ml), NbBits(ts.of.cells, ts.of.log, st.of);
    PopPushed(s + BitsOf(of, o) + BitsOf(ml, m), ll, l);
    PopPushed(s + BitsOf(of, o), ml, m);
    PopPushed(s, of, o);
    ShrZero(ll, l);
    ShrZero(ml, m);
    ShrZero(of, o);
  }

  lemma SizesOk(ts: Tables)
    requires TablesOk(ts)
    ensures FseCoding.TableOk(ts.ll.cells, ts.ll.log) && FseCoding.TableOk(ts.ml.cells, ts.ml.log) && FseCoding.TableOk(ts.of.cells, ts.of.log)
  {
  }

  /** A block of two sequences, from its last bit: the states, the first values, the next states, the second values, nothing else. */
  lemma TwoSequences(bs: Bases, ts: Tables, st: States, st': States, first: Value, second: Value, states: seq<Bit>, v: seq<Bit>, t: seq<Bit>, w: seq<Bit>)
    requires TablesOk(ts) && StatesOk(ts, st) && StatesOk(ts, st') && BasesFor(bs, ts)
    requires forall s :: ReadStates(ts, s + states) == Ok((st, s))
    requires forall s :: ReadValue(bs, ts, st, s + v) == Ok((first, s))
    requires forall s :: ReadTransition(ts, st, s + t) == Ok((st', s))
    requires forall s :: ReadValue(bs, ts, st', s + w) == Ok((second, s))
    ensures DecodeSeqs(bs, ts, w + t + v + states, 2) == Ok([first, second])
  {
    hide ReadStates, ReadValue, ReadTransition, TablesOk, BasesFor;
    assert [] + w == w;
    assert ReadValue(bs, ts, st', [] + w) == Ok((second, []));
    assert ReadSeqs(bs, ts, st', w, 1) == Ok(([second], []));
    assert ReadValue(bs, ts, st, w + t + v) == Ok((first, w + t)) && ReadTransition(ts, st, w + t) == Ok((st', w));
    assert ReadSeqs(bs, ts, st, w + t + v, 2) == Ok(([first] + [second], []));
    assert ReadStates(ts, w + t + v + states) == Ok((st, w + t + v));
    assert [first] + [second] == [first, second];
  }
}
